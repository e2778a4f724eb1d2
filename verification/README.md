# secp256k1 tutorial script — a verified model

The script `blockchain.py` defines three records: a curve y² = x³ + a·x + b
over the integers modulo p, a point on such a curve, and a generator with
its order. It fills them with the secp256k1 domain parameters from section
2.4.1 of SEC 2. It then checks that the generator satisfies the curve
equation. It checks a pseudo-random point the same way. Finally it derives
a toy secret key from the ASCII phrase `Andrej is cool :P` and asserts that
the key is a valid group scalar, 1 ≤ k < n.

The model has three modules:

- `PyInt` (`pyint.dfy`) covers the Python integer semantics the script uses.
  `%` is floor modulo and raises `ZeroDivisionError` on a zero divisor.
  `int.from_bytes(bs, 'big')` is big-endian decoding. The module also holds
  the modular-arithmetic lemmas that the other modules use.
- `Curves` (`curves.dfy`) holds the `Curve`, `Point` and `Generator`
  datatypes, the secp256k1 constants and the membership test. The test is
  modelled twice: once for a general curve, and once exactly as the script
  writes it for secp256k1, with the constant 7 built in.
- `SecretKey` (`secret_key.dfy`) models the phrase, the big-endian
  derivation and the range assertion.

Every operation is a total function. Exceptions are values:
`Result<T> = Ok(value) | Raise(exc)`. A zero modulus therefore gives
`Raise(ZeroDivisionError)`, and an out-of-range key gives
`Raise(AssertionError)`. Neither is ruled out by a precondition.

The script uses one expression, `(y**2 - x**3 - 7) % p == 0`, for both the
generator (line 50) and the random point (line 56). The doc-comment of
`Curve` states the general equation y² = x³ + a·x + b (mod p). The code
never uses `a` or `b` from the curve record. `Secp256k1Test` follows the
code as written. `IsOnCurve` is the general test the doc-comment describes.
`SpecialisedTestIsGeneralTest` proves that the two agree when a = 0 and
b = 7.

The data and constants map onto the source as follows. The table below
cites them through the lemmas that state their properties.

- `Curves.Curve`, `Curves.Point` and `Curves.Generator` (blockchain.py:4-27)
  are plain datatypes. `Point` carries no on-curve invariant, just as the
  dataclass does not.
- `Curves.BitcoinCurve`, `Curves.G` and `Curves.BitcoinGenerator`
  (blockchain.py:29-46) hold the same hex literals as the source. Their
  agreement with the SEC 2 forms is stated by
  `Secp256k1ParametersAsPublished`.
- `SecretKey.AsciiBytes` and `SecretKey.Phrase` model the literal
  `b'Andrej is cool :P'` (blockchain.py:58).
- `SecretKey.IsValidScalar` is the condition `1 <= secret_key < n`
  (blockchain.py:59).

## Model

| member | source | states |
|---|---|---|
| `PyInt.Mod` | blockchain.py:50 | Python `%`: raises ZeroDivisionError exactly when the modulus is 0; otherwise the result is the unique value congruent to the dividend that lies in [0, m) for m > 0 and in (m, 0] for m < 0 |
| `PyInt.ModPositive` | blockchain.py:50 | for a positive modulus, Python's `%` equals the mathematical (Euclidean) residue |
| `PyInt.ModZeroIffDivides` | blockchain.py:50 | for any non-zero modulus, `a % m == 0` holds exactly when m divides a |
| `PyInt.CongruentIffDivides` | blockchain.py:8 | two integers are congruent mod m exactly when m divides their difference, which is the link between the `== 0` test and the curve congruence |
| `PyInt.FromBytesBig` | blockchain.py:58 | `int.from_bytes(bs, 'big')` is a natural number below 256^len(bs) |
| `PyInt.FromBytesBigIsPositional` | blockchain.py:58 | the decoded value equals Σ bs[i]·256^(len−1−i), the positional reading of the bytes |
| `PyInt.PositionalAppend` | blockchain.py:58 | appending a byte to the positional sum shifts it one byte left: value(s + [c]) = value(s)·256 + c, proved by induction over the front-first sum |
| `PyInt.FromBytesBigLeadingByte` | blockchain.py:58 | a byte string with a non-zero leading byte decodes to at least 256^(len−1) |
| `PyInt.FromBytesBigZero` | blockchain.py:58 | the decoded value is 0 exactly when every byte is 0 |
| `PyInt.FromBytesBigInjective` | blockchain.py:58 | two byte strings of equal length with the same value are equal |
| `Curves.IsOnCurve` | blockchain.py:5-12 | general membership test `(y·y − x·x·x − a·x − b) % p == 0`: raises ZeroDivisionError exactly when p = 0; otherwise true exactly when y² ≡ x³ + a·x + b (mod p) |
| `Curves.Secp256k1Test` | blockchain.py:50 | the script's test `(y**2 − x**3 − 7) % p == 0`: raises exactly when p = 0; otherwise true exactly when (x, y) satisfies y² ≡ x³ + 7 (mod p) |
| `Curves.SpecialisedTestIsGeneralTest` | blockchain.py:29-33 | on any curve with a = 0 and b = 7, the hard-coded test and the general test give the same result |
| `Curves.MembershipDependsOnlyOnResidues` | blockchain.py:8 | replacing x, y, a or b by a value congruent mod p leaves the outcome of the test unchanged |
| `Curves.ReducedPointTestsAlike` | blockchain.py:8 | the equation holds mod p, so coordinates need not be reduced: for p > 0 a point tests the same as its coordinates reduced into [0, p) |
| `Curves.GeneratorIsOnCurve` | blockchain.py:36-50 | the published generator G passes the script's test and the general test, and satisfies the curve equation of secp256k1 |
| `Curves.GeneratorParametersInRange` | blockchain.py:29-46 | the constants are consistent: 0 ≤ Gx, Gy < p, 1 < n < p, and G is attached to the secp256k1 curve |
| `Curves.Secp256k1ParametersAsPublished` | blockchain.py:29-46 | the constants agree with the SEC 2 forms: p = 2^256 − 2^32 − 977, a = 0, b = 7, 2^248 ≤ n < p < 2^256, and Gy is even, matching the 02 prefix of G's compressed encoding |
| `Curves.OriginIsNotOnCurve` | blockchain.py:14-19 | a Point need not lie on its curve: (0, 0) is a secp256k1 Point whose test returns false |
| `Curves.SmallestModulusExample` | blockchain.py:5-12 | with p = 2, a = 0, b = 1, the point (1, 0) passes the test |
| `Curves.ZeroModulusRaises` | blockchain.py:50 | with p = 0, both forms of the test raise ZeroDivisionError whatever the other inputs are |
| `SecretKey.DeriveSecretKey` | blockchain.py:58-59 | succeeds exactly when the positional value k of the bytes satisfies 1 ≤ k < n, and then returns k; otherwise the result is AssertionError, never a clamped value |
| `SecretKey.AsciiBytes` | blockchain.py:58 | a `b'...'` literal keeps the string's length and turns each ASCII character into its code as one byte |
| `SecretKey.PhraseBytes` | blockchain.py:58 | the literal `b'Andrej is cool :P'` is the 17 bytes 0x41 … 0x50 |
| `SecretKey.PhraseValue` | blockchain.py:58 | the phrase decodes to 22265090479312778178772228083027296664144 (hex 0x416e6472656a20697320636f6f6c203a50) |
| `SecretKey.PhraseKeyInRange` | blockchain.py:42-59 | the phrase's value lies in [256^16, 256^17), 256^17 < n, and deriving the key from the phrase succeeds with the value above |
| `SecretKey.ShortNonZeroStringsAreValid` | blockchain.py:59 | any byte string of at most 31 bytes with a non-zero byte passes the assertion, because 256^31 < n |
| `SecretKey.ZeroStringsAreRejected` | blockchain.py:59 | an all-zero or empty byte string gives k = 0 and fails the assertion |
| `SecretKey.LongStringsAreRejected` | blockchain.py:59 | a byte string of 33 or more bytes with a non-zero leading byte is at least 256^32 > n and fails the assertion |

## Left out

- Console output (blockchain.py:50, 56, 60) is not modelled. The printed
  values are the results of the functions above.
- `random.seed(1337)` and `random.randrange(0, p)` (blockchain.py:52-55) are
  not modelled. The coordinates of the "totally random" point depend on
  CPython's Mersenne Twister. The claim that this point is off the curve
  holds only with high probability. Line 56 is modelled by
  `Secp256k1Test` on arbitrary coordinates. Together with
  `SpecialisedTestIsGeneralTest`, `ReducedPointTestsAlike` shows that
  drawing those coordinates from [0, p) loses no generality.
- The primality of p and the claim that n is the order of G
  (blockchain.py:44) are not modelled. The script assumes both and checks
  neither. It has no point addition or scalar multiplication to check them
  against.
- The "random walk" from G named in the comment at blockchain.py:35 is not
  modelled, because the script does not implement it.
- The dataclass-generated `__init__`, `__eq__` and `__repr__` of `Curve`,
  `Point` and `Generator` are replaced by Dafny datatype construction and
  structural equality.
- Python's `**` with exponents 2 and 3 is written as repeated
  multiplication. The two agree on integers.
- SecretKey.DeriveSecretKey: assumes assertions are enabled, which is
  the interpreter's default mode. Under `python -O` or `PYTHONOPTIMIZE`,
  the `assert` at blockchain.py:59 is compiled away. Line 60 would then
  print an out-of-range key instead of raising `AssertionError`.
- Nothing in the model treats the derived key as cryptographically
  meaningful. Line 58 is only a byte-to-integer conversion.
