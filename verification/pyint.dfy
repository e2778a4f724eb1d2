/**
 * The two pieces of Python integer semantics the script relies on:
 * the `%` operator (floor modulo, raising on a zero divisor) and
 * `int.from_bytes(bs, 'big')`, the big-endian unsigned decoding of a
 * byte string. Python integers are unbounded, as Dafny's `int` is.
 */
module PyInt {

  /** The exceptions the script can raise. */
  datatype Exception = ZeroDivisionError | AssertionError

  /** A value, or the exception that aborted its computation. */
  datatype Result<T> = Ok(value: T) | Raise(exc: Exception)

  /** A Python `bytes` element. */
  type Byte = b: int | 0 <= b < 256

  /** m divides d (for m != 0). */
  predicate Divides(m: int, d: int)
    requires m != 0
  {
    d % m == 0
  }

  /**
   * Python's `a % m`: raises ZeroDivisionError when m == 0; otherwise the
   * remainder of floor division, which takes the sign of the divisor.
   * Dafny's own `%` is Euclidean (never negative), so the two differ
   * exactly when m < 0 and m does not divide a.
   */
  function Mod(a: int, m: int): (r: Result<int>)
    ensures r.Raise? <==> m == 0
    ensures r.Raise? ==> r.exc == ZeroDivisionError
    ensures r.Ok? && m > 0 ==> 0 <= r.value < m
    ensures r.Ok? && m < 0 ==> m < r.value <= 0
    ensures r.Ok? ==> Divides(m, a - r.value)
  {
    if m == 0 then Raise(ZeroDivisionError)
    else
      RemainderFacts(a, m);
      if m > 0 || a % m == 0 then Ok(a % m) else Ok(a % m + m)
  }

  /** What Python's `%` is built from: a Euclidean remainder and its shift by m. */
  lemma {:induction false} RemainderFacts(a: int, m: int)
    requires m != 0
    ensures 0 <= a % m < Abs(m)
    ensures Divides(m, a - a % m) && Divides(m, a - (a % m + m))
  {
    var q := a / m;
    assert a - a % m == m * q + 0;
    ModUnique(m, q, 0);
    assert a - (a % m + m) == m * (q - 1) + 0;
    ModUnique(m, q - 1, 0);
  }

  /** For a positive modulus Python's `%` and the mathematical residue agree. */
  lemma ModPositive(a: int, m: int)
    requires m > 0
    ensures Mod(a, m) == Ok(a % m)
  {
  }

  /** `Mod(a, m) == 0` is exactly divisibility, whatever the sign of m. */
  lemma ModZeroIffDivides(a: int, m: int)
    requires m != 0
    ensures Mod(a, m) == Ok(0) <==> Divides(m, a)
  {
  }

  // ---------------------------------------------------------------------
  // Modular arithmetic facts used to reason about the curve test.

  /** |m|, the number of residues modulo m. */
  function Abs(m: int): (r: int)
    ensures r >= 0 && (r == m || r == -m)
  {
    if m < 0 then -m else m
  }

  /** Euclidean division is unique: a remainder in range is THE remainder. */
  lemma {:induction false} ModUnique(m: int, q: int, r: int)
    requires m != 0 && 0 <= r < Abs(m)
    ensures (m * q + r) % m == r
  {
    var a := m * q + r;
    var t := q - a / m;
    assert m * t == a % m - r;
    if t != 0 {
      MulAtLeastDivisor(m, t);
    }
  }

  /** A non-zero multiple of m is at least |m| in absolute value. */
  lemma MulAtLeastDivisor(m: int, t: int)
    requires m != 0 && t != 0
    ensures m * t >= Abs(m) || m * t <= -Abs(m)
  {
  }

  /** Two numbers have the same residue iff their difference is a multiple. */
  lemma CongruentIffDivides(u: int, v: int, m: int)
    requires m != 0
    ensures u % m == v % m <==> Divides(m, u - v)
  {
    if u % m == v % m {
      SameResidueDivides(u, v, m);
    }
    if Divides(m, u - v) {
      DividesSameResidue(u, v, m);
    }
  }

  lemma {:induction false} SameResidueDivides(u: int, v: int, m: int)
    requires m != 0 && u % m == v % m
    ensures Divides(m, u - v)
  {
    var qu, qv := u / m, v / m;
    assert u - v == m * qu - m * qv;
    assert u - v == m * (qu - qv) + 0;
    ModUnique(m, qu - qv, 0);
  }

  lemma {:induction false} DividesSameResidue(u: int, v: int, m: int)
    requires m != 0 && Divides(m, u - v)
    ensures u % m == v % m
  {
    var k, qv := (u - v) / m, v / m;
    assert u == m * k + (m * qv + v % m);
    assert u == m * (k + qv) + v % m;
    ModUnique(m, k + qv, v % m);
  }

  /** Multiples are closed under multiplication by anything. */
  lemma {:induction false} DividesMul(m: int, d: int, c: int)
    requires m != 0 && Divides(m, d)
    ensures Divides(m, d * c)
  {
    assert d == m * (d / m);
    assert d * c == m * (d / m * c) + 0;
    ModUnique(m, d / m * c, 0);
  }

  /** Multiples are closed under addition. */
  lemma {:induction false} DividesAdd(m: int, d: int, e: int)
    requires m != 0 && Divides(m, d) && Divides(m, e)
    ensures Divides(m, d + e)
  {
    assert d == m * (d / m);
    assert e == m * (e / m);
    assert d + e == m * (d / m + e / m) + 0;
    ModUnique(m, d / m + e / m, 0);
  }

  /** Residues are compatible with addition. */
  lemma {:induction false} AddCongruent(u: int, u': int, v: int, v': int, m: int)
    requires m != 0 && u % m == u' % m && v % m == v' % m
    ensures (u + v) % m == (u' + v') % m
  {
    CongruentIffDivides(u, u', m);
    CongruentIffDivides(v, v', m);
    DividesAdd(m, u - u', v - v');
    assert (u + v) - (u' + v') == (u - u') + (v - v');
    CongruentIffDivides(u + v, u' + v', m);
  }

  /** Residues are compatible with subtraction. */
  lemma {:induction false} SubCongruent(u: int, u': int, v: int, v': int, m: int)
    requires m != 0 && u % m == u' % m && v % m == v' % m
    ensures (u - v) % m == (u' - v') % m
  {
    CongruentIffDivides(u, u', m);
    CongruentIffDivides(v, v', m);
    DividesMul(m, v - v', -1);
    DividesAdd(m, u - u', (v - v') * -1);
    assert (u - v) - (u' - v') == (u - u') + (v - v') * -1;
    CongruentIffDivides(u - v, u' - v', m);
  }

  /** Residues are compatible with multiplication. */
  lemma {:induction false} MulCongruent(u: int, u': int, v: int, v': int, m: int)
    requires m != 0 && u % m == u' % m && v % m == v' % m
    ensures (u * v) % m == (u' * v') % m
  {
    CongruentIffDivides(u, u', m);
    CongruentIffDivides(v, v', m);
    DividesMul(m, u - u', v);
    DividesMul(m, v - v', u');
    DividesAdd(m, (u - u') * v, (v - v') * u');
    assert u * v - u' * v' == (u - u') * v + (v - v') * u';
    CongruentIffDivides(u * v, u' * v', m);
  }

  // ---------------------------------------------------------------------
  // int.from_bytes(bs, 'big')

  /** 256 to the power k: the number of distinct k-byte strings. */
  function Pow256(k: nat): (r: nat)
    ensures r >= 1
  {
    if k == 0 then 1 else 256 * Pow256(k - 1)
  }

  /** Powers of 256 grow with the exponent. */
  lemma {:induction false} Pow256Monotonic(i: nat, j: nat)
    requires i <= j
    ensures Pow256(i) <= Pow256(j)
    decreases j
  {
    if i < j {
      Pow256Monotonic(i, j - 1);
    }
  }

  /** Exponents add: 256^(i+j) == 256^i * 256^j. */
  lemma {:induction false} Pow256Add(i: nat, j: nat)
    ensures Pow256(i + j) == Pow256(i) * Pow256(j)
    decreases j
  {
    if j > 0 {
      Pow256Add(i, j - 1);
      assert Pow256(i + j) == 256 * Pow256(i + (j - 1));
    }
  }

  /** The powers of 256 that bound the phrase and the group order. */
  lemma Pow256Values()
    ensures Pow256(4) == 0x1_0000_0000
    ensures Pow256(16) == 0x1_0000_0000_0000_0000_0000_0000_0000_0000
    ensures Pow256(17) == 0x100_0000_0000_0000_0000_0000_0000_0000_0000
    ensures Pow256(31) == 0x100_0000_0000_0000_0000_0000_0000_0000_0000_0000_0000_0000_0000_0000_0000_0000
    ensures Pow256(32) == 0x1_0000_0000_0000_0000_0000_0000_0000_0000_0000_0000_0000_0000_0000_0000_0000_0000
  {
    assert Pow256(4) == 0x1_0000_0000;
    Pow256Add(4, 4);
    Pow256Add(8, 8);
    Pow256Add(16, 1);
    Pow256Add(16, 16);
    Pow256Add(31, 1);
  }

  /**
   * `int.from_bytes(bs, 'big')`: the most significant byte comes first.
   * Each further byte shifts the value so far one byte to the left.
   */
  function FromBytesBig(bs: seq<Byte>): (k: nat)
    ensures k < Pow256(|bs|)
  {
    if bs == [] then 0
    else FromBytesBig(bs[..|bs| - 1]) * 256 + bs[|bs| - 1]
  }

  /**
   * The positional reading of a big-endian byte string,
   * the sum of bs[i] * 256^(|bs| - 1 - i), taken from the front.
   */
  function PositionalValue(bs: seq<Byte>): int
  {
    if bs == [] then 0
    else bs[0] * Pow256(|bs| - 1) + PositionalValue(bs[1..])
  }

  /** Appending a byte shifts the positional value one byte to the left. */
  lemma {:induction false} PositionalAppend(s: seq<Byte>, c: Byte)
    ensures PositionalValue(s + [c]) == PositionalValue(s) * 256 + c
  {
    if s == [] {
      assert [c][1..] == [];
    } else {
      assert (s + [c])[1..] == s[1..] + [c];
      PositionalAppend(s[1..], c);
      calc {
        PositionalValue(s + [c]);
        s[0] * Pow256(|s|) + PositionalValue(s[1..] + [c]);
        s[0] * (256 * Pow256(|s| - 1)) + PositionalValue(s[1..]) * 256 + c;
        (s[0] * Pow256(|s| - 1) + PositionalValue(s[1..])) * 256 + c;
      }
    }
  }

  /** The decoder computes the positional value: from_bytes is Σ bs[i]·256^(|bs|-1-i). */
  lemma {:induction false} FromBytesBigIsPositional(bs: seq<Byte>)
    ensures FromBytesBig(bs) == PositionalValue(bs)
  {
    if bs != [] {
      var init, last := bs[..|bs| - 1], bs[|bs| - 1];
      assert bs == init + [last];
      FromBytesBigIsPositional(init);
      PositionalAppend(init, last);
    }
  }

  /** Decoding one more trailing byte: decode(s + [c]) == decode(s) * 256 + c. */
  lemma FromBytesBigAppend(s: seq<Byte>, c: Byte)
    ensures FromBytesBig(s + [c]) == FromBytesBig(s) * 256 + c
  {
    assert (s + [c])[..|s|] == s;
  }

  /** A string whose leading byte is non-zero decodes to at least 256^(|bs|-1). */
  lemma {:induction false} FromBytesBigLeadingByte(bs: seq<Byte>)
    requires |bs| > 0 && bs[0] != 0
    ensures Pow256(|bs| - 1) <= FromBytesBig(bs)
  {
    if |bs| > 1 {
      var init := bs[..|bs| - 1];
      assert init[0] == bs[0];
      FromBytesBigLeadingByte(init);
    }
  }

  /** The value is zero exactly when every byte is zero. */
  lemma {:induction false} FromBytesBigZero(bs: seq<Byte>)
    ensures FromBytesBig(bs) == 0 <==> forall i :: 0 <= i < |bs| ==> bs[i] == 0
  {
    if bs != [] {
      var init := bs[..|bs| - 1];
      FromBytesBigZero(init);
      assert forall i :: 0 <= i < |init| ==> init[i] == bs[i];
    }
  }

  /** Strings of the same length decode to the same value only if they are equal. */
  lemma {:induction false} FromBytesBigInjective(s: seq<Byte>, t: seq<Byte>)
    requires |s| == |t| && FromBytesBig(s) == FromBytesBig(t)
    ensures s == t
  {
    if s != [] {
      var n := |s| - 1;
      var ks, kt := FromBytesBig(s[..n]), FromBytesBig(t[..n]);
      assert ks * 256 + s[n] == kt * 256 + t[n];
      ModUnique(256, ks, s[n]);
      ModUnique(256, kt, t[n]);
      assert s[n] == t[n];
      assert ks == kt;
      FromBytesBigInjective(s[..n], t[..n]);
      assert s == s[..n] + [s[n]];
      assert t == t[..n] + [t[n]];
    }
  }
}
