/**
 * The toy secret key: an ASCII phrase read as a big-endian unsigned
 * integer, then asserted to be a valid group scalar, 1 <= k < n. An
 * out-of-range value aborts the script with an AssertionError; it is
 * never clamped or reduced.
 */
module SecretKey {
  import opened PyInt
  import opened Curves

  /** A `b'...'` literal: each ASCII character becomes its code as one byte. */
  function AsciiBytes(s: string): (bs: seq<Byte>)
    requires forall i :: 0 <= i < |s| ==> s[i] as int < 128
    ensures |bs| == |s|
    ensures forall i :: 0 <= i < |s| ==> bs[i] == s[i] as int
  {
    seq(|s|, i requires 0 <= i < |s| => s[i] as int)
  }

  /** The 17-byte phrase the key is derived from. */
  const Phrase: seq<Byte> := AsciiBytes("Andrej is cool :P")

  /** A usable scalar (private-key exponent) for a group of order n. */
  predicate IsValidScalar(k: int, n: int)
  {
    1 <= k < n
  }

  /**
   * `secret_key = int.from_bytes(bs, 'big'); assert 1 <= secret_key < n`.
   * Succeeds with the positional value of the bytes exactly when that value
   * is a valid scalar for the generator's order; otherwise AssertionError.
   */
  function DeriveSecretKey(bs: seq<Byte>, gen: Generator): (r: Result<nat>)
    ensures r.Ok? <==> IsValidScalar(PositionalValue(bs), gen.n)
    ensures r.Ok? ==> r.value == PositionalValue(bs) && r.value < Pow256(|bs|)
    ensures r.Raise? ==> r.exc == AssertionError
  {
    var k := FromBytesBig(bs);
    FromBytesBigIsPositional(bs);
    if 1 <= k < gen.n then Ok(k) else Raise(AssertionError)
  }

  /** The phrase, byte by byte: "Andrej is cool :P" in ASCII. */
  lemma PhraseBytes()
    ensures Phrase == [0x41, 0x6e, 0x64, 0x72, 0x65, 0x6a, 0x20, 0x69, 0x73, 0x20, 0x63, 0x6f, 0x6f, 0x6c, 0x20, 0x3a, 0x50]
  {
  }

  /** The phrase decodes to the integer the script prints. */
  lemma PhraseValue()
    ensures FromBytesBig(Phrase) == 22265090479312778178772228083027296664144
  {
    PhraseBytes();
    assert Phrase[..0] == [];
    forall k | 0 <= k < 17
      ensures Phrase[..k + 1] == Phrase[..k] + [Phrase[k]]
    {
    }
    FromBytesBigAppend(Phrase[..0], Phrase[0]);
    assert FromBytesBig(Phrase[..1]) == 0x41;
    FromBytesBigAppend(Phrase[..1], Phrase[1]);
    assert FromBytesBig(Phrase[..2]) == 0x416e;
    FromBytesBigAppend(Phrase[..2], Phrase[2]);
    assert FromBytesBig(Phrase[..3]) == 0x416e64;
    FromBytesBigAppend(Phrase[..3], Phrase[3]);
    assert FromBytesBig(Phrase[..4]) == 0x416e6472;
    FromBytesBigAppend(Phrase[..4], Phrase[4]);
    assert FromBytesBig(Phrase[..5]) == 0x416e647265;
    FromBytesBigAppend(Phrase[..5], Phrase[5]);
    assert FromBytesBig(Phrase[..6]) == 0x416e6472656a;
    FromBytesBigAppend(Phrase[..6], Phrase[6]);
    assert FromBytesBig(Phrase[..7]) == 0x416e6472656a20;
    FromBytesBigAppend(Phrase[..7], Phrase[7]);
    assert FromBytesBig(Phrase[..8]) == 0x416e6472656a2069;
    FromBytesBigAppend(Phrase[..8], Phrase[8]);
    assert FromBytesBig(Phrase[..9]) == 0x416e6472656a206973;
    FromBytesBigAppend(Phrase[..9], Phrase[9]);
    assert FromBytesBig(Phrase[..10]) == 0x416e6472656a20697320;
    FromBytesBigAppend(Phrase[..10], Phrase[10]);
    assert FromBytesBig(Phrase[..11]) == 0x416e6472656a2069732063;
    FromBytesBigAppend(Phrase[..11], Phrase[11]);
    assert FromBytesBig(Phrase[..12]) == 0x416e6472656a20697320636f;
    FromBytesBigAppend(Phrase[..12], Phrase[12]);
    assert FromBytesBig(Phrase[..13]) == 0x416e6472656a20697320636f6f;
    FromBytesBigAppend(Phrase[..13], Phrase[13]);
    assert FromBytesBig(Phrase[..14]) == 0x416e6472656a20697320636f6f6c;
    FromBytesBigAppend(Phrase[..14], Phrase[14]);
    assert FromBytesBig(Phrase[..15]) == 0x416e6472656a20697320636f6f6c20;
    FromBytesBigAppend(Phrase[..15], Phrase[15]);
    assert FromBytesBig(Phrase[..16]) == 0x416e6472656a20697320636f6f6c203a;
    FromBytesBigAppend(Phrase[..16], Phrase[16]);
    assert FromBytesBig(Phrase[..17]) == 0x416e6472656a20697320636f6f6c203a50;
    assert Phrase[..17] == Phrase;
  }

  /**
   * The phrase's leading byte 'A' (0x41) is non-zero, so its value lies in
   * [256^16, 256^17); and 256^17 is far below n, so the assertion holds.
   */
  lemma PhraseKeyInRange()
    ensures Pow256(16) <= FromBytesBig(Phrase) < Pow256(17)
    ensures Pow256(17) < BitcoinGenerator.n
    ensures DeriveSecretKey(Phrase, BitcoinGenerator)
         == Ok(22265090479312778178772228083027296664144)
  {
    assert |Phrase| == 17 && Phrase[0] == 0x41;
    FromBytesBigLeadingByte(Phrase);
    Pow256Values();
    PhraseValue();
    FromBytesBigIsPositional(Phrase);
  }

  /**
   * Every byte string of at most 31 bytes with some non-zero byte yields a
   * valid secp256k1 scalar, because 256^31 < n.
   */
  lemma {:induction false} ShortNonZeroStringsAreValid(bs: seq<Byte>, i: nat)
    requires |bs| <= 31 && i < |bs| && bs[i] != 0
    ensures DeriveSecretKey(bs, BitcoinGenerator).Ok?
  {
    FromBytesBigZero(bs);
    Pow256Monotonic(|bs|, 31);
    Pow256Values();
    FromBytesBigIsPositional(bs);
  }

  /** All-zero bytes (the empty phrase included) give k = 0: the assertion fails. */
  lemma {:induction false} ZeroStringsAreRejected(bs: seq<Byte>)
    requires forall i :: 0 <= i < |bs| ==> bs[i] == 0
    ensures DeriveSecretKey(bs, BitcoinGenerator) == Raise(AssertionError)
  {
    FromBytesBigZero(bs);
    FromBytesBigIsPositional(bs);
  }

  /**
   * A phrase of 33 bytes or more with a non-zero leading byte is at least
   * 256^32 > n: the script aborts rather than reduce the key modulo n.
   */
  lemma {:induction false} LongStringsAreRejected(bs: seq<Byte>)
    requires |bs| >= 33 && bs[0] != 0
    ensures DeriveSecretKey(bs, BitcoinGenerator) == Raise(AssertionError)
  {
    FromBytesBigLeadingByte(bs);
    Pow256Monotonic(32, |bs| - 1);
    Pow256Values();
    FromBytesBigIsPositional(bs);
  }
}
