/** The Internet checksum: 16-bit one's complement sums (RFC 1071, section 1). */
module Checksums {
  import opened Words

  /** The big-endian 16-bit words of `b` added up, an odd last byte padded with zero. */
  function Sum16(b: seq<byte>): nat {
    if |b| == 0 then 0 else if |b| == 1 then b[0] * 256 else b[0] * 256 + b[1] + Sum16(b[2..])
  }

  /** End-around carry until 16 bits are left. */
  function Fold(x: nat): (r: nat)
    ensures r < 0x1_0000
  {
    if x < 0x1_0000 then x else Fold(x / 0x1_0000 + x % 0x1_0000)
  }

  /** The checksum of data whose words add up to `x`. */
  function Checksum(x: nat): u16 {
    0xFFFF - Fold(x)
  }

  /** What a receiver accepts: the sum over the data with its checksum in place is all ones. */
  predicate Verifies(x: nat) {
    Fold(x) == 0xFFFF
  }

  lemma {:induction false} Sum16Append(a: seq<byte>, b: seq<byte>)
    requires |a| % 2 == 0
    ensures Sum16(a + b) == Sum16(a) + Sum16(b)
  {
    if |a| == 0 {
      assert a + b == b;
    } else {
      Sum16Append(a[2..], b);
      assert (a + b)[2..] == a[2..] + b;
    }
  }

  /** Byte by byte: an even position weighs 256, an odd one 1, so an odd last byte is padded with zero. */
  lemma {:induction false} Sum16Snoc(b: seq<byte>, x: byte)
    ensures Sum16([]) == 0
    ensures Sum16(b + [x]) == Sum16(b) + if |b| % 2 == 0 then 256 * x else x
    decreases |b|
  {
    if |b| == 0 {
      assert b + [x] == [x];
    } else if |b| == 1 {
      assert (b + [x])[2..] == [];
    } else {
      Sum16Snoc(b[2..], x);
      assert (b + [x])[2..] == b[2..] + [x];
    }
  }

  /** Folding keeps the value modulo 2^16 - 1, and zero only for zero. */
  lemma {:induction false} FoldResidue(x: nat)
    ensures Fold(x) % 0xFFFF == x % 0xFFFF && (Fold(x) == 0 <==> x == 0)
  {
    if x >= 0x1_0000 {
      var y := x / 0x1_0000 + x % 0x1_0000;
      assert x == y + 0xFFFF * (x / 0x1_0000);
      FoldResidue(y);
    }
  }

  /** What verifies, without folding: the positive multiples of 2^16 - 1. */
  lemma VerifiesIff(x: nat)
    ensures Verifies(x) <==> x > 0 && x % 0xFFFF == 0
  {
    FoldResidue(x);
  }

  /** A positive multiple of 2^16 - 1 verifies. */
  lemma MultipleVerifies(k: nat)
    requires k > 0
    ensures Verifies(0xFFFF * k)
  {
    assert (0xFFFF * k) % 0xFFFF == 0;
    FoldResidue(0xFFFF * k);
  }

  /** Adding the checksum makes any sum verify, and so does all ones in place of a zero checksum. */
  lemma ChecksumVerifies(x: nat)
    ensures Verifies(x + Checksum(x))
    ensures Checksum(x) == 0 ==> Verifies(x + 0xFFFF)
  {
    FoldResidue(x);
    var f := Fold(x);
    var q := (x as int - f) / 0xFFFF;
    assert x == f + 0xFFFF * q;
    if f <= x {
      MultipleVerifies(q + 1);
      if Checksum(x) == 0 {
        MultipleVerifies(q + 2);
      }
    }
  }
}
