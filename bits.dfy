/**
 * Bits and bytes as the recording format stores them: bits are packed into
 * bytes from the most significant bit down, a new zero byte being started
 * whenever the previous one is full, and numbers are stored as unsigned
 * little-endian words.
 */
module Bits {

  // ------------------------------------------------------------- bytes

  /** The mask selecting bit `k` of a byte, counting from the most significant bit. */
  function Mask(k: nat): bv8
    requires k < 8
  {
    0x80 >> k
  }

  /** Whether bit `k` (from the most significant end) of `b` is set. */
  predicate BitOf(b: bv8, k: nat)
    requires k < 8
  {
    b & Mask(k) != 0
  }

  /** Setting bit `j` leaves every other bit as it was. */
  lemma MaskOr(b: bv8, j: nat, k: nat)
    requires j < 8 && k < 8
    ensures BitOf(b | Mask(j), k) == (BitOf(b, k) || j == k)
  {
  }

  /** A byte is determined by its eight bits. */
  lemma ByteExt(a: bv8, b: bv8)
    requires forall k :: 0 <= k < 8 ==> BitOf(a, k) == BitOf(b, k)
    ensures a == b
  {
    assert BitOf(a, 0) == BitOf(b, 0) && BitOf(a, 1) == BitOf(b, 1);
    assert BitOf(a, 2) == BitOf(b, 2) && BitOf(a, 3) == BitOf(b, 3);
    assert BitOf(a, 4) == BitOf(b, 4) && BitOf(a, 5) == BitOf(b, 5);
    assert BitOf(a, 6) == BitOf(b, 6) && BitOf(a, 7) == BitOf(b, 7);
  }

  /** The byte holding up to eight bits, most significant first, the rest zero. */
  function ByteOf(bs: seq<bool>): bv8
    requires |bs| <= 8
  {
    if |bs| == 0 then 0
    else ByteOf(bs[..|bs| - 1]) | (if bs[|bs| - 1] then Mask(|bs| - 1) else 0)
  }

  /** One more bit in a byte: set when it is, the byte unchanged otherwise. */
  lemma ByteOfSnoc(bs: seq<bool>, v: bool)
    requires |bs| < 8
    ensures ByteOf(bs + [v]) == if v then ByteOf(bs) | Mask(|bs|) else ByteOf(bs)
  {
    assert (bs + [v])[..|bs|] == bs;
    assert ByteOf(bs) | 0 == ByteOf(bs);
  }

  /** Bit `k` of `ByteOf(bs)` is bit `k` of `bs`, or clear past its end. */
  lemma {:induction false} ByteOfBit(bs: seq<bool>, k: nat)
    requires |bs| <= 8 && k < 8
    ensures BitOf(ByteOf(bs), k) == (k < |bs| && bs[k])
  {
    if |bs| > 0 {
      var n := |bs| - 1;
      ByteOfBit(bs[..n], k);
      if bs[n] {
        MaskOr(ByteOf(bs[..n]), n, k);
      } else {
        assert ByteOf(bs) == ByteOf(bs[..n]) | 0;
      }
    }
  }

  /** The bits of `ByteOf(bs)` are those of `bs`, followed by zeros. */
  lemma ByteOfBits(bs: seq<bool>)
    requires |bs| <= 8
    ensures forall k :: 0 <= k < 8 ==> BitOf(ByteOf(bs), k) == (k < |bs| && bs[k])
  {
    forall k | 0 <= k < 8
      ensures BitOf(ByteOf(bs), k) == (k < |bs| && bs[k])
    {
      ByteOfBit(bs, k);
    }
  }

  /** The eight bits of a byte, most significant first. */
  function BitsOfByte(b: bv8): (bs: seq<bool>)
    ensures |bs| == 8
  {
    seq(8, k requires 0 <= k < 8 => BitOf(b, k))
  }

  /** Eight bits packed into a byte and spread out again, and a byte spread and packed again, are unchanged. */
  lemma ByteRoundTrip(b: bv8, bs: seq<bool>)
    requires |bs| == 8
    ensures ByteOf(BitsOfByte(b)) == b
    ensures BitsOfByte(ByteOf(bs)) == bs
  {
    ByteOfBits(BitsOfByte(b));
    ByteExt(ByteOf(BitsOfByte(b)), b);
    ByteOfBits(bs);
  }

  // ------------------------------------------------------- bit strings

  /** The bits of a byte string, byte after byte. */
  function BytesBits(bytes: seq<bv8>): (bits: seq<bool>)
    ensures |bits| == 8 * |bytes|
  {
    if |bytes| == 0 then [] else BitsOfByte(bytes[0]) + BytesBits(bytes[1..])
  }

  /** A bit string packed into bytes, eight bits per byte, the last byte zero-padded. */
  function Pack(bits: seq<bool>): (bytes: seq<bv8>)
    ensures |bytes| == (|bits| + 7) / 8
    decreases |bits|
  {
    if |bits| == 0 then []
    else if |bits| <= 8 then [ByteOf(bits)]
    else [ByteOf(bits[..8])] + Pack(bits[8..])
  }

  /** Bit `k` of a packed string is the `k`-th bit packed, and the padding bits are clear. */
  lemma {:induction false} PackBit(bits: seq<bool>, k: nat)
    requires k < 8 * |Pack(bits)|
    ensures BitOf(Pack(bits)[k / 8], k % 8) == (k < |bits| && bits[k])
    decreases |bits|
  {
    if |bits| <= 8 {
      assert k / 8 == 0 && k % 8 == k;
      ByteOfBits(bits);
    } else if k < 8 {
      assert k / 8 == 0 && k % 8 == k;
      ByteOfBits(bits[..8]);
    } else {
      var rest := bits[8..];
      assert (k - 8) / 8 == k / 8 - 1 && (k - 8) % 8 == k % 8;
      assert Pack(bits)[k / 8] == Pack(rest)[(k - 8) / 8];
      PackBit(rest, k - 8);
      assert k - 8 < |rest| ==> rest[k - 8] == bits[k];
    }
  }

  /** Packing whole bytes' worth of bits and then more packs each part alone. */
  lemma {:induction false} PackAppend(a: seq<bool>, b: seq<bool>)
    requires |a| % 8 == 0
    ensures Pack(a + b) == Pack(a) + Pack(b)
    decreases |a|
  {
    if |a| == 8 {
      assert Pack(a) == [ByteOf(a)];
      if |b| > 0 {
        assert (a + b)[..8] == a && (a + b)[8..] == b;
      } else {
        assert a + b == a;
      }
    } else if |a| > 8 {
      assert (a + b)[..8] == a[..8];
      assert (a + b)[8..] == a[8..] + b;
      PackAppend(a[8..], b);
    } else {
      assert a + b == b;
    }
  }

  /** Whole bytes spread into bits and packed again are unchanged. */
  lemma {:induction false} PackBytes(bytes: seq<bv8>)
    ensures Pack(BytesBits(bytes)) == bytes
  {
    if |bytes| > 0 {
      PackAppend(BitsOfByte(bytes[0]), BytesBits(bytes[1..]));
      PackBytes(bytes[1..]);
      ByteRoundTrip(bytes[0], BitsOfByte(bytes[0]));
      assert Pack(BitsOfByte(bytes[0])) == [bytes[0]];
    }
  }

  /** Packing one more bit after whole bytes starts a fresh byte holding just that bit. */
  lemma {:induction false} PackSnocAligned(bits: seq<bool>, v: bool)
    requires |bits| % 8 == 0
    ensures Pack(bits + [v]) == Pack(bits) + [if v then Mask(0) else 0]
    decreases |bits|
  {
    var s := bits + [v];
    if |bits| == 0 {
      ByteOfSnoc([], v);
      assert s == [] + [v];
    } else if |bits| == 8 {
      assert s[..8] == bits && s[8..] == [v];
      ByteOfSnoc([], v);
      assert [v] == [] + [v];
    } else {
      assert s[..8] == bits[..8];
      assert s[8..] == bits[8..] + [v];
      PackSnocAligned(bits[8..], v);
    }
  }

  /** Bytes `p` with bit `k` of byte `i` set when `v` holds. */
  function SetBit(p: seq<bv8>, i: nat, k: nat, v: bool): (q: seq<bv8>)
    requires i < |p| && k < 8
    ensures |q| == |p|
  {
    if v then p[i := p[i] | Mask(k)] else p
  }

  /** Setting a bit past the first byte leaves the first byte alone. */
  lemma SetBitCons(x: bv8, p: seq<bv8>, i: nat, k: nat, v: bool)
    requires 0 < i <= |p| && k < 8
    ensures SetBit([x] + p, i, k, v) == [x] + SetBit(p, i - 1, k, v)
  {
    if v {
      assert ([x] + p)[i := ([x] + p)[i] | Mask(k)] == [x] + p[i - 1 := p[i - 1] | Mask(k)];
    }
  }

  /** Packing one more bit into a string shorter than a byte or-s the bit, when set, into its only byte. */
  lemma PackSnocShort(bits: seq<bool>, v: bool)
    requires 0 < |bits| < 8
    ensures |Pack(bits)| == 1
    ensures Pack(bits + [v]) == SetBit(Pack(bits), 0, |bits|, v)
  {
    ByteOfSnoc(bits, v);
    assert Pack(bits) == [ByteOf(bits)] && Pack(bits + [v]) == [ByteOf(bits + [v])];
  }

  /** Packing one more bit inside a byte or-s the bit, when set, into the last byte. */
  lemma {:induction false} PackSnocInside(bits: seq<bool>, v: bool)
    requires |bits| % 8 != 0
    ensures |bits| / 8 < |Pack(bits)|
    ensures Pack(bits + [v]) == SetBit(Pack(bits), |bits| / 8, |bits| % 8, v)
    decreases |bits|
  {
    var s := bits + [v];
    if |bits| < 8 {
      PackSnocShort(bits, v);
    } else {
      var rest := bits[8..];
      assert s[..8] == bits[..8];
      assert s[8..] == rest + [v];
      PackSnocInside(rest, v);
      var x := ByteOf(bits[..8]);
      assert |bits| / 8 - 1 == |rest| / 8 && |rest| % 8 == |bits| % 8;
      assert Pack(bits) == [x] + Pack(rest) && Pack(s) == [x] + Pack(rest + [v]);
      SetBitCons(x, Pack(rest), |bits| / 8, |bits| % 8, v);
    }
  }

  // ----------------------------------------------------------- numbers

  function Pow2(n: nat): (p: nat)
    ensures p >= 1
  {
    if n == 0 then 1 else 2 * Pow2(n - 1)
  }

  /** The unsigned value of a bit string, most significant bit first. */
  function BitsVal(bs: seq<bool>): (v: nat)
    ensures v < Pow2(|bs|)
  {
    if |bs| == 0 then 0 else 2 * BitsVal(bs[..|bs| - 1]) + (if bs[|bs| - 1] then 1 else 0)
  }

  /** The `n` low bits of `v`, most significant first. */
  function NatBits(v: nat, n: nat): (bs: seq<bool>)
    ensures |bs| == n
  {
    if n == 0 then [] else NatBits(v / 2, n - 1) + [v % 2 == 1]
  }

  /** A number below 2^n spelt in `n` bits has the value it started with. */
  lemma {:induction false} NatBitsVal(v: nat, n: nat)
    requires v < Pow2(n)
    ensures BitsVal(NatBits(v, n)) == v
  {
    if n > 0 {
      NatBitsVal(v / 2, n - 1);
      assert NatBits(v, n)[..n - 1] == NatBits(v / 2, n - 1);
    }
  }

  /** A bit string's value spelt in as many bits is the string itself. */
  lemma {:induction false} BitsValNat(bs: seq<bool>)
    ensures NatBits(BitsVal(bs), |bs|) == bs
  {
    if |bs| > 0 {
      var n := |bs| - 1;
      BitsValNat(bs[..n]);
      assert bs == bs[..n] + [bs[n]];
    }
  }

  /** Extending a bit string by one bit doubles its value and adds the bit. */
  lemma BitsValStep(bs: seq<bool>, k: nat)
    requires k < |bs|
    ensures BitsVal(bs[..k + 1]) == 2 * BitsVal(bs[..k]) + (if bs[k] then 1 else 0)
  {
    assert bs[..k + 1][..k] == bs[..k];
  }

  /** The unsigned value of a byte. */
  function Val(b: bv8): (v: nat)
    ensures v < 0x100
  {
    assert Pow2(8) == 0x100;
    BitsVal(BitsOfByte(b))
  }

  /** The byte whose unsigned value is `v`. */
  function ByteVal(v: nat): bv8
    requires v < 0x100
  {
    ByteOf(NatBits(v, 8))
  }

  /** A byte and its unsigned value determine each other. */
  lemma ValRoundTrip(v: nat, b: bv8)
    requires v < 0x100
    ensures Val(ByteVal(v)) == v
    ensures ByteVal(Val(b)) == b
  {
    assert Pow2(8) == 0x100;
    ByteRoundTrip(b, NatBits(v, 8));
    NatBitsVal(v, 8);
    BitsValNat(BitsOfByte(b));
  }

  /** The value of eight bits is the sum of the weights of the set ones. */
  lemma BitsVal8(bs: seq<bool>)
    requires |bs| == 8
    ensures BitsVal(bs) == (if bs[0] then 0x80 else 0) + (if bs[1] then 0x40 else 0)
                           + (if bs[2] then 0x20 else 0) + (if bs[3] then 0x10 else 0)
                           + (if bs[4] then 0x08 else 0) + (if bs[5] then 0x04 else 0)
                           + (if bs[6] then 0x02 else 0) + (if bs[7] then 0x01 else 0)
  {
    assert bs[..0] == [];
    BitsValStep(bs, 0);
    BitsValStep(bs, 1);
    BitsValStep(bs, 2);
    BitsValStep(bs, 3);
    BitsValStep(bs, 4);
    BitsValStep(bs, 5);
    BitsValStep(bs, 6);
    BitsValStep(bs, 7);
    assert bs[..8] == bs;
  }

  /** The value of a byte is the sum of the weights of its set bits. */
  lemma ValWeights(b: bv8)
    ensures Val(b) == (if BitOf(b, 0) then 0x80 else 0) + (if BitOf(b, 1) then 0x40 else 0)
                      + (if BitOf(b, 2) then 0x20 else 0) + (if BitOf(b, 3) then 0x10 else 0)
                      + (if BitOf(b, 4) then 0x08 else 0) + (if BitOf(b, 5) then 0x04 else 0)
                      + (if BitOf(b, 6) then 0x02 else 0) + (if BitOf(b, 7) then 0x01 else 0)
  {
    BitsVal8(BitsOfByte(b));
  }

  /** Words below this bound fit in 32 bits. */
  const Bound32: nat := 0x1_0000_0000

  /** An unsigned 32-bit value as four bytes, least significant first. */
  function LE32(n: nat): (s: seq<bv8>)
    requires n < Bound32
    ensures |s| == 4
  {
    [ByteVal(n % 0x100), ByteVal(n / 0x100 % 0x100), ByteVal(n / 0x100 / 0x100 % 0x100), ByteVal(n / 0x100 / 0x100 / 0x100)]
  }

  /** Four bytes, least significant first, read as an unsigned 32-bit value. */
  function FromLE32(s: seq<bv8>): (n: nat)
    requires |s| == 4
    ensures n < Bound32
  {
    Val(s[0]) + 0x100 * (Val(s[1]) + 0x100 * (Val(s[2]) + 0x100 * Val(s[3])))
  }

  /** Storing a 32-bit value and reading it back gives the value. */
  lemma LE32RoundTrip(n: nat)
    requires n < Bound32
    ensures FromLE32(LE32(n)) == n
  {
    var q1 := n / 0x100;
    var q2 := q1 / 0x100;
    var q3 := q2 / 0x100;
    ValRoundTrip(n % 0x100, 0);
    ValRoundTrip(q1 % 0x100, 0);
    ValRoundTrip(q2 % 0x100, 0);
    ValRoundTrip(q3, 0);
    assert n == n % 0x100 + 0x100 * q1;
    assert q1 == q1 % 0x100 + 0x100 * q2;
    assert q2 == q2 % 0x100 + 0x100 * q3;
  }

  /** Dividing n = a + 256 * m by 256 splits off the low byte a. */
  lemma SplitByte(a: nat, m: nat, n: nat)
    requires a < 0x100 && n == a + 0x100 * m
    ensures n / 0x100 == m && n % 0x100 == a
  {
  }

  /** Four byte values, least significant first, stored as a 32-bit value give back their bytes. */
  lemma LE32Digits(v0: nat, v1: nat, v2: nat, v3: nat, n: nat)
    requires v0 < 0x100 && v1 < 0x100 && v2 < 0x100 && v3 < 0x100
    requires n == v0 + 0x100 * (v1 + 0x100 * (v2 + 0x100 * v3))
    ensures n < Bound32 && LE32(n) == [ByteVal(v0), ByteVal(v1), ByteVal(v2), ByteVal(v3)]
  {
    var m2 := v2 + 0x100 * v3;
    var m1 := v1 + 0x100 * m2;
    SplitByte(v0, m1, n);
    SplitByte(v1, m2, m1);
    SplitByte(v2, v3, m2);
  }

  /** Reading four bytes as a 32-bit value and storing it again gives the bytes. */
  lemma FromLE32RoundTrip(s: seq<bv8>)
    requires |s| == 4
    ensures LE32(FromLE32(s)) == s
  {
    var v0, v1, v2, v3 := Val(s[0]), Val(s[1]), Val(s[2]), Val(s[3]);
    LE32Digits(v0, v1, v2, v3, FromLE32(s));
    ValRoundTrip(v0, s[0]);
    ValRoundTrip(v1, s[1]);
    ValRoundTrip(v2, s[2]);
    ValRoundTrip(v3, s[3]);
  }
}
