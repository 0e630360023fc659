/** IPv6 prefixes and masks, bit by bit. */
module Ipv6Mask {
  // ---------------------------------------------------------------- bits

  /** 1 << (8 - i - 1): bit `i` of a byte, the highest one first. */
  function One(i: nat): bv8
    requires i < 8
  {
    match i
    case 0 => 0x80 case 1 => 0x40 case 2 => 0x20 case 3 => 0x10
    case 4 => 0x08 case 5 => 0x04 case 6 => 0x02 case _ => 0x01
  }

  predicate BitOf(b: bv8, i: nat)
    requires i < 8
  {
    b & One(i) != 0
  }

  /** Bit `n` of some bytes. */
  predicate Bit(a: seq<bv8>, n: nat)
    requires n < 8 * |a|
  {
    BitOf(a[n / 8], n % 8)
  }

  /** The byte whose first `k` bits are set. */
  function MaskByte(k: nat): bv8
    requires k <= 8
  {
    match k
    case 0 => 0x00 case 1 => 0x80 case 2 => 0xc0 case 3 => 0xe0 case 4 => 0xf0
    case 5 => 0xf8 case 6 => 0xfc case 7 => 0xfe case _ => 0xff
  }

  lemma MaskByteBits(k: nat, i: nat)
    requires k <= 8 && i < 8
    ensures BitOf(MaskByte(k), i) <==> i < k
  {
  }

  lemma MaskByteNext(k: nat)
    requires k < 8
    ensures MaskByte(k) | One(k) == MaskByte(k + 1)
  {
  }

  /** Bit 0 of a byte is its highest, bit 7 its lowest. */
  lemma BitWorth(b: bv8, i: nat)
    requires i < 8
    ensures BitOf(b, i) <==> (b >> (7 - i)) & 1 == 1
  {
    if i < 4 {
      assert i == 0 || i == 1 || i == 2 || i == 3;
    } else {
      assert i == 4 || i == 5 || i == 6 || i == 7;
    }
  }

  /** A byte is its bits. */
  lemma SameBits(b: bv8, c: bv8)
    requires forall i: nat :: i < 8 ==> (BitOf(b, i) <==> BitOf(c, i))
    ensures b == c
  {
    assert BitOf(b, 0) <==> BitOf(c, 0);
    assert BitOf(b, 1) <==> BitOf(c, 1);
    assert BitOf(b, 2) <==> BitOf(c, 2);
    assert BitOf(b, 3) <==> BitOf(c, 3);
    assert BitOf(b, 4) <==> BitOf(c, 4);
    assert BitOf(b, 5) <==> BitOf(c, 5);
    assert BitOf(b, 6) <==> BitOf(c, 6);
    assert BitOf(b, 7) <==> BitOf(c, 7);
  }

  /** Bit `i` of a byte, masked by the first `k`. */
  lemma MaskedBit(b: bv8, k: nat, i: nat)
    requires k <= 8 && i < 8
    ensures BitOf(b & MaskByte(k), i) <==> i < k && BitOf(b, i)
  {
    MaskByteBits(k, i);
    var o, m := One(i), MaskByte(k);
    AndAnd(b, m, o);
    if i < k {
      OneBit(i, m);
    }
  }

  lemma AndAnd(b: bv8, m: bv8, o: bv8)
    ensures (b & m) & o == b & (m & o)
  {
  }

  /** A bit of a byte is there as a whole or not at all. */
  lemma OneBit(i: nat, m: bv8)
    requires i < 8
    ensures m & One(i) == 0 || m & One(i) == One(i)
  {
  }

  lemma MaskedEqual(b: bv8, c: bv8, k: nat)
    requires k <= 8
    ensures b & MaskByte(k) == c & MaskByte(k) <==> forall i: nat :: i < k ==> (BitOf(b, i) <==> BitOf(c, i))
  {
    if b & MaskByte(k) == c & MaskByte(k) {
      forall i: nat | i < k ensures BitOf(b, i) <==> BitOf(c, i) {
        MaskedBit(b, k, i);
        MaskedBit(c, k, i);
      }
    }
    if forall i: nat :: i < k ==> (BitOf(b, i) <==> BitOf(c, i)) {
      var d, e := b & MaskByte(k), c & MaskByte(k);
      forall i: nat | i < 8 ensures BitOf(d, i) <==> BitOf(e, i) {
        MaskedBit(b, k, i);
        MaskedBit(c, k, i);
      }
      SameBits(d, e);
    }
  }

  // ---------------------------------------------------------------- masks

  /** The first `p` bits are set and no others. */
  ghost predicate IsMask(m: seq<bv8>, p: nat) {
    |m| == 16 && forall n: nat :: n < 128 ==> (Bit(m, n) <==> n < p)
  }

  /** Byte by byte: how many bits of byte `i` are set in the mask of length `p`. */
  function Part(p: nat, i: nat): nat {
    if p <= 8 * i then 0 else if p >= 8 * i + 8 then 8 else p - 8 * i
  }

  lemma BitAt(n: nat)
    ensures n == 8 * (n / 8) + n % 8 && n % 8 < 8
  {
  }

  lemma BitIn(i: nat, j: nat)
    requires j < 8
    ensures (8 * i + j) / 8 == i && (8 * i + j) % 8 == j
  {
  }

  /** A mask is known by its bytes. */
  lemma MaskBytes(m: seq<bv8>, p: nat)
    requires |m| == 16 && p <= 128
    ensures IsMask(m, p) <==> forall i: nat :: i < 16 ==> m[i] == MaskByte(Part(p, i))
  {
    hide MaskByte, BitOf;
    if forall i: nat :: i < 16 ==> m[i] == MaskByte(Part(p, i)) {
      forall n: nat | n < 128 ensures Bit(m, n) <==> n < p {
        BitAt(n);
        MaskByteBits(Part(p, n / 8), n % 8);
      }
    }
    if IsMask(m, p) {
      forall i: nat | i < 16 ensures m[i] == MaskByte(Part(p, i)) {
        forall j: nat | j < 8 ensures BitOf(m[i], j) <==> BitOf(MaskByte(Part(p, i)), j) {
          BitIn(i, j);
          assert Bit(m, 8 * i + j) <==> 8 * i + j < p;
          MaskByteBits(Part(p, i), j);
        }
        SameBits(m[i], MaskByte(Part(p, i)));
      }
    }
  }

  /** The bytes of a mask. */
  lemma MaskExact(m: seq<bv8>, p: nat)
    requires |m| == 16 && p <= 128
    ensures IsMask(m, p) <==> forall i: nat :: i < 16 ==>
      m[i] == if p >= 8 * i + 8 then 0xff else if p <= 8 * i then 0 else [0, 0x80, 0xc0, 0xe0, 0xf0, 0xf8, 0xfc, 0xfe][p - 8 * i]
  {
    MaskBytes(m, p);
    hide IsMask;
  }

  lemma BitOfMask(m: seq<bv8>, p: nat, n: nat)
    requires IsMask(m, p) && n < 128
    ensures Bit(m, n) <==> n < p
  {
  }

  /** Masks and their lengths determine each other. */
  lemma MaskUnique(m: seq<bv8>, p: nat, m': seq<bv8>, q: nat)
    requires IsMask(m, p) && IsMask(m', q) && p <= 128 && q <= 128
    ensures m == m' <==> p == q
  {
    var n := if p < q then p else q;
    if m == m' && n < 128 {
      BitOfMask(m, p, n);
      BitOfMask(m, q, n);
    }
    if p == q {
      MaskBytes(m, p);
      MaskBytes(m', p);
      hide MaskByte, IsMask;
      forall i: nat | i < 16 ensures m[i] == m'[i] {
      }
    }
  }

  /** ipaddr6_ipv6_mask_from_prefix */
  method MaskFromPrefix(prefix: nat, mask: array<bv8>)
    requires prefix <= 128 && mask.Length == 16
    modifies mask
    ensures IsMask(mask[..], prefix)
  {
    hide MaskByte, One;
    var quot, rem := prefix / 8, prefix % 8;
    MaskEnds();
    if quot > 0 {
      forall i | 0 <= i < quot {
        mask[i] := 0xff;
      }
    }
    if 16 - quot > 0 {
      forall i | quot <= i < 16 {
        mask[i] := 0;
      }
    }
    for i := 0 to rem
      invariant forall k :: 0 <= k < 16 ==> mask[k] == if k < quot then 0xff else if k == quot then MaskByte(i) else 0
    {
      MaskByteNext(i);
      mask[quot] := mask[quot] | One(i);
    }
    forall i: nat | i < 16 ensures mask[..][i] == MaskByte(Part(prefix, i)) {
    }
    MaskBytes(mask[..], prefix);
  }

  lemma MaskEnds()
    ensures MaskByte(0) == 0 && MaskByte(8) == 0xff
  {
  }

  /** ipaddr6_ipv6_prefix_from_mask: the length of the mask, or a failure exactly if it is none. */
  method PrefixFromMask(mask: seq<bv8>) returns (ok: bool, prefix: nat)
    requires |mask| == 16
    ensures ok ==> prefix <= 128 && IsMask(mask, prefix)
    ensures !ok ==> forall p: nat :: p <= 128 ==> !IsMask(mask, p)
  {
    hide MaskByte, One, IsMask, BitOf, Bit;
    MaskEnds();
    prefix := 0;
    var i := 0;
    while i < 16 && mask[i] == 0xff
      invariant 0 <= i <= 16 && prefix == 8 * i && forall k :: 0 <= k < i ==> mask[k] == 0xff
    {
      prefix := prefix + 8;
      i := i + 1;
    }
    ghost var full := i;
    if i < 16 {
      var j := FirstBits(mask[i]);
      if j > 8 {
        NoMask(mask, i, i);
        return false, 0;
      }
      prefix := prefix + j;
      ghost var q := i;
      i := i + 1;
      while i < 16
        invariant q < i <= 16 && forall k :: q < k < i ==> mask[k] == 0
      {
        if mask[i] != 0 {
          NoMask(mask, q, i);
          return false, 0;
        }
        i := i + 1;
      }
    }
    forall k: nat | k < 16 ensures mask[k] == MaskByte(Part(prefix, k)) {
    }
    MaskBytes(mask, prefix);
    ok := true;
  }

  /** The loop that compares a byte with the bytes of leading ones; 9 if it is none of them. */
  method FirstBits(b: bv8) returns (j: nat)
    ensures j <= 9
    ensures j <= 8 ==> b == MaskByte(j)
    ensures j == 9 ==> forall k: nat :: k <= 8 ==> b != MaskByte(k)
  {
    hide MaskByte, One;
    MaskEnds();
    var t: bv8 := 0;
    j := 0;
    while j <= 8
      invariant j <= 9 && (j <= 8 ==> t == MaskByte(j)) && forall k: nat :: k < j ==> b != MaskByte(k)
    {
      if b == t {
        return;
      }
      if j < 8 {
        MaskByteNext(j);
        t := t | One(j);
      }
      j := j + 1;
    }
  }

  /** Behind a byte that is not all ones, byte `i` is not what a mask has there. */
  lemma NoMask(mask: seq<bv8>, q: nat, i: nat)
    requires |mask| == 16 && q <= i < 16 && mask[q] != 0xff
    requires if i == q then (forall k: nat :: k <= 8 ==> mask[q] != MaskByte(k)) else mask[i] != 0
    ensures forall p: nat :: p <= 128 ==> !IsMask(mask, p)
  {
    hide MaskByte, IsMask;
    MaskEnds();
    forall p: nat | p <= 128 ensures !IsMask(mask, p) {
      MaskBytes(mask, p);
    }
  }

  /** The byte whose first `rem` bits are ones. */
  method FirstOnes(rem: nat) returns (t: bv8)
    requires rem < 8
    ensures t == MaskByte(rem)
  {
    hide MaskByte, One;
    MaskEnds();
    t := 0;
    for i := 0 to rem
      invariant t == MaskByte(i)
    {
      MaskByteNext(i);
      t := t | One(i);
    }
  }

  /** ipaddr6_ipv6_addrs_in_network: the first bits of the two addresses are the same. */
  method AddrsInNetwork(addr1: seq<bv8>, addr2: seq<bv8>, netprefix: nat) returns (same: bool)
    requires |addr1| == |addr2| == 16 && netprefix <= 128
    ensures same <==> forall n: nat :: n < netprefix ==> (Bit(addr1, n) <==> Bit(addr2, n))
  {
    hide MaskByte, One, BitOf, Bit;
    var quot, rem := netprefix / 8, netprefix % 8;
    if addr1[..quot] != addr2[..quot] {
      BytesDiffer(addr1, addr2, quot, netprefix);
      return false;
    }
    if rem == 0 {
      SamePrefix(addr1, addr2, quot, 0);
      return true;
    }
    var t := FirstOnes(rem);
    MaskedEqual(addr1[quot], addr2[quot], rem);
    SamePrefix(addr1, addr2, quot, rem);
    same := addr1[quot] & t == addr2[quot] & t;
  }

  lemma SamePrefix(a: seq<bv8>, b: seq<bv8>, quot: nat, rem: nat)
    requires |a| == |b| == 16 && rem < 8 && 8 * quot + rem <= 128 && a[..quot] == b[..quot]
    ensures (forall n: nat :: n < 8 * quot + rem ==> (Bit(a, n) <==> Bit(b, n)))
      <==> (rem > 0 ==> forall i: nat :: i < rem ==> (BitOf(a[quot], i) <==> BitOf(b[quot], i)))
  {
    hide BitOf;
    if rem > 0 ==> forall i: nat :: i < rem ==> (BitOf(a[quot], i) <==> BitOf(b[quot], i)) {
      forall n: nat | n < 8 * quot + rem ensures Bit(a, n) <==> Bit(b, n) {
        BitAt(n);
        if n / 8 < quot {
          assert a[n / 8] == a[..quot][n / 8] == b[..quot][n / 8];
        }
      }
    }
    if forall n: nat :: n < 8 * quot + rem ==> (Bit(a, n) <==> Bit(b, n)) {
      forall i: nat | i < rem ensures BitOf(a[quot], i) <==> BitOf(b[quot], i) {
        BitIn(quot, i);
        assert Bit(a, 8 * quot + i) <==> Bit(b, 8 * quot + i);
      }
    }
  }

  lemma BytesDiffer(a: seq<bv8>, b: seq<bv8>, quot: nat, p: nat)
    requires |a| == |b| == 16 && 8 * quot <= p <= 128 && a[..quot] != b[..quot]
    ensures !forall n: nat :: n < p ==> (Bit(a, n) <==> Bit(b, n))
  {
    hide BitOf;
    var i :| 0 <= i < quot && a[i] != b[i];
    if forall j: nat :: j < 8 ==> (BitOf(a[i], j) <==> BitOf(b[i], j)) {
      SameBits(a[i], b[i]);
    }
    var j: nat :| j < 8 && !(BitOf(a[i], j) <==> BitOf(b[i], j));
    BitIn(i, j);
    assert !(Bit(a, 8 * i + j) <==> Bit(b, 8 * i + j));
  }
}
