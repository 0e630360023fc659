/** A circular buffer of packets. */
module ChunkBuffer2 {
  // Each packet is stored in one piece behind a header block.

  import opened Bytes
  import opened Sequences

  const INT_MAX: int := 0x7fff_ffff

  /** bdivide_up, in blocks. A block, struct ChunkBuffer2_block, is one 32-bit int: 4 bytes. */
  function Blocks(len: int): (n: int)
    requires 0 <= len
    ensures 4 * n >= len && 4 * (n - 1) < len && 0 <= n
  {
    var r := len % 4;
    if r > 0 then len / 4 + 1 else len / 4
  }

  /** The conversion of a size_t product to int, on 32-bit two's complement ints. */
  function ToInt(x: nat): int {
    var r := x % 0x1_0000_0000;
    if r > INT_MAX then r - 0x1_0000_0000 else r
  }

  // ---------------------------------------------------------------- header blocks

  /** The four bytes of an int, least significant first. */
  function LenBytes(n: nat): seq<byte>
    requires n <= INT_MAX
  {
    [n % 256, n / 256 % 256, n / 0x1_0000 % 256, n / 0x100_0000]
  }

  function LenOf(b: seq<byte>): nat
    requires |b| == 4
  {
    b[0] as int + 256 * (b[1] as int) + 0x1_0000 * (b[2] as int) + 0x100_0000 * (b[3] as int)
  }

  lemma LenRoundTrip(n: nat)
    requires n <= INT_MAX
    ensures LenOf(LenBytes(n)) == n
  {
    var a := n / 256;
    var b := a / 256;
    assert n / 0x1_0000 == b && n / 0x100_0000 == b / 256;
  }

  // ---------------------------------------------------------------- layout

  /** The packets of `ps` are stored one after the other, filling exactly blocks lo..hi. */
  ghost predicate Seg(mem: seq<byte>, lo: int, hi: int, ps: seq<seq<byte>>)
    decreases |ps|
  {
    && 0 <= lo && 4 * hi <= |mem|
    && if ps == [] then lo == hi else
      && var next := lo + 1 + Blocks(|ps[0]|);
        && next <= hi
        && PacketAt(mem, lo, ps[0])
        && Seg(mem, next, hi, ps[1..])
  }

  /** Block `at` is a header, and the packet's bytes follow it. */
  ghost predicate PacketAt(mem: seq<byte>, at: int, p: seq<byte>) {
    && 0 <= at && 4 * (at + 1) <= |mem|
    && LenOf(mem[4 * at..4 * (at + 1)]) == |p|
    && BytesAt(mem, 4 * (at + 1), p)
  }

  /** The bytes from `at` on are `p`. */
  predicate BytesAt(mem: seq<byte>, at: int, p: seq<byte>) {
    0 <= at && at + |p| <= |mem| && mem[at..at + |p|] == p
  }

  lemma {:induction false} SegBounds(mem: seq<byte>, lo: int, hi: int, ps: seq<seq<byte>>)
    requires Seg(mem, lo, hi, ps)
    ensures lo <= hi && lo + |ps| <= hi
    decreases |ps|
  {
    if ps != [] {
      SegBounds(mem, lo + 1 + Blocks(|ps[0]|), hi, ps[1..]);
    }
  }

  /** Bytes outside blocks lo..hi do not matter. */
  lemma {:induction false} SegFrame(mem: seq<byte>, mem': seq<byte>, lo: int, hi: int, ps: seq<seq<byte>>)
    requires Seg(mem, lo, hi, ps) && |mem'| == |mem|
    requires forall i :: 4 * lo <= i < 4 * hi ==> mem'[i] == mem[i]
    ensures Seg(mem', lo, hi, ps)
    decreases |ps|
  {
    if ps != [] {
      var b := Blocks(|ps[0]|);
      SegBounds(mem, lo + 1 + b, hi, ps[1..]);
      assert mem'[4 * lo..4 * (lo + 1)] == mem[4 * lo..4 * (lo + 1)];
      assert mem'[4 * (lo + 1)..4 * (lo + 1) + |ps[0]|] == mem[4 * (lo + 1)..4 * (lo + 1) + |ps[0]|];
      assert PacketAt(mem', lo, ps[0]);
      SegFrame(mem, mem', lo + 1 + b, hi, ps[1..]);
    }
  }

  lemma {:induction false} SegAppend(mem: seq<byte>, lo: int, mid: int, ps: seq<seq<byte>>, p: seq<byte>)
    requires Seg(mem, lo, mid, ps) && PacketAt(mem, mid, p) && 4 * (mid + 1 + Blocks(|p|)) <= |mem|
    ensures Seg(mem, lo, mid + 1 + Blocks(|p|), ps + [p])
    decreases |ps|
  {
    hide PacketAt, Blocks;
    SegBounds(mem, lo, mid, ps);
    if ps == [] {
      assert (ps + [p])[1..] == [] && (ps + [p])[0] == p;
    } else {
      SegAppend(mem, lo + 1 + Blocks(|ps[0]|), mid, ps[1..], p);
      assert (ps + [p])[1..] == ps[1..] + [p];
    }
  }

  /** Every packet of `ps`, the first one stored at `lo`, starts at block `limit` or before. */
  ghost predicate StartsBy(lo: int, ps: seq<seq<byte>>, limit: int)
    decreases |ps|
  {
    ps == [] || (lo <= limit && StartsBy(lo + 1 + Blocks(|ps[0]|), ps[1..], limit))
  }

  lemma {:induction false} StartsByAppend(mem: seq<byte>, lo: int, mid: int, ps: seq<seq<byte>>, p: seq<byte>, limit: int)
    requires Seg(mem, lo, mid, ps) && StartsBy(lo, ps, limit) && mid <= limit
    ensures StartsBy(lo, ps + [p], limit)
    decreases |ps|
  {
    hide PacketAt, Blocks;
    if ps == [] {
      assert (ps + [p])[1..] == [] && (ps + [p])[0] == p;
    } else {
      StartsByAppend(mem, lo + 1 + Blocks(|ps[0]|), mid, ps[1..], p, limit);
      assert (ps + [p])[1..] == ps[1..] + [p];
    }
  }

  /** Packets of at most `mtu` blocks take at most 1 + mtu blocks each. */
  lemma {:induction false} SegSize(mem: seq<byte>, lo: int, hi: int, ps: seq<seq<byte>>, mtu: int)
    requires Seg(mem, lo, hi, ps) && forall p :: p in ps ==> Blocks(|p|) <= mtu
    ensures hi - lo <= Times(|ps|, 1 + mtu)
    decreases |ps|
  {
    hide PacketAt, Blocks, Times;
    TimesZero(1 + mtu);
    if ps != [] {
      SegSize(mem, lo + 1 + Blocks(|ps[0]|), hi, ps[1..], mtu);
      OneMore(|ps|, 1 + mtu);
    }
  }

  /** A product, under a name. */
  function Times(a: int, b: int): int {
    a * b
  }

  lemma TimesZero(k: int)
    ensures Times(0, k) == 0
  {
  }

  lemma OneMore(n: int, k: int)
    ensures Times(n, k) == Times(n - 1, k) + k && n * k == (n - 1) * k + k
  {
  }

  // ---------------------------------------------------------------- sizing

  /** The buffer size for `num` packets of `chunkLen` bytes, -1 if it does not fit an int. */
  function CalcBlocks(chunkLen: int, num: int): int
    requires 0 <= chunkLen <= INT_MAX && 0 <= num <= INT_MAX
  {
    var chunkDataBlocks := Blocks(chunkLen);
    if chunkDataBlocks > INT_MAX - 1 then -1 else
    var chunkBlocks := 1 + chunkDataBlocks;
    if num > INT_MAX - 1 then -1 else
    var numChunks := num + 1;
    if chunkBlocks > INT_MAX / numChunks then -1 else chunkBlocks * numChunks
  }

  /** The division guards exactly against the overflow of the product. */
  lemma CalcBlocksExact(chunkLen: int, num: int)
    requires 0 <= chunkLen <= INT_MAX && 0 <= num <= INT_MAX
    ensures CalcBlocks(chunkLen, num)
         == if (1 + Blocks(chunkLen)) * (num + 1) <= INT_MAX then (1 + Blocks(chunkLen)) * (num + 1) else -1
  {
    var c, n := 1 + Blocks(chunkLen), num + 1;
    if n <= INT_MAX {
      DivMul(c, n, INT_MAX);
    } else {
      assert c * n >= n by {
        assert (c - 1) * n >= 0;
      }
    }
  }

  lemma DivMul(c: int, n: int, max: int)
    requires 0 < c && 0 < n && 0 <= max
    ensures c <= max / n <==> c * n <= max
  {
    var q := max / n;
    assert q * n <= max < q * n + n;
    if c <= q {
      MulMono(c, q, n);
    } else {
      MulMono(q + 1, c, n);
      OneMore(q + 1, n);
    }
  }

  lemma MulMono(a: int, b: int, n: int)
    requires a <= b && 0 <= n
    ensures a * n <= b * n
  {
  }

  // ---------------------------------------------------------------- the state of a buffer

  /** The fields that say where the data is. */
  datatype Indices = Indices(size: int, mtu: int, wrap: int, start: int, used: int) {
    function End(): int {
      if used >= wrap - start then used - (wrap - start) else start + used
    }

    /** The blocks free for the next packet, header included. */
    function Free(): int {
      if used >= wrap - start then start - End() else size - End()
    }

    /** What the source asserts of the indices. */
    predicate AssertBuffer() {
      && 0 < size && 0 < wrap <= size && 0 <= start < wrap && 0 <= used <= wrap
      && (wrap == size || used >= wrap - start)
      && 0 <= mtu
    }

    /** The place that is offered to the producer: the room there is, converted to int. */
    predicate Offers(dest: int, avail: int) {
      if size - End() - 1 < mtu || Free() <= 0 then dest == NULL && avail == -1
      else dest == 4 * (End() + 1) && avail == ToInt(4 * (Free() - 1))
    }

    /** What the source asserts of that place: it compares with the unconverted product. */
    predicate AssertInput(dest: int, avail: int) {
      if size - End() - 1 < mtu || Free() <= 0 then dest == NULL && avail == -1
      else dest == 4 * (End() + 1) && avail == 4 * (Free() - 1)
    }

    /** What it asserts of the packet offered to the consumer. */
    predicate AssertOutput(mem: seq<byte>, dest: int, avail: int) {
      if used > 0 then
        && 0 <= start && 4 * (start + 1) <= |mem|
        && dest == 4 * (start + 1) && avail == LenOf(mem[4 * start..4 * (start + 1)])
        && Blocks(avail) <= used - 1 && Blocks(avail) <= wrap - start - 1
      else dest == NULL && avail == -1
    }

    /** Where the packets are: from `start` up to `wrap`, and on from block 0. */
    ghost predicate Layout(mem: seq<byte>, first: seq<seq<byte>>, second: seq<seq<byte>>) {
      if used >= wrap - start then Seg(mem, start, wrap, first) && Seg(mem, 0, End(), second)
      else Seg(mem, start, End(), first) && second == []
    }

    /** No packet, and no end of data, is so close to the end of the buffer that a packet of
        `mtu` blocks would not fit there; the wrap point is never further from it than that. */
    ghost predicate Roomy(first: seq<seq<byte>>, second: seq<seq<byte>>) {
      && (size >= 1 + mtu ==>
        && End() <= size - 1 - mtu
        && StartsBy(start, first, size - 1 - mtu)
        && StartsBy(0, second, size - 1 - mtu))
      && size - wrap <= mtu
    }

    ghost predicate Holds(mem: seq<byte>, first: seq<seq<byte>>, second: seq<seq<byte>>) {
      |mem| == 4 * size && size <= INT_MAX && AssertBuffer() && Layout(mem, first, second) && Roomy(first, second)
    }
  }

  /** The free blocks hold no part of a stored packet. */
  lemma FreeIsFree(b: Indices, mem: seq<byte>, mem': seq<byte>, first: seq<seq<byte>>, second: seq<seq<byte>>)
    requires b.Holds(mem, first, second) && |mem'| == |mem|
    requires forall i :: 0 <= i < |mem| && !(4 * b.End() <= i < 4 * (b.End() + b.Free())) ==> mem'[i] == mem[i]
    ensures b.Holds(mem', first, second)
  {
    if b.used >= b.wrap - b.start {
      SegFrame(mem, mem', b.start, b.wrap, first);
      SegFrame(mem, mem', 0, b.End(), second);
    } else {
      SegFrame(mem, mem', b.start, b.End(), first);
    }
  }

  /** The packet at `start` is the oldest one. */
  lemma FirstPacket(b: Indices, mem: seq<byte>, first: seq<seq<byte>>, second: seq<seq<byte>>)
    requires b.Holds(mem, first, second)
    ensures b.used == 0 <==> first + second == []
    ensures b.used > 0 ==>
      && first != [] && (first + second)[0] == first[0] && PacketAt(mem, b.start, first[0])
      && Blocks(|first[0]|) <= b.used - 1 && Blocks(|first[0]|) <= b.wrap - b.start - 1
  {
    if b.used >= b.wrap - b.start {
      SegBounds(mem, b.start, b.wrap, first);
      SegBounds(mem, b.start + 1 + Blocks(|first[0]|), b.wrap, first[1..]);
    } else {
      SegBounds(mem, b.start, b.End(), first);
      if b.used > 0 {
        SegBounds(mem, b.start + 1 + Blocks(|first[0]|), b.End(), first[1..]);
      }
    }
  }

  /** The header read by the source is the length of the oldest packet. */
  lemma FirstHeader(b: Indices, mem: seq<byte>, first: seq<seq<byte>>, second: seq<seq<byte>>)
    requires b.Holds(mem, first, second) && b.used > 0
    ensures first != [] && 0 <= b.start && 4 * (b.start + 1) <= |mem|
    ensures LenOf(mem[4 * b.start..4 * (b.start + 1)]) == |first[0]| && BytesAt(mem, 4 * (b.start + 1), first[0])
    ensures Blocks(|first[0]|) <= b.used - 1 && Blocks(|first[0]|) <= b.wrap - b.start - 1
  {
    FirstPacket(b, mem, first, second);
  }

  /** The bytes offered for input lie in the free blocks, after the place of the header. */
  lemma AvailFits(b: Indices, dest: int, avail: int)
    requires b.AssertBuffer() && b.Offers(dest, avail) && dest != NULL && 0 <= avail
    ensures dest == 4 * (b.End() + 1) && avail <= 4 * (b.Free() - 1) && 0 < b.Free()
    ensures 0 <= b.End() && b.End() + b.Free() <= b.size
  {
  }

  /** A header followed by the bytes it counts is a packet. */
  lemma PacketStored(mem: seq<byte>, mem': seq<byte>, at: int, p: seq<byte>)
    requires 0 <= at && 4 * (at + 1) <= |mem| == |mem'| && |p| <= INT_MAX
    requires BytesAt(mem, 4 * (at + 1), p) && BytesAt(mem', 4 * at, LenBytes(|p|))
    requires forall i :: 0 <= i < |mem| && !(4 * at <= i < 4 * (at + 1)) ==> mem'[i] == mem[i]
    ensures PacketAt(mem', at, p)
  {
    LenRoundTrip(|p|);
    assert |LenBytes(|p|)| == 4;
    hide LenOf, LenBytes;
    assert mem'[4 * (at + 1)..4 * (at + 1) + |p|] == mem[4 * (at + 1)..4 * (at + 1) + |p|];
  }

  /** The two runs of packets after `p` was stored at the end of the data. */
  ghost predicate Extended(b: Indices, mem: seq<byte>, first: seq<seq<byte>>, second: seq<seq<byte>>, p: seq<byte>) {
    && |mem| == 4 * b.size && 1 + Blocks(|p|) <= b.Free()
    && if b.used >= b.wrap - b.start then
         Seg(mem, b.start, b.wrap, first) && Seg(mem, 0, b.End() + 1 + Blocks(|p|), second + [p])
       else Seg(mem, b.start, b.End() + 1 + Blocks(|p|), first + [p]) && second == []
  }

  /** Storing the header completes the packet written behind it. */
  lemma Submitted(b: Indices, mem: seq<byte>, mem': seq<byte>, first: seq<seq<byte>>, second: seq<seq<byte>>, p: seq<byte>)
    requires b.Holds(mem, first, second) && 0 <= b.End() && b.End() + b.Free() <= b.size && |p| <= 4 * (b.Free() - 1)
    requires |mem'| == |mem| && BytesAt(mem, 4 * (b.End() + 1), p) && |p| <= INT_MAX && BytesAt(mem', 4 * b.End(), LenBytes(|p|))
    requires forall i :: 0 <= i < |mem| && !(4 * b.End() <= i < 4 * (b.End() + 1)) ==> mem'[i] == mem[i]
    ensures Extended(b, mem', first, second, p)
  {
    assert b.Holds(mem', first, second) by {
      FreeIsFree(b, mem, mem', first, second);
    }
    assert PacketAt(mem', b.End(), p) by {
      PacketStored(mem, mem', b.End(), p);
    }
    Appended(b, mem', first, second, p);
  }

  lemma Appended(b: Indices, mem: seq<byte>, first: seq<seq<byte>>, second: seq<seq<byte>>, p: seq<byte>)
    requires b.Layout(mem, first, second) && PacketAt(mem, b.End(), p)
    requires |mem| == 4 * b.size && b.End() + b.Free() <= b.size && |p| <= 4 * (b.Free() - 1)
    ensures Extended(b, mem, first, second, p)
  {
    hide Seg, PacketAt, Blocks;
    if b.used >= b.wrap - b.start {
      SegAppend(mem, 0, b.End(), second, p);
    } else {
      SegAppend(mem, b.start, b.End(), first, p);
    }
  }

  /** The indices after a submit: the wrap point moves to the end of the data when a full packet
      would no longer fit behind it. */
  function AfterSubmit(b: Indices, blocklen: int): Indices {
    var end := b.End();
    var used := b.used + 1 + blocklen;
    b.(used := used,
       wrap := if used <= b.wrap - b.start && b.mtu > b.size - (end + 1 + blocklen) - 1 then end + 1 + blocklen else b.wrap)
  }

  /** The packet fits into the free blocks. */
  lemma SubmitFits(b: Indices, mem: seq<byte>, mem': seq<byte>, first: seq<seq<byte>>, second: seq<seq<byte>>, p: seq<byte>)
    requires b.Holds(mem, first, second) && Extended(b, mem', first, second, p)
    ensures Blocks(|p|) <= b.size - b.End() - 1
    ensures b.used < b.wrap - b.start || Blocks(|p|) <= b.start - b.End() - 1
  {
    hide Seg, StartsBy, Blocks, PacketAt;
  }

  lemma SubmittedIndices(b: Indices, mem: seq<byte>, mem': seq<byte>, first: seq<seq<byte>>, second: seq<seq<byte>>, p: seq<byte>)
    requires b.Holds(mem, first, second) && Extended(b, mem', first, second, p)
    ensures var c := AfterSubmit(b, Blocks(|p|)); var wrapped := b.used >= b.wrap - b.start;
      var first', second' := if wrapped then first else first + [p], if wrapped then second + [p] else [];
      c.Holds(mem', first', second') && first' + second' == first + second + [p]
  {
    var limit := b.size - 1 - b.mtu;
    var wrapped := b.used >= b.wrap - b.start;
    hide PacketAt, Blocks, LenOf, ToInt;
    if wrapped {
      SegBounds(mem, b.start, b.wrap, first);
      if b.size >= 1 + b.mtu {
        StartsByAppend(mem, 0, b.End(), second, p, limit);
      }
    } else {
      if b.size >= 1 + b.mtu {
        StartsByAppend(mem, b.start, b.End(), first, p, limit);
      }
    }
  }

  /** The indices after a consume: at the wrap point the buffer becomes one piece again. */
  function AfterConsume(b: Indices, blocklen: int): Indices {
    var start := b.start + 1 + blocklen;
    if start == b.wrap then b.(start := 0, wrap := b.size, used := b.used - 1 - blocklen)
    else b.(start := start, used := b.used - 1 - blocklen)
  }

  /** Consuming the packet that ends at the wrap point. */
  lemma ConsumedTurn(b: Indices, mem: seq<byte>, first: seq<seq<byte>>, second: seq<seq<byte>>)
    requires b.Holds(mem, first, second) && b.used > 0 && first != []
    requires Blocks(|first[0]|) <= b.used - 1 && b.start + 1 + Blocks(|first[0]|) == b.wrap
    ensures var c := AfterConsume(b, Blocks(|first[0]|));
      && c.Holds(mem, second, []) && first[1..] == []
      && c.End() == b.End() && c.Free() >= b.Free() && b.used >= b.wrap - b.start
  {
    hide PacketAt, Blocks, LenOf, ToInt;
    if b.used >= b.wrap - b.start {
      SegBounds(mem, b.wrap, b.wrap, first[1..]);
      SegBounds(mem, 0, b.End(), second);
    }
  }

  /** Consuming any other packet. */
  lemma ConsumedOn(b: Indices, mem: seq<byte>, first: seq<seq<byte>>, second: seq<seq<byte>>)
    requires b.Holds(mem, first, second) && b.used > 0 && first != []
    requires Blocks(|first[0]|) <= b.used - 1 && b.start + 1 + Blocks(|first[0]|) < b.wrap
    ensures var c := AfterConsume(b, Blocks(|first[0]|));
      && c.Holds(mem, first[1..], second)
      && c.End() == b.End() && c.Free() >= b.Free() && (b.used < b.wrap - b.start ==> c.Free() == b.Free())
  {
    hide PacketAt, Blocks, LenOf, ToInt;
  }

  lemma ConsumedIndices(b: Indices, mem: seq<byte>, first: seq<seq<byte>>, second: seq<seq<byte>>)
    requires b.Holds(mem, first, second) && b.used > 0
    ensures first != []
    ensures var c := AfterConsume(b, Blocks(|first[0]|)); var turn := b.start + 1 + Blocks(|first[0]|) == b.wrap;
      var first', second' := if turn then second else first[1..], if turn then [] else second;
      && c.Holds(mem, first', second') && first' + second' == (first + second)[1..]
      && c.End() == b.End() && c.Free() >= b.Free()
      && (b.used < b.wrap - b.start ==> c.Free() == b.Free())
  {
    FirstPacket(b, mem, first, second);
    hide PacketAt, Blocks, LenOf, ToInt, Seg, StartsBy;
    assert (first + second)[1..] == first[1..] + second;
    if b.start + 1 + Blocks(|first[0]|) == b.wrap {
      ConsumedTurn(b, mem, first, second);
    } else {
      ConsumedOn(b, mem, first, second);
    }
  }

  lemma HoldsUse(b: Indices, mem: seq<byte>, first: seq<seq<byte>>, second: seq<seq<byte>>)
    requires b.Holds(mem, first, second)
    ensures b.AssertBuffer() && |mem| == 4 * b.size && 0 <= b.used
  {
  }

  lemma OfferUsed(b: Indices, mem: seq<byte>, dest: int, avail: int)
    requires b.AssertOutput(mem, dest, avail) && b.AssertBuffer()
    ensures dest != NULL <==> b.used > 0
  {
  }

  lemma OfferIsFirst(b: Indices, mem: seq<byte>, first: seq<seq<byte>>, second: seq<seq<byte>>, dest: int, avail: int)
    requires b.Holds(mem, first, second) && b.AssertOutput(mem, dest, avail)
    ensures dest == NULL <==> first + second == []
    ensures dest == NULL ==> avail == -1
    ensures first + second != [] ==> avail == |(first + second)[0]| && BytesAt(mem, dest, (first + second)[0])
  {
    FirstPacket(b, mem, first, second);
    if b.used > 0 {
      FirstHeader(b, mem, first, second);
    }
    hide Indices.Holds, Blocks, LenOf, PacketAt, BytesAt;
  }

  /** The packet offered for output stays at the front. */
  lemma FrontKept(b: Indices, c: Indices, mem: seq<byte>, first: seq<seq<byte>>, second: seq<seq<byte>>, dest: int, avail: int)
    requires c.Holds(mem, first, second) && b.AssertOutput(mem, dest, avail) && b.used > 0 && c.used > 0 && c.start == b.start
    ensures c.AssertOutput(mem, dest, avail)
  {
    FirstHeader(c, mem, first, second);
    hide Indices.Holds, Blocks, LenOf, PacketAt, BytesAt;
  }

  /** An offer depends on the end of the data and on the room behind it only. */
  lemma OfferKept(b: Indices, c: Indices, dest: int, avail: int)
    requires b.Offers(dest, avail)
    requires c.size == b.size && c.mtu == b.mtu && c.End() == b.End() && c.Free() == b.Free()
    ensures c.Offers(dest, avail)
  {
  }

  /** The place offered to the producer before a consume is still the one offered after it. */
  lemma OfferStable(b: Indices, c: Indices, dest: int, avail: int, dest': int, avail': int)
    requires b.Offers(dest, avail) && c.Offers(dest', avail')
    requires c.size == b.size && c.mtu == b.mtu && c.End() == b.End() && c.Free() >= b.Free()
    ensures dest != NULL ==> dest' == dest
  {
  }

  // ---------------------------------------------------------------- capacity

  /** The branch for a place where a full packet could never fit is dead exactly when the whole
      buffer can hold one. */
  lemma NeverImpossible(b: Indices, mem: seq<byte>, first: seq<seq<byte>>, second: seq<seq<byte>>)
    requires b.Holds(mem, first, second)
    ensures b.size - b.End() - 1 >= b.mtu <==> b.size >= 1 + b.mtu
  {
    if b.used < b.wrap - b.start {
      SegBounds(mem, b.start, b.End(), first);
    }
  }

  /** With a size from `CalcBlocks` and fewer than `num` stored packets of at most the MTU, there
      is room for a full packet. */
  lemma Capacity(b: Indices, mem: seq<byte>, first: seq<seq<byte>>, second: seq<seq<byte>>, num: int)
    requires b.Holds(mem, first, second) && 0 < num && b.size == Times(1 + b.mtu, num + 1)
    requires |first + second| < num && forall p :: p in first + second ==> Blocks(|p|) <= b.mtu
    ensures b.Free() >= 1 + b.mtu
  {
    var k := 1 + b.mtu;
    Sum2(|first|, |second|, num, k);
    NeverImpossible(b, mem, first, second);
    if b.used >= b.wrap - b.start {
      WrappedTotals(b, mem, first, second);
      hide Times, Blocks, Seg, StartsBy, Indices.Layout, Indices.Roomy;
      WrappedRoom(b, Times(|first|, k), Times(|second|, k));
    }
  }

  /** The two runs of packets of a wrapped buffer are not too long. */
  lemma WrappedTotals(b: Indices, mem: seq<byte>, first: seq<seq<byte>>, second: seq<seq<byte>>)
    requires b.Layout(mem, first, second) && b.used >= b.wrap - b.start
    requires forall p :: p in first + second ==> Blocks(|p|) <= b.mtu
    ensures b.wrap - b.start <= Times(|first|, 1 + b.mtu) && b.End() <= Times(|second|, 1 + b.mtu)
  {
    hide Times, Blocks, PacketAt;
    assert forall p :: p in first ==> p in first + second;
    assert forall p :: p in second ==> p in first + second;
    SegSize(mem, b.start, b.wrap, first, b.mtu);
    SegSize(mem, 0, b.End(), second, b.mtu);
  }

  /** The arithmetic of the wrapped case: what is not used is free. */
  lemma WrappedRoom(b: Indices, x: int, y: int)
    requires b.AssertBuffer() && b.used >= b.wrap - b.start
    requires b.wrap - b.start <= x && b.End() <= y && b.size - b.wrap <= b.mtu
    requires x + y <= b.size - 2 * (1 + b.mtu)
    ensures b.Free() >= 1 + b.mtu
  {
  }

  lemma Sum2(i: nat, j: nat, num: int, k: int)
    requires i + j < num && 0 < k
    ensures Times(i, k) + Times(j, k) <= Times(k, num + 1) - 2 * k && k <= Times(k, num + 1)
  {
    assert Times(i, k) + Times(j, k) == (i + j) * k;
    MulMono(i + j, num - 1, k);
    assert Times(k, num + 1) == (num - 1) * k + 2 * k;
    MulMono(1, num + 1, k);
  }

  /** The conversion of the offer to int keeps the value exactly when it fits. */
  lemma ToIntExact(x: nat)
    ensures ToInt(x) == x <==> x <= INT_MAX
  {
  }

  /** In which states the assertion about the offer holds. */
  lemma AssertInputIff(b: Indices, mem: seq<byte>, first: seq<seq<byte>>, second: seq<seq<byte>>, dest: int, avail: int)
    requires b.Holds(mem, first, second) && b.Offers(dest, avail)
    ensures b.AssertInput(dest, avail) <==> b.size < 1 + b.mtu || 4 * (b.Free() - 1) <= INT_MAX
    ensures b.Free() <= b.size
  {
    NeverImpossible(b, mem, first, second);
    if b.Free() > 0 {
      ToIntExact(4 * (b.Free() - 1));
    }
  }

  function Zeros(n: nat): seq<byte> {
    seq(n, i => 0)
  }

  function Empties(k: nat): seq<seq<byte>> {
    seq(k, i => [])
  }

  lemma {:induction false} EmptySeg(mem: seq<byte>, lo: nat, k: nat, limit: int)
    requires 4 * (lo + k) <= |mem| && mem == Zeros(|mem|) && lo + k - 1 <= limit
    ensures Seg(mem, lo, lo + k, Empties(k)) && StartsBy(lo, Empties(k), limit)
    decreases k
  {
    if k > 0 {
      EmptySeg(mem, lo + 1, k - 1, limit);
      assert Empties(k)[1..] == Empties(k - 1) && Empties(k)[0] == [];
      assert PacketAt(mem, lo, []);
    }
  }

  /** The state after `k` empty packets have been stored, and none taken out. */
  lemma EmptiesHold(size: int, mtu: int, k: nat)
    requires 0 < size <= INT_MAX && 0 <= mtu && k < size && (size >= 1 + mtu ==> k <= size - 1 - mtu)
    ensures Indices(size, mtu, size, 0, k).Holds(Zeros(4 * size), Empties(k), [])
  {
    EmptySeg(Zeros(4 * size), 0, k, if size >= 1 + mtu then size - 1 - mtu else size);
  }

  /** All states of a buffer of this size, and what they offer. */
  ghost predicate StateOf(size: int, mtu: int, b: Indices, mem: seq<byte>, first: seq<seq<byte>>, second: seq<seq<byte>>,
                          dest: int, avail: int) {
    b.size == size && b.mtu == mtu && b.Holds(mem, first, second) && b.Offers(dest, avail)
  }

  /** The assertion about the offer holds in every state exactly if the buffer, in bytes, fits an int
      (or cannot hold a packet at all). The empty buffer is the state that breaks it. */
  lemma AssertInputExactIff(size: int, mtu: int)
    requires 0 < size <= INT_MAX && 0 <= mtu
    ensures (size < 1 + mtu || 4 * (size - 1) <= INT_MAX)
      <==> forall b, mem, first, second, dest, avail ::
        (StateOf(size, mtu, b, mem, first, second, dest, avail) ==> b.AssertInput(dest, avail))
  {
    forall b, mem, first, second, dest, avail | StateOf(size, mtu, b, mem, first, second, dest, avail)
      ensures b.AssertInput(dest, avail) <==> size < 1 + mtu || 4 * (b.Free() - 1) <= INT_MAX
      ensures b.Free() <= size
    {
      AssertInputIff(b, mem, first, second, dest, avail);
    }
    hide Indices.Holds;
    if size >= 1 + mtu {
      EmptiesHold(size, mtu, 0);
      var b := Indices(size, mtu, size, 0, 0);
      assert b.Free() == size;
      assert StateOf(size, mtu, b, Zeros(4 * size), Empties(0), [], 4, ToInt(4 * (size - 1)));
    }
  }

  /** `CalcBlocks` lets larger buffers through: this one is empty, and offers a negative room. */
  lemma OfferCanBeNegative()
    ensures CalcBlocks(4, 0x1000_0000) == 0x2000_0002 && ToInt(4 * (0x2000_0002 - 1)) < 0
  {
  }

  // ---------------------------------------------------------------- the buffer

  /** memcpy into the buffer. */
  method Fill(mem: array<byte>, dest: nat, data: seq<byte>)
    requires dest + |data| <= mem.Length
    modifies mem
    ensures BytesAt(mem[..], dest, data)
    ensures forall i :: 0 <= i < mem.Length && !(dest <= i < dest + |data|) ==> mem[i] == old(mem[i])
  {
    forall i | 0 <= i < |data| {
      mem[dest + i] := data[i];
    }
  }

  class ChunkBuffer2 {
    const mem: array<byte>
    const size: int
    const mtu: int
    var wrap: int
    var start: int
    var used: int
    var inputDest: int
    var inputAvail: int
    var outputDest: int
    var outputAvail: int
    ghost var first: seq<seq<byte>>
    ghost var second: seq<seq<byte>>

    function Ix(): Indices
      reads this`wrap, this`start, this`used
    {
      Indices(size, mtu, wrap, start, used)
    }

    /** The packets in the buffer, oldest first. */
    ghost function Packets(): seq<seq<byte>>
      reads this`first, this`second
    {
      first + second
    }

    ghost predicate Valid()
      reads this, mem
    {
      && Ix().Holds(mem[..], first, second)
      && Ix().Offers(inputDest, inputAvail)
      && Ix().AssertOutput(mem[..], outputDest, outputAvail)
    }

    method UpdateInput()
      requires Ix().AssertBuffer()
      modifies this`inputDest, this`inputAvail
      ensures Ix().Offers(inputDest, inputAvail)
    {
      var end := Ix().End();
      if size - end - 1 < mtu {
        inputDest, inputAvail := NULL, -1;
        return;
      }
      var free;
      if used >= wrap - start {
        free := start - end;
      } else {
        free := size - end;
      }
      if free > 0 {
        inputDest, inputAvail := 4 * (end + 1), ToInt((free - 1) * 4);
      } else {
        inputDest, inputAvail := NULL, -1;
      }
    }

    method UpdateOutput()
      requires Ix().Holds(mem[..], first, second)
      modifies this`outputDest, this`outputAvail
      ensures Ix().AssertOutput(mem[..], outputDest, outputAvail)
    {
      if used > 0 {
        FirstHeader(Ix(), mem[..], first, second);
        hide Indices.Holds, Blocks, LenOf, PacketAt, BytesAt;
        outputDest, outputAvail := 4 * (start + 1), LenOf(mem[4 * start..4 * (start + 1)]);
        assert mem[..][4 * start..4 * (start + 1)] == mem[4 * start..4 * (start + 1)];
      } else {
        outputDest, outputAvail := NULL, -1;
      }
    }

    constructor (mem: array<byte>, blocks: int, mtuBytes: int)
      requires 0 < blocks <= INT_MAX && 0 <= mtuBytes <= INT_MAX && mem.Length == 4 * blocks
      ensures Valid() && Packets() == []
      ensures this.mem == mem && size == blocks && mtu == Blocks(mtuBytes)
      ensures Ix() == Indices(blocks, Blocks(mtuBytes), blocks, 0, 0)
      ensures Ix().AssertInput(inputDest, inputAvail) <==> blocks < 1 + mtu || 4 * (blocks - 1) <= INT_MAX
    {
      this.mem, size, mtu := mem, blocks, Blocks(mtuBytes);
      wrap, start, used := blocks, 0, 0;
      first, second := [], [];
      new;
      UpdateInput();
      UpdateOutput();
      AssertInputIff(Ix(), mem[..], first, second, inputDest, inputAvail);
    }

    /** What the source asserts of its buffer and of what it offers. */
    lemma Asserted()
      requires Valid()
      ensures Ix().AssertBuffer() && Ix().AssertOutput(mem[..], outputDest, outputAvail)
      ensures Ix().AssertInput(inputDest, inputAvail) <==> size < 1 + mtu || 4 * (Ix().Free() - 1) <= INT_MAX
    {
      AssertInputIff(Ix(), mem[..], first, second, inputDest, inputAvail);
    }

    /** The output offer is the oldest packet, whole. */
    lemma OutputIsFirst()
      requires Valid()
      ensures outputDest == NULL <==> Packets() == []
      ensures outputDest == NULL ==> outputAvail == -1
      ensures Packets() != [] ==> outputAvail == |Packets()[0]| && BytesAt(mem[..], outputDest, Packets()[0])
    {
      OfferIsFirst(Ix(), mem[..], first, second, outputDest, outputAvail);
      hide Indices.Holds, Indices.AssertOutput, BytesAt;
    }

    /** Writing to the free blocks leaves the output offer as it was. */
    lemma OutputKept(m: seq<byte>)
      requires Ix().Holds(m, first, second) && Ix().Holds(mem[..], first, second)
      requires Ix().AssertOutput(m, outputDest, outputAvail)
      ensures Ix().AssertOutput(mem[..], outputDest, outputAvail)
    {
      if used > 0 {
        FirstHeader(Ix(), mem[..], first, second);
        FirstHeader(Ix(), m, first, second);
        hide Indices.Holds, Blocks, LenOf, PacketAt, BytesAt;
      }
    }

    /** The producer fills in bytes where it was told to; no stored packet is touched. */
    method WriteInput(data: seq<byte>)
      requires Valid() && inputDest != NULL && |data| <= inputAvail
      modifies mem
      ensures Valid() && BytesAt(mem[..], inputDest, data)
    {
      ghost var m := mem[..];
      AvailFits(Ix(), inputDest, inputAvail);
      Fill(mem, inputDest, data);
      FreeIsFree(Ix(), m, mem[..], first, second);
      OutputKept(m);
      hide Indices.Holds, Indices.AssertOutput;
    }

    /** Writes the header behind which the packet was written: it is now stored. */
    method StoreHeader(end: int, len: int, ghost p: seq<byte>)
      requires Valid() && inputDest != NULL && 0 <= len <= inputAvail && end == Ix().End()
      requires |p| == len && BytesAt(mem[..], inputDest, p)
      modifies mem
      ensures Ix().AssertOutput(mem[..], outputDest, outputAvail)
      ensures Extended(Ix(), mem[..], first, second, p)
    {
      ghost var b, m := Ix(), mem[..];
      AvailFits(b, inputDest, inputAvail);
      assert |LenBytes(len)| == 4;
      Fill(mem, 4 * end, LenBytes(len));
      Submitted(b, m, mem[..], first, second, p);
      FreeIsFree(b, m, mem[..], first, second);
      OutputKept(m);
      hide Indices.Holds, Indices.AssertOutput, Extended;
    }

    /** Submits the packet the producer has written to the place it was offered. */
    method SubmitPacket(len: int, ghost p: seq<byte>)
      requires Valid() && inputDest != NULL && 0 <= len <= inputAvail
      requires |p| == len && BytesAt(mem[..], inputDest, p)
      modifies this, mem
      ensures Valid() && Packets() == old(Packets()) + [p]
      ensures old(outputDest) != NULL ==> outputDest == old(outputDest) && outputAvail == old(outputAvail)
      ensures Ix() == AfterSubmit(old(Ix()), Blocks(len))
    {
      hide Indices.Holds, Indices.AssertOutput, Indices.Offers, Extended, Blocks, BytesAt, ToInt;
      ghost var b, m := Ix(), mem[..];
      HoldsUse(b, m, first, second);
      OfferUsed(b, m, outputDest, outputAvail);
      var end := Ix().End();
      var blocklen := Blocks(len);
      StoreHeader(end, len, p);
      SubmitFits(b, m, mem[..], first, second, p);
      assert blocklen <= size - end - 1;
      assert used < wrap - start || blocklen <= start - end - 1;
      SubmittedIndices(b, m, mem[..], first, second, p);
      if used >= wrap - start {
        second := second + [p];
      } else {
        first, second := first + [p], [];
      }
      used := used + 1 + blocklen;
      if used <= wrap - start && mtu > size - (end + 1 + blocklen) - 1 {
        wrap := end + 1 + blocklen;
      }
      assert Ix() == AfterSubmit(b, blocklen);
      assert Ix().Holds(mem[..], first, second);
      HoldsUse(Ix(), mem[..], first, second);
      UpdateInput();
      if used == 1 + blocklen {
        UpdateOutput();
      } else {
        FrontKept(b, Ix(), mem[..], first, second, outputDest, outputAvail);
      }
    }

    method Advance(blocklen: int)
      modifies this`start, this`used, this`wrap
      ensures Ix() == AfterConsume(old(Ix()), blocklen)
    {
      start := start + 1 + blocklen;
      used := used - (1 + blocklen);
      if start == wrap {
        start := 0;
        wrap := size;
      }
    }

    /** Moves the indices past the oldest packet. */
    method DropFirst(blocklen: int)
      requires Ix().Holds(mem[..], first, second) && used > 0
      requires first != [] && blocklen == Blocks(|first[0]|)
      modifies this`start, this`used, this`wrap, this`first, this`second
      ensures Ix().Holds(mem[..], first, second) && Packets() == old(Packets())[1..]
      ensures Ix().size == old(Ix()).size && Ix().mtu == old(Ix()).mtu
      ensures Ix().End() == old(Ix().End()) && Ix().Free() >= old(Ix().Free())
      ensures old(used < wrap - start) ==> Ix().Free() == old(Ix().Free())
    {
      ghost var b := Ix();
      ConsumedIndices(b, mem[..], first, second);
      hide Indices.Holds, Indices.End, Indices.Free, AfterConsume, Blocks;
      if start + 1 + blocklen == wrap {
        first, second := second, [];
      } else {
        first := first[1..];
      }
      Advance(blocklen);
    }

    /** The length stored in the header of the oldest packet. */
    method ReadHeader() returns (len: nat)
      requires Ix().Holds(mem[..], first, second) && used > 0
      ensures first != [] && len == |first[0]| && Packets() != []
    {
      FirstHeader(Ix(), mem[..], first, second);
      assert mem[..][4 * start..4 * (start + 1)] == mem[4 * start..4 * (start + 1)];
      len := LenOf(mem[4 * start..4 * (start + 1)]);
    }

    /** After a consume the producer's offer is recomputed only if the data was wrapped. */
    method RefreshInput(dataWrapped: bool, ghost b: Indices)
      requires Ix().Holds(mem[..], first, second) && b.Offers(inputDest, inputAvail)
      requires b.size == Ix().size && b.mtu == Ix().mtu && Ix().End() == b.End() && Ix().Free() >= b.Free()
      requires !dataWrapped ==> Ix().Free() == b.Free()
      modifies this`inputDest, this`inputAvail
      ensures Ix().Offers(inputDest, inputAvail)
      ensures old(inputDest) != NULL ==> inputDest == old(inputDest)
    {
      ghost var dest, avail := inputDest, inputAvail;
      HoldsUse(Ix(), mem[..], first, second);
      hide Indices.Offers, Indices.AssertBuffer, Indices.End, Indices.Free;
      if dataWrapped {
        UpdateInput();
      } else {
        OfferKept(b, Ix(), inputDest, inputAvail);
      }
      OfferStable(b, Ix(), dest, avail, inputDest, inputAvail);
    }

    lemma Open()
      requires Valid()
      ensures Ix().Holds(mem[..], first, second) && Ix().AssertBuffer()
      ensures Ix().Offers(inputDest, inputAvail)
      ensures Ix().AssertOutput(mem[..], outputDest, outputAvail)
      ensures outputDest != NULL <==> used > 0
    {
      HoldsUse(Ix(), mem[..], first, second);
      OfferUsed(Ix(), mem[..], outputDest, outputAvail);
      hide Indices.Holds, Indices.Offers, Indices.AssertOutput;
    }

    lemma Close()
      requires Ix().Holds(mem[..], first, second)
      requires Ix().Offers(inputDest, inputAvail)
      requires Ix().AssertOutput(mem[..], outputDest, outputAvail)
      ensures Valid()
    {
      hide Indices.Holds, Indices.Offers, Indices.AssertOutput;
    }

    method ConsumePacket()
      requires Valid() && outputDest != NULL
      modifies this
      ensures Valid() && old(Packets()) != [] && Packets() == old(Packets())[1..]
      ensures old(inputDest) != NULL ==> inputDest == old(inputDest)
      ensures Ix().Free() >= old(Ix().Free())
    {
      hide *;
      Open();
      ghost var b := Ix();
      var len := ReadHeader();
      var blocklen := Blocks(len);
      var dataWrapped := used >= wrap - start;
      DropFirst(blocklen);
      RefreshInput(dataWrapped, b);
      UpdateOutput();
      Close();
    }
  }
}
