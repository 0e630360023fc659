/** A packet buffer between a receiving and a sending interface. */
module PacketBuffer {
  import opened Bytes
  import opened ChunkBuffer2
  import opened Sequences

  ghost predicate AllSmall(ps: seq<seq<byte>>, mtu: int) {
    forall p :: p in ps ==> |p| <= mtu
  }

  /** What came in is what went out and what is still stored, in order. */
  ghost predicate Conserved(received: seq<seq<byte>>, sent: seq<seq<byte>>, stored: seq<seq<byte>>) {
    received == sent + stored
  }

  lemma OneIn(received: seq<seq<byte>>, sent: seq<seq<byte>>, stored: seq<seq<byte>>, p: seq<byte>, mtu: int)
    requires Conserved(received, sent, stored) && AllSmall(stored, mtu) && |p| <= mtu
    ensures Conserved(received + [p], sent, stored + [p]) && AllSmall(stored + [p], mtu)
    ensures stored + [p] != [] && (stored != [] ==> (stored + [p])[0] == stored[0])
  {
  }

  lemma OneOut(received: seq<seq<byte>>, sent: seq<seq<byte>>, stored: seq<seq<byte>>, mtu: int)
    requires Conserved(received, sent, stored) && AllSmall(stored, mtu) && stored != []
    ensures Conserved(received, sent + [stored[0]], stored[1..]) && AllSmall(stored[1..], mtu)
  {
    assert stored == [stored[0]] + stored[1..];
  }

  class PacketBuffer {
    const buf: ChunkBuffer2
    const inputMtu: int
    /** The receive interface: whether a receive is outstanding, and into which place. */
    var receiving: bool
    var recvDest: int
    /** The send interface: whether a send is outstanding, and of which bytes. */
    var sending: bool
    var sendDest: int
    var sendLen: int
    ghost const num: int
    ghost var received: seq<seq<byte>>
    ghost var sent: seq<seq<byte>>

    /** A packet of the full MTU fits into the free blocks. */
    ghost predicate Fits()
      reads buf
    {
      0 <= inputMtu && 1 + Blocks(inputMtu) <= buf.Ix().Free()
    }

    /** The buffer was sized for `num` packets. */
    ghost predicate Sized() {
      && 0 < num && 0 <= inputMtu <= INT_MAX && buf.mtu == Blocks(inputMtu)
      && buf.size == Times(1 + buf.mtu, num + 1)
    }

    /** The code's test for room finds the room there is. */
    ghost predicate TestRight()
      reads buf
    {
      Fits() ==> buf.inputAvail >= inputMtu
    }

    ghost predicate Valid()
      reads this, buf, buf.mem
    {
      && Sized() && buf.Valid()
      && AllSmall(buf.Packets(), inputMtu)
      && (receiving <==> Fits()) && (receiving ==> recvDest == buf.inputDest && inputMtu <= buf.inputAvail)
      && (sending <==> buf.Packets() != [])
      && (sending ==> sendDest == buf.outputDest && sendLen == buf.outputAvail)
      && Conserved(received, sent, buf.Packets())
    }

    /** PacketRecvInterface_Receiver_Recv: only one receive at a time, into a real place. */
    method Recv(dest: int)
      requires !receiving && dest != NULL
      modifies this`receiving, this`recvDest
      ensures receiving && recvDest == dest
    {
      receiving, recvDest := true, dest;
    }

    /** PacketPassInterface_Sender_Send: only one send at a time, of a real packet. */
    method Send(data: int, len: int)
      requires !sending && data != NULL && 0 <= len
      modifies this`sending, this`sendDest, this`sendLen
      ensures sending && sendDest == data && sendLen == len
    {
      sending, sendDest, sendLen := true, data, len;
    }

    /** The code's test for room is the test for a full packet if the buffer, in bytes, fits an int; it
        never finds room that is not there. */
    lemma RoomTest()
      requires Sized() && buf.Valid()
      ensures buf.inputAvail >= inputMtu ==> Fits()
      ensures Fits() ==> buf.inputDest != NULL && buf.inputAvail == ToInt(4 * (buf.Ix().Free() - 1))
      ensures 4 * (buf.size - 1) <= INT_MAX ==> TestRight()
    {
      var b := buf.Ix();
      TimesAtLeast(1 + b.mtu, num + 1);
      AssertInputIff(b, buf.mem[..], buf.first, buf.second, buf.inputDest, buf.inputAvail);
      NeverImpossible(b, buf.mem[..], buf.first, buf.second);
      BlocksFit(b.Free() - 1, inputMtu);
      hide Indices.Holds, Indices.AssertOutput, Blocks, Indices.Free, Times;
      if 0 < b.Free() < 1 + b.mtu {
        ToIntExact(4 * (b.Free() - 1));
      }
    }

    lemma OfferedRoom()
      requires Valid() && Fits()
      ensures buf.inputAvail == ToInt(4 * (buf.Ix().Free() - 1))
    {
      RoomTest();
    }

    /** Fewer than `num` packets leave room for another one. */
    lemma RoomForOne()
      requires Sized() && buf.Valid() && AllSmall(buf.Packets(), inputMtu)
      requires |buf.Packets()| < num
      ensures Fits()
    {
      forall p | p in buf.first + buf.second ensures Blocks(|p|) <= buf.mtu {
        BlocksMono(|p|, inputMtu);
      }
      Capacity(buf.Ix(), buf.mem[..], buf.first, buf.second, num);
    }

    /** Something is always outstanding: the buffer cannot get stuck. */
    lemma NeverStuck()
      requires Valid()
      ensures receiving || sending
      ensures |buf.Packets()| < num ==> receiving
    {
      if |buf.Packets()| < num {
        RoomForOne();
      }
    }

    constructor (mem: array<byte>, blocks: int, inputMtu: int, ghost num: int)
      requires 0 < num <= INT_MAX && 0 <= inputMtu <= INT_MAX
      requires blocks == CalcBlocks(inputMtu, num) && 0 <= blocks && mem.Length == 4 * blocks
      ensures this.inputMtu == inputMtu && this.num == num && received == [] && sent == []
      ensures fresh(buf) && buf.Ix() == Indices(blocks, Blocks(inputMtu), blocks, 0, 0) && buf.mem == mem
      ensures Valid() <==> ToInt(4 * (blocks - 1)) >= inputMtu
      ensures 4 * (blocks - 1) <= INT_MAX ==> Valid()
      ensures receiving && TestRight() == Valid()
    {
      CalcBlocksExact(inputMtu, num);
      MulMono(1, num + 1, 1 + Blocks(inputMtu));
      buf := new ChunkBuffer2(mem, blocks, inputMtu);
      this.inputMtu, this.num := inputMtu, num;
      received, sent := [], [];
      sending, receiving := false, false;
      new;
      NeverImpossible(buf.Ix(), mem[..], buf.first, buf.second);
      InitialRoom();
      Recv(buf.inputDest);
      RoomForOne();
      RoomTest();
    }

    lemma InitialRoom()
      requires buf.Valid() && buf.Packets() == [] && buf.size >= 1 + buf.mtu
      ensures buf.inputDest != NULL
    {
      NeverImpossible(buf.Ix(), buf.mem[..], buf.first, buf.second);
      FirstPacket(buf.Ix(), buf.mem[..], buf.first, buf.second);
    }

    /** The producer writes its packet while a receive is outstanding. */
    method ProducerWrites(data: seq<byte>)
      requires Valid() && receiving && |data| <= inputMtu
      modifies buf.mem
      ensures Valid() && BytesAt(buf.mem[..], recvDest, data)
    {
      RoomTest();
      buf.WriteInput(data);
    }

    method InputHandlerDone(inLen: int, ghost p: seq<byte>)
      requires Valid() && receiving
      requires 0 <= inLen <= inputMtu && |p| == inLen && BytesAt(buf.mem[..], recvDest, p)
      modifies this, buf, buf.mem
      ensures received == old(received) + [p] && sent == old(sent)
      ensures Valid() <==> TestRight()
      ensures 4 * (buf.size - 1) <= INT_MAX ==> Valid()
      ensures old(sending) ==> sending && sendDest == old(sendDest) && sendLen == old(sendLen)
      ensures buf.Ix() == AfterSubmit(old(buf.Ix()), Blocks(inLen))
    {
      hide Indices.Holds, Indices.Offers, Indices.AssertOutput, BytesAt, Blocks, Indices.Free, CalcBlocks, ToInt, Conserved, AllSmall;
      RoomTest();
      buf.OutputIsFirst();
      OneIn(received, sent, buf.Packets(), p, inputMtu);
      receiving := false;
      var wasEmpty := buf.outputAvail < 0;
      buf.SubmitPacket(inLen, p);
      received := received + [p];
      RoomTest();
      buf.OutputIsFirst();
      if buf.inputAvail >= inputMtu {
        Recv(buf.inputDest);
      }
      if wasEmpty {
        Send(buf.outputDest, buf.outputAvail);
      }
    }

    /** The send is done: what left is the oldest packet, byte for byte. */
    method OutputHandlerDone() returns (ghost out: seq<byte>)
      requires Valid() && sending
      modifies this, buf
      ensures sent == old(sent) + [out] && received == old(received)
      ensures Valid() <==> TestRight()
      ensures 4 * (buf.size - 1) <= INT_MAX ==> Valid()
      ensures |out| == old(sendLen) && BytesAt(old(buf.mem[..]), old(sendDest), out)
      ensures old(receiving) ==> receiving && recvDest == old(recvDest)
    {
      hide Indices.Holds, Indices.Offers, Indices.AssertOutput, BytesAt, Blocks, Indices.Free, CalcBlocks, ToInt, Conserved, AllSmall;
      RoomTest();
      buf.OutputIsFirst();
      out := buf.Packets()[0];
      OneOut(received, sent, buf.Packets(), inputMtu);
      sending := false;
      var wasFull := buf.inputAvail < inputMtu;
      buf.ConsumePacket();
      sent := sent + [out];
      RoomTest();
      buf.OutputIsFirst();
      if wasFull && buf.inputAvail >= inputMtu {
        Recv(buf.inputDest);
      }
      if buf.outputAvail >= 0 {
        Send(buf.outputDest, buf.outputAvail);
      }
    }
  }

  /** Beyond that size the promise is broken: from the start on, or as soon as enough empty packets
      have come in and none has gone out, the test misses the room for a packet. */
  method Overfill(mem: array<byte>, blocks: int, inputMtu: int, ghost num: int) returns (pb: PacketBuffer, ghost stored: nat)
    requires 0 < num <= INT_MAX && 0 <= inputMtu <= INT_MAX
    requires blocks == CalcBlocks(inputMtu, num) && mem.Length == 4 * blocks && 4 * (blocks - 1) > INT_MAX
    modifies mem
    ensures fresh(pb) && pb.Fits() && !(pb.buf.inputAvail >= pb.inputMtu) && !pb.Valid()
    ensures pb.received == Empties(stored) && pb.sent == []
  {
    hide Indices.Holds, Indices.Offers, Indices.AssertOutput, BytesAt, Blocks, Indices.Free, CalcBlocks, ToInt, AfterSubmit, PacketBuffer.Valid;
    pb := new PacketBuffer(mem, blocks, inputMtu, num);
    stored := 0;
    while pb.buf.inputAvail >= inputMtu
      invariant fresh(pb) && fresh(pb.buf) && pb.buf.mem == mem && pb.inputMtu == inputMtu
      invariant pb.Valid() <==> pb.TestRight()
      invariant stored <= blocks - LAST_RIGHT - 1 && pb.buf.Ix() == Indices(blocks, Blocks(inputMtu), blocks, 0, stored)
      invariant pb.received == Empties(stored) && pb.sent == []
      decreases blocks - stored
    {
      RoomAhead(pb.buf.Ix(), inputMtu);
      pb.OfferedRoom();
      Refill(pb);
      stored := stored + 1;
    }
    RoomAhead(pb.buf.Ix(), inputMtu);
  }

  /** The most free blocks whose bytes, header block apart, fit an int. */
  const LAST_RIGHT: int := INT_MAX / 4 + 1

  /** An empty packet comes in. */
  method Refill(pb: PacketBuffer)
    requires pb.Valid() && pb.Fits()
    modifies pb, pb.buf, pb.buf.mem
    ensures pb.Valid() <==> pb.TestRight()
    ensures pb.received == old(pb.received) + [[]] && pb.sent == old(pb.sent)
    ensures pb.buf.Ix() == AfterSubmit(old(pb.buf.Ix()), 0)
  {
    pb.ProducerWrites([]);
    pb.InputHandlerDone(0, []);
  }

  /** With more blocks left, there is room for any packet, and the wrap point stays. */
  lemma RoomAhead(b: Indices, inputMtu: int)
    requires 0 <= inputMtu <= INT_MAX && b == Indices(b.size, Blocks(inputMtu), b.size, 0, b.used)
    requires 0 <= b.used < b.size - LAST_RIGHT
    ensures b.Free() == b.size - b.used && 1 + Blocks(inputMtu) <= b.Free()
    ensures if b.Free() == LAST_RIGHT + 1 then ToInt(4 * (b.Free() - 1)) < 0 else AfterSubmit(b, 0) == b.(used := b.used + 1)
  {
  }

  lemma TimesAtLeast(k: int, n: int)
    requires 0 <= k && 1 <= n
    ensures k <= Times(k, n)
  {
    MulMono(1, n, k);
  }

  /** So many blocks hold so many bytes. */
  lemma BlocksFit(n: int, len: int)
    requires 0 <= len
    ensures 4 * n >= len <==> n >= Blocks(len)
  {
  }

  lemma BlocksMono(a: int, b: int)
    requires 0 <= a <= b
    ensures Blocks(a) <= Blocks(b)
  {
  }
}
