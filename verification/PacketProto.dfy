/** Packet framing over a byte stream. */
module PacketProto {
  // Each packet stands behind its length in 16 bits, little-endian.

  import opened Bytes

  const HEADER: int := 2

  const MAX_PAYLOAD: int := 0xffff

  // ---------------------------------------------------------------- the protocol

  /** The two header bytes of a length. */
  function Header(len: int): (h: seq<byte>)
    requires 0 <= len <= MAX_PAYLOAD
    ensures |h| == HEADER
  {
    [len % 256, len / 256]
  }

  function Length(h: seq<byte>): (len: int)
    requires |h| >= HEADER
    ensures 0 <= len <= MAX_PAYLOAD
  {
    (h[0] as int) + 256 * (h[1] as int)
  }

  lemma LengthHeader(len: int)
    requires 0 <= len <= MAX_PAYLOAD
    ensures Length(Header(len)) == len
  {
  }

  /** The byte in front is the low one, for who writes it and for who reads it. */
  lemma LittleEndian(h: seq<byte>, len: int)
    requires |h| >= HEADER && 0 <= len <= MAX_PAYLOAD
    ensures Length(h) == len <==> h[0] as int == len % 256 && h[1] as int == len / 256
    ensures h[..HEADER] == Header(len) <==> h[0] as int == len % 256 && h[1] as int == len / 256
  {
  }

  function Encode(p: seq<byte>): seq<byte>
    requires |p| <= MAX_PAYLOAD
  {
    Header(|p|) + p
  }

  ghost predicate Within(ps: seq<seq<byte>>, mtu: int) {
    forall p :: p in ps ==> |p| <= mtu
  }

  function EncodeAll(ps: seq<seq<byte>>): seq<byte>
    requires Within(ps, MAX_PAYLOAD)
  {
    if ps == [] then [] else Encode(ps[0]) + EncodeAll(ps[1..])
  }

  /** What the start of some bytes is: a packet with the rest after it, a packet that is too large,
      or not yet a packet. */
  datatype Parsed = Packet(p: seq<byte>, rest: seq<byte>) | TooLarge | Incomplete

  function Parse(s: seq<byte>, mtu: int): Parsed {
    if |s| < HEADER then Incomplete
    else if Length(s) > mtu then TooLarge
    else if |s| - HEADER < Length(s) then Incomplete
    else Packet(s[HEADER..HEADER + Length(s)], s[HEADER + Length(s)..])
  }

  lemma ParseEncoded(p: seq<byte>, rest: seq<byte>, mtu: int)
    requires |p| <= mtu <= MAX_PAYLOAD
    ensures Parse(Encode(p) + rest, mtu) == Packet(p, rest)
  {
    var s := Encode(p) + rest;
    LengthHeader(|p|);
    assert s[0] == Header(|p|)[0] && s[1] == Header(|p|)[1];
    assert s[HEADER..HEADER + |p|] == p && s[HEADER + |p|..] == rest;
  }

  /** A packet is what its encoding starts with. */
  lemma ParseSound(s: seq<byte>, mtu: int)
    requires mtu <= MAX_PAYLOAD
    ensures Parse(s, mtu).Packet? ==> |Parse(s, mtu).p| <= mtu && s == Encode(Parse(s, mtu).p) + Parse(s, mtu).rest
  {
    if Parse(s, mtu).Packet? {
      var len := Length(s);
      assert Header(len) == s[..HEADER];
      assert s == s[..HEADER] + s[HEADER..HEADER + len] + s[HEADER + len..];
    }
  }

  lemma {:induction false} EncodeAllConcat(ps: seq<seq<byte>>, qs: seq<seq<byte>>)
    requires Within(ps, MAX_PAYLOAD) && Within(qs, MAX_PAYLOAD)
    ensures Within(ps + qs, MAX_PAYLOAD) && EncodeAll(ps + qs) == EncodeAll(ps) + EncodeAll(qs)
  {
    if ps == [] {
      assert ps + qs == qs;
    } else {
      EncodeAllConcat(ps[1..], qs);
      assert (ps + qs)[0] == ps[0] && (ps + qs)[1..] == ps[1..] + qs;
      Regroup(Encode(ps[0]), EncodeAll(ps[1..]), EncodeAll(qs));
    }
  }

  lemma EncodeOne(p: seq<byte>)
    requires |p| <= MAX_PAYLOAD
    ensures EncodeAll([p]) == Encode(p)
  {
    assert [p][1..] == [] && Encode(p) + [] == Encode(p);
  }

  // ---------------------------------------------------------------- the decoder, as a machine

  /** The bytes received and not yet part of a packet, the packets given to the output, whether one
      of them is still being sent, and how often an error was reported. */
  datatype State = State(pending: seq<byte>, emitted: seq<seq<byte>>, sending: bool, errors: nat)

  const INITIAL: State := State([], [], false, 0)

  /** process_data */
  function Process(mtu: int, d: State): State {
    match Parse(d.pending, mtu)
    case Packet(p, rest) => State(rest, d.emitted + [p], true, d.errors)
    case TooLarge => State([], d.emitted, false, d.errors + 1)
    case Incomplete => d.(sending := false)
  }

  /** Some bytes come in; the output has sent its packet; the buffer is cleared. */
  datatype Event = Chunk(bytes: seq<byte>) | Sent | Reset

  predicate Enabled(d: State, e: Event) {
    match e
    case Chunk(bytes) => !d.sending && bytes != []
    case Sent => d.sending
    case Reset => true
  }

  function Step(mtu: int, d: State, e: Event): State {
    match e
    case Chunk(bytes) => Process(mtu, d.(pending := d.pending + bytes))
    case Sent => Process(mtu, d)
    case Reset => d.(pending := [])
  }

  ghost predicate Possible(mtu: int, d: State, t: seq<Event>)
    decreases |t|
  {
    t == [] || (Enabled(d, t[0]) && Possible(mtu, Step(mtu, d, t[0]), t[1..]))
  }

  function Run(mtu: int, d: State, t: seq<Event>): State
    decreases |t|
  {
    if t == [] then d else Run(mtu, Step(mtu, d, t[0]), t[1..])
  }

  /** All the bytes that come in during the run. */
  function Received(t: seq<Event>): seq<byte> {
    if t == [] then [] else (if t[0].Chunk? then t[0].bytes else []) + Received(t[1..])
  }

  // ---------------------------------------------------------------- the round trip

  /** What may follow the packets of a stream: nothing, or the header of a packet that is too large
      and whatever comes behind it. */
  predicate Tail(bad: seq<byte>, mtu: int) {
    bad == [] || Parse(bad, mtu) == TooLarge
  }

  /** Since `k` packets had been emitted and `n` errors reported, there was no other error, the bytes
      are the packets and what is pending; when nothing is being sent, no whole packet is pending. */
  ghost predicate Faithful(mtu: int, k: nat, n: nat, d: State, received: seq<byte>)
    requires 0 <= mtu <= MAX_PAYLOAD
  {
    && d.errors == n && k <= |d.emitted| && Within(d.emitted[k..], mtu)
    && received == EncodeAll(d.emitted[k..]) + d.pending
    && (!d.sending ==> Parse(d.pending, mtu) == Incomplete)
  }

  lemma EncodeAllFirst(ps: seq<seq<byte>>)
    requires Within(ps, MAX_PAYLOAD)
    ensures ps == [] ==> EncodeAll(ps) == []
    ensures ps != [] ==> |EncodeAll(ps)| >= HEADER && EncodeAll(ps) == Encode(ps[0]) + EncodeAll(ps[1..])
  {
  }

  lemma SplitFirst(a: seq<byte>, b: seq<byte>, d: seq<byte>, rest: seq<byte>)
    ensures (a + b) + d + rest == a + (b + d + rest)
  {
  }

  lemma SliceCons(em: seq<seq<byte>>, ps: seq<seq<byte>>)
    requires em != [] && ps != [] && em[0] == ps[0] && |em[1..]| <= |ps[1..]| && em[1..] == ps[1..][..|em[1..]|]
    ensures em == ps[..|em|] && ps[1..][|em[1..]|..] == ps[|em|..]
  {
    assert em == [em[0]] + em[1..] && ps == [ps[0]] + ps[1..];
  }

  lemma NoPackets(bad: seq<byte>)
    ensures EncodeAll([]) + bad == bad
  {
  }

  /** Of a stream of allowed packets, the packets so far are the first ones, and the rest of the
      stream begins with what is pending. */
  lemma {:induction false} FirstPackets(em: seq<seq<byte>>, d: seq<byte>, rest: seq<byte>, ps: seq<seq<byte>>, bad: seq<byte>, mtu: int)
    requires mtu <= MAX_PAYLOAD && Within(em, mtu) && Within(ps, mtu) && Tail(bad, mtu)
    requires EncodeAll(em) + d + rest == EncodeAll(ps) + bad
    ensures |em| <= |ps| && em == ps[..|em|] && d + rest == EncodeAll(ps[|em|..]) + bad
  {
    EncodeAllFirst(em);
    EncodeAllFirst(ps);
    if em == [] {
      assert EncodeAll(em) + d + rest == d + rest;
      assert ps[..0] == [] && ps[0..] == ps;
    } else {
      hide EncodeAll, Encode, Parse;
      var r := EncodeAll(em[1..]) + d + rest;
      SplitFirst(Encode(em[0]), EncodeAll(em[1..]), d, rest);
      ParseEncoded(em[0], r, mtu);
      NoPackets(bad);
      if ps != [] {
        ParseEncoded(ps[0], EncodeAll(ps[1..]) + bad, mtu);
        Regroup(Encode(ps[0]), EncodeAll(ps[1..]), bad);
        FirstPackets(em[1..], d, rest, ps[1..], bad, mtu);
        SliceCons(em, ps);
      }
    }
  }

  /** A beginning of a stream is an error only if what is too large comes first; if it is the whole
      rest and not yet a packet, nothing is left. */
  lemma NoError(d: seq<byte>, rest: seq<byte>, qs: seq<seq<byte>>, bad: seq<byte>, mtu: int)
    requires 0 <= mtu <= MAX_PAYLOAD && Within(qs, mtu) && Tail(bad, mtu) && d + rest == EncodeAll(qs) + bad
    ensures Parse(d, mtu) == TooLarge ==> qs == [] && bad != []
    ensures rest == [] && Parse(d, mtu) == Incomplete ==> d == [] && qs == [] && bad == []
  {
    var s := d + rest;
    if |d| >= HEADER {
      assert s[0] == d[0] && s[1] == d[1];
      assert Length(d) == Length(s);
    }
    if rest == [] {
      assert d == s;
    }
    if qs != [] {
      ParseEncoded(qs[0], EncodeAll(qs[1..]) + bad, mtu);
      Regroup(Encode(qs[0]), EncodeAll(qs[1..]), bad);
      hide Encode, EncodeAll;
    } else {
      assert EncodeAll(qs) + bad == bad;
    }
  }

  /** One look at the pending bytes, if they do not begin with a bad header. */
  lemma LookFaithful(mtu: int, k: nat, n: nat, d: State, received: seq<byte>)
    requires 0 <= mtu <= MAX_PAYLOAD && d.errors == n && k <= |d.emitted| && Within(d.emitted[k..], mtu)
    requires received == EncodeAll(d.emitted[k..]) + d.pending && Parse(d.pending, mtu) != TooLarge
    ensures Faithful(mtu, k, n, Process(mtu, d), received)
  {
    var em := d.emitted[k..];
    if Parse(d.pending, mtu).Packet? {
      ParseSound(d.pending, mtu);
      hide Parse;
      var p, r := Parse(d.pending, mtu).p, Parse(d.pending, mtu).rest;
      assert (d.emitted + [p])[k..] == em + [p];
      EncodeAllConcat(em, [p]);
      EncodeOne(p);
      Regroup(EncodeAll(em), Encode(p), r);
    }
    hide EncodeAll, Encode, Parse;
  }

  /** One look at the pending bytes: they stay faithful, or all packets have been emitted and the bad
      header is reported. */
  lemma ProcessFaithful(mtu: int, k: nat, n: nat, d: State, received: seq<byte>, rest: seq<byte>, ps: seq<seq<byte>>, bad: seq<byte>)
    requires 0 <= mtu <= MAX_PAYLOAD && Within(ps, mtu) && Tail(bad, mtu) && received + rest == EncodeAll(ps) + bad
    requires d.errors == n && k <= |d.emitted| && Within(d.emitted[k..], mtu) && received == EncodeAll(d.emitted[k..]) + d.pending
    ensures if Process(mtu, d).errors == n then Faithful(mtu, k, n, Process(mtu, d), received)
            else Reported(d.emitted[..k], n, Process(mtu, d), ps) && bad != []
  {
    hide EncodeAll, Parse, Faithful;
    var em := d.emitted[k..];
    if Parse(d.pending, mtu) == TooLarge {
      FirstPackets(em, d.pending, rest, ps, bad, mtu);
      NoError(d.pending, rest, ps[|em|..], bad, mtu);
      assert ps[..|em|] == ps && d.emitted == d.emitted[..k] + em;
    } else {
      LookFaithful(mtu, k, n, d, received);
    }
  }

  /** One more error has been reported, with exactly the packets `ps` emitted since `base`. */
  predicate Reported(base: seq<seq<byte>>, n: nat, d: State, ps: seq<seq<byte>>) {
    d.errors == n + 1 && d.emitted == base + ps && d.pending == [] && !d.sending
  }

  /** A run without a reset over a stream: either it is faithful to its end, or the stream has a bad
      header, and at some point of the run that is reported. */
  ghost predicate RunsTo(mtu: int, k: nat, n: nat, base: seq<seq<byte>>, d: State, received: seq<byte>, t: seq<Event>,
                         ps: seq<seq<byte>>, bad: seq<byte>)
    requires 0 <= mtu <= MAX_PAYLOAD
  {
    || Faithful(mtu, k, n, Run(mtu, d, t), received + Received(t))
    || (bad != [] && exists j :: 0 <= j <= |t| && Reported(base, n, Run(mtu, d, t[..j]), ps))
  }

  lemma {:induction false} RunFaithful(mtu: int, k: nat, n: nat, base: seq<seq<byte>>, d: State, received: seq<byte>, t: seq<Event>,
                                       rest: seq<byte>, ps: seq<seq<byte>>, bad: seq<byte>)
    requires 0 <= mtu <= MAX_PAYLOAD && Within(ps, mtu) && Tail(bad, mtu) && Possible(mtu, d, t) && Reset !in t
    requires Faithful(mtu, k, n, d, received) && base == d.emitted[..k]
    requires received + Received(t) + rest == EncodeAll(ps) + bad
    ensures RunsTo(mtu, k, n, base, d, received, t, ps, bad)
    decreases |t|
  {
    if t == [] {
      assert received + Received(t) == received;
    } else {
      StepFaithful(mtu, k, n, d, received, t, rest, ps, bad);
      var c := if t[0].Chunk? then t[0].bytes else [];
      var d' := Step(mtu, d, t[0]);
      assert received + Received(t) == (received + c) + Received(t[1..]);
      hide EncodeAll, Parse, Faithful, Received, Step;
      if d'.errors == n {
        assert forall e :: e in t[1..] ==> e in t;
        KeepsBase(mtu, d, t[0], k);
        RunFaithful(mtu, k, n, base, d', received + c, t[1..], rest, ps, bad);
        if j :| 0 <= j <= |t[1..]| && Reported(base, n, Run(mtu, d', t[1..][..j]), ps) && bad != [] {
          assert t[..j + 1][1..] == t[1..][..j];
          assert Run(mtu, d, t[..j + 1]) == Run(mtu, d', t[1..][..j]);
        }
      } else {
        assert t[..1][1..] == [];
        assert Run(mtu, d, t[..1]) == d';
      }
    }
  }

  lemma KeepsBase(mtu: int, d: State, e: Event, k: nat)
    requires k <= |d.emitted|
    ensures |d.emitted| <= |Step(mtu, d, e).emitted| && Step(mtu, d, e).emitted[..k] == d.emitted[..k]
  {
  }

  lemma StepFaithful(mtu: int, k: nat, n: nat, d: State, received: seq<byte>, t: seq<Event>,
                     rest: seq<byte>, ps: seq<seq<byte>>, bad: seq<byte>)
    requires 0 <= mtu <= MAX_PAYLOAD && Within(ps, mtu) && Tail(bad, mtu) && t != [] && t[0] != Reset
    requires Faithful(mtu, k, n, d, received) && received + Received(t) + rest == EncodeAll(ps) + bad
    ensures var c := (if t[0].Chunk? then t[0].bytes else []); var d' := Step(mtu, d, t[0]);
      if d'.errors == n then Faithful(mtu, k, n, d', received + c) else Reported(d.emitted[..k], n, d', ps) && bad != []
    ensures var c := (if t[0].Chunk? then t[0].bytes else []); (received + c) + Received(t[1..]) == received + Received(t)
  {
    hide EncodeAll, Parse, Process, Reported, Tail;
    var c := if t[0].Chunk? then t[0].bytes else [];
    var d1, e := d.(pending := d.pending + c), EncodeAll(d.emitted[k..]);
    StepBytes(received, t, c, rest, e, d.pending);
    assert d1.pending == d.pending + c && d1.emitted == d.emitted;
    ProcessFaithful(mtu, k, n, d1, received + c, Received(t[1..]) + rest, ps, bad);
    hide Faithful, Received;
    StepIsLook(mtu, d, t[0]);
  }

  lemma StepBytes(received: seq<byte>, t: seq<Event>, c: seq<byte>, rest: seq<byte>, e: seq<byte>, pending: seq<byte>)
    requires t != [] && c == (if t[0].Chunk? then t[0].bytes else []) && received == e + pending
    ensures (received + c) + Received(t[1..]) == received + Received(t)
    ensures (received + c) + (Received(t[1..]) + rest) == received + Received(t) + rest
    ensures received + c == e + (pending + c)
  {
    var r := Received(t[1..]);
    Regroup(received, c, r);
    Regroup(received + c, r, rest);
    Regroup(e, pending, c);
  }

  /** A step other than a reset is a look at what is then pending. */
  lemma StepIsLook(mtu: int, d: State, e: Event)
    requires e != Reset
    ensures Step(mtu, d, e) == Process(mtu, d.(pending := d.pending + if e.Chunk? then e.bytes else []))
  {
    hide Process;
    assert d.pending + [] == d.pending;
  }

  /** A decoder with nothing pending: a new one, or one that was reset or has reported an error. */
  lemma StartFaithful(mtu: int, d: State)
    requires 0 <= mtu <= MAX_PAYLOAD && d.pending == []
    ensures Faithful(mtu, |d.emitted|, d.errors, d, []) && d.emitted[..|d.emitted|] == d.emitted
  {
    assert d.emitted[|d.emitted|..] == [];
  }

  /** For every list of allowed packets, however its encoding is cut into chunks: no error is
      reported, what is emitted is always the first packets, and once everything has come in and
      nothing is being sent, it is all of them. So it is for a new decoder, and for one that has been
      reset or has reported an error, whatever came before. */
  lemma RoundTrip(mtu: int, d0: State, t: seq<Event>, rest: seq<byte>, ps: seq<seq<byte>>)
    requires 0 <= mtu <= MAX_PAYLOAD && Within(ps, mtu) && d0.pending == [] && Possible(mtu, d0, t) && Reset !in t
    requires Received(t) + rest == EncodeAll(ps)
    ensures var d := Run(mtu, d0, t); var m := |d.emitted| - |d0.emitted|;
      && d.errors == d0.errors && 0 <= m <= |ps| && d.emitted == d0.emitted + ps[..m]
      && (rest == [] && !d.sending ==> d.emitted == d0.emitted + ps && d.pending == [])
  {
    hide Received, EncodeAll, Parse, Run, Possible, Faithful;
    assert [] + Received(t) == Received(t) && EncodeAll(ps) + [] == EncodeAll(ps);
    StartFaithful(mtu, d0);
    RunFaithful(mtu, |d0.emitted|, d0.errors, d0.emitted, d0, [], t, rest, ps, []);
    RunBase(mtu, d0, t);
    FaithfulPrefix(mtu, |d0.emitted|, d0.errors, Run(mtu, d0, t), Received(t), rest, ps, []);
  }

  /** If a packet that is too large follows: either no error has been reported yet, the packets are
      the first ones, and the decoder is still busy or waits for more; or exactly all packets before it
      had been emitted when the error was reported. */
  lemma BadHeader(mtu: int, d0: State, t: seq<Event>, rest: seq<byte>, ps: seq<seq<byte>>, bad: seq<byte>)
    requires 0 <= mtu <= MAX_PAYLOAD && Within(ps, mtu) && d0.pending == [] && Possible(mtu, d0, t) && Reset !in t
    requires Parse(bad, mtu) == TooLarge && Received(t) + rest == EncodeAll(ps) + bad
    ensures var d := Run(mtu, d0, t); var m := |d.emitted| - |d0.emitted|;
      || (d.errors == d0.errors && 0 <= m <= |ps| && d.emitted == d0.emitted + ps[..m] && (rest == [] ==> d.sending))
      || exists j :: 0 <= j <= |t| && Reported(d0.emitted, d0.errors, Run(mtu, d0, t[..j]), ps)
  {
    hide Received, EncodeAll, Run, Possible, Faithful;
    assert [] + Received(t) == Received(t) && bad != [];
    StartFaithful(mtu, d0);
    RunFaithful(mtu, |d0.emitted|, d0.errors, d0.emitted, d0, [], t, rest, ps, bad);
    RunBase(mtu, d0, t);
    if Faithful(mtu, |d0.emitted|, d0.errors, Run(mtu, d0, t), Received(t)) {
      FaithfulPrefix(mtu, |d0.emitted|, d0.errors, Run(mtu, d0, t), Received(t), rest, ps, bad);
    }
  }

  /** What has been emitted stays emitted. */
  lemma {:induction false} RunBase(mtu: int, d: State, t: seq<Event>)
    ensures |d.emitted| <= |Run(mtu, d, t).emitted| && Run(mtu, d, t).emitted[..|d.emitted|] == d.emitted
    decreases |t|
  {
    if t != [] {
      KeepsBase(mtu, d, t[0], |d.emitted|);
      hide Step;
      var d' := Step(mtu, d, t[0]);
      RunBase(mtu, d', t[1..]);
      var e := Run(mtu, d', t[1..]).emitted;
      assert e[..|d.emitted|] == e[..|d'.emitted|][..|d.emitted|];
    }
  }

  /** The packets so far are the first ones; at the end of the stream they are all of them. */
  lemma FirstOrAll(em: seq<seq<byte>>, d: seq<byte>, rest: seq<byte>, ps: seq<seq<byte>>, bad: seq<byte>, mtu: int)
    requires 0 <= mtu <= MAX_PAYLOAD && Within(em, mtu) && Within(ps, mtu) && Tail(bad, mtu)
    requires EncodeAll(em) + d + rest == EncodeAll(ps) + bad
    ensures |em| <= |ps| && em == ps[..|em|]
    ensures rest == [] && Parse(d, mtu) == Incomplete ==> em == ps && d == [] && bad == []
  {
    hide EncodeAll, Parse, Tail;
    FirstPackets(em, d, rest, ps, bad, mtu);
    NoError(d, rest, ps[|em|..], bad, mtu);
  }

  lemma FaithfulPrefix(mtu: int, k: nat, n: nat, d: State, received: seq<byte>, rest: seq<byte>, ps: seq<seq<byte>>, bad: seq<byte>)
    requires 0 <= mtu <= MAX_PAYLOAD && Within(ps, mtu) && Tail(bad, mtu)
    requires Faithful(mtu, k, n, d, received) && received + rest == EncodeAll(ps) + bad
    ensures d.errors == n && k <= |d.emitted| <= k + |ps| && d.emitted == d.emitted[..k] + ps[..|d.emitted| - k]
    ensures rest == [] && !d.sending ==> d.emitted == d.emitted[..k] + ps && d.pending == [] && bad == []
  {
    hide EncodeAll, Parse, Tail, Within;
    FirstOrAll(d.emitted[k..], d.pending, rest, ps, bad, mtu);
    assert d.emitted == d.emitted[..k] + d.emitted[k..];
  }

  /** Every run, of whatever bytes and with whatever resets: since the last reset or error, the bytes
      received are the packets emitted and what is pending. */
  datatype Mark = Mark(count: nat, bytes: seq<byte>)

  function Follow(mtu: int, d: State, m: Mark, e: Event): Mark {
    var d' := Step(mtu, d, e);
    if e.Reset? || d'.errors != d.errors then Mark(|d'.emitted|, [])
    else if e.Chunk? then m.(bytes := m.bytes + e.bytes)
    else m
  }

  function MarkOf(mtu: int, d: State, m: Mark, t: seq<Event>): Mark
    decreases |t|
  {
    if t == [] then m else MarkOf(mtu, Step(mtu, d, t[0]), Follow(mtu, d, m, t[0]), t[1..])
  }

  lemma {:induction false} AnyRun(mtu: int, d: State, m: Mark, t: seq<Event>)
    requires 0 <= mtu <= MAX_PAYLOAD && Possible(mtu, d, t) && Faithful(mtu, m.count, d.errors, d, m.bytes)
    ensures var d', m' := Run(mtu, d, t), MarkOf(mtu, d, m, t); Faithful(mtu, m'.count, d'.errors, d', m'.bytes)
    decreases |t|
  {
    if t != [] {
      AnyStep(mtu, d, m, t[0]);
      hide Faithful, Step, Follow;
      AnyRun(mtu, Step(mtu, d, t[0]), Follow(mtu, d, m, t[0]), t[1..]);
    }
  }

  lemma AnyStep(mtu: int, d: State, m: Mark, e: Event)
    requires 0 <= mtu <= MAX_PAYLOAD && Enabled(d, e) && Faithful(mtu, m.count, d.errors, d, m.bytes)
    ensures var d', m' := Step(mtu, d, e), Follow(mtu, d, m, e); Faithful(mtu, m'.count, d'.errors, d', m'.bytes)
  {
    hide EncodeAll, Parse;
    var d', c := Step(mtu, d, e), if e.Chunk? then e.bytes else [];
    var d1 := d.(pending := d.pending + c);
    if e.Reset? || Parse(d1.pending, mtu) == TooLarge {
      assert d.pending + [] == d.pending;
      StartFaithful(mtu, d');
    } else {
      assert d.pending + [] == d.pending && m.bytes + [] == m.bytes;
      Regroup(EncodeAll(d.emitted[m.count..]), d.pending, c);
      LookFaithful(mtu, m.count, d.errors, d1, m.bytes + c);
      assert d' == Process(mtu, d1);
    }
  }

  // ---------------------------------------------------------------- the decoder, in place

  lemma ParseIncompleteFits(d: seq<byte>, mtu: int)
    requires Parse(d, mtu) == Incomplete && 0 <= mtu
    ensures |d| < HEADER + mtu || |d| < HEADER
  {
  }

  lemma ParseWhole(d: seq<byte>, mtu: int)
    requires HEADER <= |d| && Length(d) <= mtu && Length(d) <= |d| - HEADER
    ensures var len := Length(d); Parse(d, mtu) == Packet(d[HEADER..HEADER + len], d[HEADER + len..])
  {
  }

  lemma Slices(s: seq<byte>, a: nat, b: nat, i: nat, j: nat)
    requires a <= b <= |s| && i <= j <= b - a
    ensures s[a..b][i..j] == s[a + i..a + j] && s[a..b][j..] == s[a + j..b]
  {
    var t := s[a..b];
    forall k | 0 <= k < j - i ensures t[i..j][k] == s[a + i..a + j][k] {
    }
    assert t[i..j] == s[a + i..a + j];
    forall k | 0 <= k < |t| - j ensures t[j..][k] == s[a + j..b][k] {
    }
    assert t[j..] == s[a + j..b];
  }

  class PacketProtoDecoder {
    const buf: array<byte>
    const outputMtu: int
    const bufSize: int
    var bufStart: int
    var bufUsed: int
    /** The receive that is outstanding when no packet is being sent. */
    var recvPos: int
    var recvAvail: int
    /** The packet that is being sent. */
    var sendPos: int
    var sendLen: int
    var sending: bool
    var errors: nat
    ghost var emitted: seq<seq<byte>>

    ghost predicate Inside()
      reads this
    {
      && 0 <= outputMtu <= MAX_PAYLOAD && bufSize == HEADER + outputMtu == buf.Length
      && 0 <= bufStart && 0 <= bufUsed && bufStart + bufUsed <= bufSize
    }

    ghost function Data(): seq<byte>
      requires Inside()
      reads this, buf
    {
      buf[bufStart..bufStart + bufUsed]
    }

    /** Every receive is for a positive number of bytes inside the buffer, behind the stored ones;
        the packet being sent lies in front of them. */
    ghost predicate Valid()
      reads this, buf
    {
      && Inside()
      && (!sending ==> recvPos == bufStart + bufUsed && 0 < recvAvail == bufSize - recvPos && Parse(Data(), outputMtu) == Incomplete)
      && (sending ==> SentPacket())
    }

    ghost predicate SentPacket()
      requires Inside()
      reads this, buf
    {
      && 0 <= sendPos && 0 <= sendLen && sendPos + sendLen <= bufStart
      && emitted != [] && buf[sendPos..sendPos + sendLen] == emitted[|emitted| - 1]
    }

    ghost function Value(): State
      requires Inside()
      reads this, buf
    {
      State(Data(), emitted, sending, errors)
    }

    constructor (buf: array<byte>, mtu: int)
      requires 0 <= mtu && buf.Length == HEADER + (if mtu < MAX_PAYLOAD then mtu else MAX_PAYLOAD)
      ensures Valid() && Value() == INITIAL && this.buf == buf
      ensures outputMtu == if mtu < MAX_PAYLOAD then mtu else MAX_PAYLOAD
    {
      this.buf := buf;
      outputMtu := if mtu < MAX_PAYLOAD then mtu else MAX_PAYLOAD;
      bufSize := buf.Length;
      bufStart, bufUsed, recvPos, recvAvail := 0, 0, 0, buf.Length;
      sendPos, sendLen, sending, errors, emitted := 0, 0, false, 0, [];
    }

    /** process_data */
    method ProcessData()
      requires Inside()
      modifies this`bufStart, this`bufUsed, this`recvPos, this`recvAvail, this`sendPos, this`sendLen, this`sending, this`errors,
               this`emitted, buf
      ensures Valid() && Value() == Process(outputMtu, old(Value()))
    {
      ghost var d := Data();
      var wasError := false;
      if bufUsed >= HEADER {
        var len := Length([buf[bufStart], buf[bufStart + 1]]);
        assert d[0] == buf[bufStart] && d[1] == buf[bufStart + 1];
        assert len == Length(d);
        if len > outputMtu {
          wasError := true;
        } else if bufUsed - HEADER >= len {
          SendPacket(len, d);
          return;
        }
      }
      assert Parse(d, outputMtu) == if wasError then TooLarge else Incomplete;
      if wasError {
        bufStart, bufUsed := 0, 0;
      } else {
        ParseIncompleteFits(d, outputMtu);
        WrapAround(d);
      }
      recvPos := bufStart + bufUsed;
      recvAvail := bufSize - (bufStart + bufUsed);
      sending := false;
      if wasError {
        errors := errors + 1;
      }
    }

    /** The first whole packet is handed to the output. */
    method SendPacket(len: int, ghost d: seq<byte>)
      requires Inside() && d == Data() && HEADER <= |d| && 0 <= len == Length(d) <= outputMtu && len <= |d| - HEADER
      modifies this`bufStart, this`bufUsed, this`sendPos, this`sendLen, this`sending, this`emitted
      ensures Valid() && Value() == Process(outputMtu, old(Value()))
    {
      hide Parse, Length;
      ParseWhole(d, outputMtu);
      Slices(buf[..], bufStart, bufStart + bufUsed, HEADER, HEADER + len);
      assert buf[..][bufStart..bufStart + bufUsed] == d;
      sendPos, sendLen := bufStart + HEADER, len;
      bufStart, bufUsed := bufStart + HEADER + len, bufUsed - (HEADER + len);
      sending := true;
      emitted := emitted + [buf[sendPos..sendPos + len]];
    }

    /** At the end of the buffer, the bytes move to its front. */
    method WrapAround(ghost d: seq<byte>)
      requires Inside() && d == Data() && |d| < bufSize
      modifies this`bufStart, buf
      ensures Inside() && Data() == d && bufStart + bufUsed < bufSize
    {
      if bufStart + bufUsed == bufSize {
        forall k | 0 <= k < bufUsed {
          buf[k] := buf[bufStart + k];
        }
        bufStart := 0;
        assert buf[0..bufUsed] == d;
      }
    }

    /** The input's provider has written some bytes and is done: input_handler_done. */
    method InputHandlerDone(chunk: seq<byte>)
      requires Valid() && !sending && 0 < |chunk| <= recvAvail
      modifies this, buf
      ensures Valid() && Value() == Step(outputMtu, old(Value()), Chunk(chunk))
    {
      ghost var d := Data();
      forall k | 0 <= k < |chunk| {
        buf[recvPos + k] := chunk[k];
      }
      bufUsed := bufUsed + |chunk|;
      assert Data() == d + chunk;
      ProcessData();
    }

    method OutputHandlerDone()
      requires Valid() && sending
      modifies this, buf
      ensures Valid() && Value() == Step(outputMtu, old(Value()), Sent)
    {
      ProcessData();
    }

    /** PacketProtoDecoder_Reset: what comes in next is the beginning of a packet. An outstanding
        receive stays where it is. */
    method Clear()
      requires Valid()
      modifies this`bufStart, this`bufUsed
      ensures Valid() && Value() == Step(outputMtu, old(Value()), Reset)
    {
      bufStart := bufStart + bufUsed;
      bufUsed := 0;
    }
  }

  // ---------------------------------------------------------------- the encoder, in place

  class PacketProtoEncoder {
    /** Where the output wants the next packet, if it wants one. */
    var outputPacket: array?<byte>

    constructor ()
      ensures outputPacket == null
    {
      outputPacket := null;
    }

    /** output_handler_recv: the input is asked for a packet, behind the room for the header. */
    method OutputHandlerRecv(data: array<byte>) returns (where: int)
      requires outputPacket == null
      modifies this
      ensures outputPacket == data && where == HEADER
    {
      outputPacket := data;
      where := HEADER;
    }

    /** input_handler_done: the input has written `len` bytes there. */
    method InputHandlerDone(len: int) returns (packet: array<byte>, total: int)
      requires outputPacket != null && 0 <= len <= MAX_PAYLOAD && HEADER + len <= outputPacket.Length
      modifies this, outputPacket
      ensures packet == old(outputPacket) && outputPacket == null && total == HEADER + len
      ensures packet[..total] == Encode(old(outputPacket[HEADER..HEADER + len]))
      ensures packet[0] as int == len % 256 && packet[1] as int == len / 256 && Length(packet[..]) == len
      ensures packet[total..] == old(outputPacket[HEADER + len..])
    {
      packet := outputPacket;
      ghost var p := packet[HEADER..HEADER + len];
      packet[0], packet[1] := len % 256, len / 256;
      outputPacket := null;
      total := HEADER + len;
      assert packet[..total] == Header(len) + p;
    }

    /** One packet through the encoder: what the input writes where it is asked to is what a decoder
        reads. */
    method Pass(data: array<byte>, payload: seq<byte>) returns (packet: array<byte>, total: int)
      requires outputPacket == null && |payload| <= MAX_PAYLOAD && HEADER + |payload| <= data.Length
      modifies this, data
      ensures outputPacket == null && packet == data && total == HEADER + |payload|
      ensures forall rest, mtu :: |payload| <= mtu <= MAX_PAYLOAD ==> Parse(packet[..total] + rest, mtu) == Packet(payload, rest)
    {
      var at := OutputHandlerRecv(data);
      forall i | 0 <= i < |payload| {
        data[at + i] := payload[i];
      }
      assert data[HEADER..HEADER + |payload|] == payload;
      packet, total := InputHandlerDone(|payload|);
      forall rest, mtu | |payload| <= mtu <= MAX_PAYLOAD ensures Parse(packet[..total] + rest, mtu) == Packet(payload, rest) {
        ParseEncoded(payload, rest, mtu);
      }
    }
  }
}
