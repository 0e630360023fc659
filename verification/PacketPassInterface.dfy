/** The handshake of packet interfaces. */
module PacketPassInterface {
  // Between the sender of packets and their provider: calls, jobs, and the histories they make.

  import opened Jobs
  import opened Sequences

  /** PPI_STATE_NONE, _OPERATION_PENDING, _BUSY and _DONE_PENDING. */
  datatype State = None | OperationPending | Busy | DonePending

  /** The state of an interface as a value. */
  datatype Ppi = Ppi(state: State, cancelRequested: bool, len: int)

  const INITIAL: Ppi := Ppi(None, false, 0)

  // ---------------------------------------------------------------- the steps, as functions

  /** PacketPassInterface_Sender_Send; `op` is the operation job. */
  function SendPpi(i: Ppi, len: int): Ppi {
    Ppi(OperationPending, false, len)
  }

  function SendJobs<J(==, !new)>(jobs: seq<J>, op: J): seq<J> {
    SetJob(jobs, op)
  }

  /** PacketPassInterface_Done. */
  function DonePpi(i: Ppi): Ppi {
    i.(state := DonePending)
  }

  function DoneJobs<J(==, !new)>(jobs: seq<J>, cancel: J, done: J): seq<J> {
    SetJob(Without(jobs, cancel), done)
  }

  /** PacketPassInterface_Sender_RequestCancel. */
  function CancelPpi(i: Ppi): Ppi {
    if i.cancelRequested then i
    else if i.state == OperationPending then i.(cancelRequested := true, state := DonePending)
    else i.(cancelRequested := true)
  }

  function CancelJobs<J(==, !new)>(i: Ppi, jobs: seq<J>, op: J, cancel: J, done: J): seq<J> {
    if i.cancelRequested then jobs
    else if i.state == OperationPending then SetJob(Without(jobs, op), done)
    else if i.state == Busy then SetJob(jobs, cancel)
    else jobs
  }

  /** The three job handlers, up to the calls they make. */
  function OperationRun(i: Ppi): Ppi {
    i.(state := Busy)
  }

  function DoneRun(i: Ppi): Ppi {
    i.(state := None)
  }

  // ---------------------------------------------------------------- what the jobs say of the state

  /** The operation job is pending exactly in OPERATION_PENDING, the done job exactly in
      DONE_PENDING, and a cancel job only in BUSY, after a cancel was requested. */
  ghost predicate Consistent<J(!new)>(i: Ppi, jobs: seq<J>, op: J, cancel: J, done: J) {
    && op != cancel && op != done && cancel != done
    && (op in jobs <==> i.state == OperationPending)
    && (done in jobs <==> i.state == DonePending)
    && (cancel in jobs ==> i.state == Busy && i.cancelRequested)
    && (i.state == OperationPending ==> !i.cancelRequested)
  }

  lemma SendConsistent<J(!new)>(i: Ppi, jobs: seq<J>, op: J, cancel: J, done: J, len: int)
    requires Consistent(i, jobs, op, cancel, done) && i.state == None
    ensures Consistent(SendPpi(i, len), SendJobs(jobs, op), op, cancel, done)
  {
  }

  lemma DoneConsistent<J(!new)>(i: Ppi, jobs: seq<J>, op: J, cancel: J, done: J)
    requires Consistent(i, jobs, op, cancel, done) && i.state == Busy
    ensures Consistent(DonePpi(i), DoneJobs(jobs, cancel, done), op, cancel, done)
  {
  }

  lemma CancelConsistent<J(!new)>(i: Ppi, jobs: seq<J>, op: J, cancel: J, done: J)
    requires Consistent(i, jobs, op, cancel, done) && i.state != None
    ensures Consistent(CancelPpi(i), CancelJobs(i, jobs, op, cancel, done), op, cancel, done)
  {
  }

  /** Running one of its jobs, or a job of somebody else. */
  lemma RunConsistent<J(!new)>(i: Ppi, jobs: seq<J>, op: J, cancel: J, done: J)
    requires Consistent(i, jobs, op, cancel, done) && Once(jobs) && jobs != []
    ensures jobs[0] == op ==> i.state == OperationPending && Consistent(OperationRun(i), jobs[1..], op, cancel, done)
    ensures jobs[0] == done ==> i.state == DonePending && Consistent(DoneRun(i), jobs[1..], op, cancel, done)
    ensures jobs[0] == cancel ==> i.state == Busy && i.cancelRequested && Consistent(i, jobs[1..], op, cancel, done)
    ensures jobs[0] != op && jobs[0] != done && jobs[0] != cancel ==> Consistent(i, jobs[1..], op, cancel, done)
  {
    OnceTail(jobs);
    assert forall j :: j in jobs <==> j == jobs[0] || j in jobs[1..];
  }

  /** Setting or taking back a job of somebody else. */
  lemma OthersConsistent<J(!new)>(i: Ppi, jobs: seq<J>, op: J, cancel: J, done: J, j: J)
    requires Consistent(i, jobs, op, cancel, done) && j != op && j != cancel && j != done
    ensures Consistent(i, SetJob(jobs, j), op, cancel, done) && Consistent(i, Without(jobs, j), op, cancel, done)
  {
  }

  // ---------------------------------------------------------------- histories

  /** What happens at an interface, in order: a send, an effective cancel request, the call of the
      provider's operation, the call of its cancel handler, its call of Done, and the call of the
      sender's done handler. */
  datatype Event = Send(len: int) | Cancel | Operation(len: int) | RequestCancel | Finished | Done

  /** What an interface may do next, and the length of the packet as long as the provider has not
      finished with it. `Dropped` is the way of a packet cancelled before its operation ran: it never
      reaches the provider. */
  datatype Phase = Idle | Posted(n: int) | Working(n: int) | Stopping(n: int) | Stopped(n: int) | Leaving | Dropped | Wrong

  function Step(p: Phase, e: Event): Phase {
    match p
    case Idle => if e.Send? then Posted(e.len) else Wrong
    case Posted(n) => if e == Operation(n) then Working(n) else if e == Cancel then Dropped else Wrong
    case Working(n) => if e == Finished then Leaving else if e == Cancel then Stopping(n) else Wrong
    case Stopping(n) => if e == Finished then Leaving else if e == RequestCancel then Stopped(n) else Wrong
    case Stopped(_) => if e == Finished then Leaving else Wrong
    case Leaving => if e == Done then Idle else if e == Cancel then Leaving else Wrong
    case Dropped => if e == Done then Idle else Wrong
    case Wrong => Wrong
  }

  /** The phase after the events of `t`, starting in phase `p`. */
  function Run(p: Phase, t: seq<Event>): Phase
    decreases |t|
  {
    if t == [] then p else Run(Step(p, t[0]), t[1..])
  }

  function Count(t: seq<Event>, e: Event): nat {
    if t == [] then 0 else (if t[0] == e then 1 else 0) + Count(t[1..], e)
  }

  /** How often the provider was called with a packet. */
  function Operations(t: seq<Event>): nat {
    if t == [] then 0 else (if t[0].Operation? then 1 else 0) + Operations(t[1..])
  }

  ghost predicate NoSend(t: seq<Event>) {
    forall k :: 0 <= k < |t| ==> !t[k].Send?
  }

  ghost predicate NoOperation(t: seq<Event>) {
    forall k :: 0 <= k < |t| ==> !t[k].Operation?
  }

  lemma {:induction false} RunSnoc(p: Phase, t: seq<Event>, e: Event)
    ensures Run(p, t + [e]) == Step(Run(p, t), e)
    decreases |t|
  {
    if t == [] {
      assert (t + [e])[1..] == [];
    } else {
      RunSnoc(Step(p, t[0]), t[1..], e);
      assert (t + [e])[1..] == t[1..] + [e];
    }
  }

  lemma {:induction false} WrongStays(t: seq<Event>)
    ensures Run(Wrong, t) == Wrong
  {
    if t != [] {
      WrongStays(t[1..]);
    }
  }

  lemma TailSlices<T>(t: seq<T>, i: nat, j: nat)
    requires i <= j <= |t| && 0 < j
    ensures t[1..][..j - 1] == t[..j][1..] && (i == 0 ==> t[i..j] == t[..j])
    ensures i > 0 ==> t[1..][..i - 1] == t[..i][1..] && t[1..][i - 1..j - 1] == t[i..j]
  {
  }

  /** Any stretch of a history that never goes wrong starts in some phase and does not go wrong. */
  lemma {:induction false} Stretch(p: Phase, t: seq<Event>, i: nat, j: nat) returns (q: Phase)
    requires Run(p, t) != Wrong && i <= j <= |t|
    ensures q == Run(p, t[..i]) && Run(q, t[i..j]) == Run(p, t[..j]) != Wrong
    decreases |t|
  {
    if j == 0 {
      q := p;
      if p == Wrong {
        WrongStays(t);
      }
    } else {
      if Step(p, t[0]) == Wrong {
        WrongStays(t[1..]);
      }
      TailSlices(t, i, j);
      q := Stretch(Step(p, t[0]), t[1..], if i > 0 then i - 1 else 0, j - 1);
      if i == 0 {
        q := p;
      }
    }
  }

  /** The calls still made from phase `p` on while nothing new is sent. */
  lemma {:induction false} OnePacket(p: Phase, t: seq<Event>)
    requires Run(p, t) != Wrong && NoSend(t)
    ensures Count(t, Done) == if p != Idle && Run(p, t) == Idle then 1 else 0
    ensures Operations(t) <= if p.Posted? then 1 else 0
    ensures Count(t, RequestCancel) <= if p.Posted? || p.Working? || p.Stopping? then 1 else 0
    ensures p == Idle ==> t == []
    decreases |t|
  {
    if t != [] {
      if Step(p, t[0]) == Wrong {
        WrongStays(t[1..]);
      }
      OnePacket(Step(p, t[0]), t[1..]);
    }
  }

  /** A packet is sent only when the interface is idle, and is then on its way. */
  lemma SendAt(t: seq<Event>, i: nat, j: nat)
    requires Run(Idle, t) != Wrong && i < j <= |t| && t[i].Send?
    ensures Run(Idle, t[..i]) == Idle && Run(Idle, t[..i + 1]) == Posted(t[i].len)
    ensures Run(Posted(t[i].len), t[i + 1..j]) == Run(Idle, t[..j]) != Wrong
  {
    var p := Stretch(Idle, t, i, i + 1);
    assert t[..i + 1] == t[..i] + [t[i]];
    RunSnoc(Idle, t[..i], t[i]);
    var q := Stretch(Idle, t, i + 1, j);
  }

  /** Between one send and the next, the sender's done handler is called exactly once, and the
      provider's operation at most once. */
  lemma BetweenSends(t: seq<Event>, i: nat, j: nat)
    requires Run(Idle, t) != Wrong && i < j < |t| && t[i].Send? && t[j].Send? && NoSend(t[i + 1..j])
    ensures Count(t[i + 1..j], Done) == 1 && Operations(t[i + 1..j]) <= 1 && Count(t[i + 1..j], RequestCancel) <= 1
  {
    SendAt(t, i, j);
    SendAt(t, j, j + 1);
    hide Run;
    OnePacket(Posted(t[i].len), t[i + 1..j]);
  }

  /** A cancel that comes before the operation ran keeps the packet from the provider for good. */
  lemma CancelBeforeOperation(t: seq<Event>, i: nat, c: nat, j: nat)
    requires Run(Idle, t) != Wrong && i < c < j <= |t| && t[i].Send? && t[c] == Cancel
    requires NoSend(t[i + 1..j]) && NoOperation(t[i + 1..c])
    ensures NoOperation(t[i + 1..j])
  {
    SendAt(t, i, j);
    hide Run;
    var u := t[i + 1..j];
    assert u[c - i - 1] == Cancel && u[..c - i - 1] == t[i + 1..c];
    NotAfterCancel(u, t[i].len, c - i - 1);
  }

  lemma NotAfterCancel(t: seq<Event>, n: int, c: nat)
    requires Run(Posted(n), t) != Wrong && NoSend(t) && c < |t| && t[c] == Cancel && NoOperation(t[..c])
    ensures NoOperation(t)
  {
    if Step(Posted(n), t[0]) == Wrong {
      WrongStays(t[1..]);
    }
    assert c > 0 ==> t[..c][0] == t[0];
    OnePacket(Dropped, t[1..]);
    NoneCounted(t[1..]);
    assert t == [t[0]] + t[1..];
  }

  lemma {:induction false} NoneCounted(t: seq<Event>)
    requires Operations(t) == 0
    ensures NoOperation(t)
  {
    if t != [] {
      NoneCounted(t[1..]);
      assert t == [t[0]] + t[1..];
    }
  }

  // ---------------------------------------------------------------- lengths

  /** A packet of `n` bytes is with the interface or its provider. */
  predicate Carries(p: Phase, n: int) {
    p == Posted(n) || p == Working(n) || p == Stopping(n) || p == Stopped(n)
  }

  /** A packet that is with the interface or its provider is the one that was sent last. */
  lemma {:induction false} LastSent(t: seq<Event>, n: int) returns (i: nat)
    requires Carries(Run(Idle, t), n)
    ensures i < |t| && t[i] == Send(n) && NoSend(t[i + 1..])
    decreases |t|
  {
    assert t != [];
    var u, e := t[..|t| - 1], t[|t| - 1];
    assert t == u + [e];
    RunSnoc(Idle, u, e);
    hide Run;
    if e.Send? {
      i := |t| - 1;
    } else {
      i := LastSent(u, n);
      assert t[i + 1..] == u[i + 1..] + [e];
    }
  }

  /** The provider is handed the length that was sent last. */
  lemma OperationLength(t: seq<Event>, k: nat) returns (i: nat)
    requires Run(Idle, t) != Wrong && k < |t| && t[k].Operation?
    ensures i < k && t[i] == Send(t[k].len) && NoSend(t[i + 1..k])
  {
    var q := Stretch(Idle, t, k, k + 1);
    assert t[..k + 1] == t[..k] + [t[k]];
    RunSnoc(Idle, t[..k], t[k]);
    i := LastSent(t[..k], t[k].len);
    hide Run;
    assert t[..k][i + 1..] == t[i + 1..k];
  }

  /** The phase a state stands for; whether a packet was dropped is known from the history alone. */
  ghost predicate InPhase(i: Ppi, cancelPending: bool, p: Phase) {
    match i.state
    case None => p == Idle
    case OperationPending => p == Posted(i.len)
    case Busy => p == if !i.cancelRequested then Working(i.len) else if cancelPending then Stopping(i.len) else Stopped(i.len)
    case DonePending => p == Leaving || (p == Dropped && i.cancelRequested)
  }

  /** The state and the pending jobs fit each other and the history. */
  ghost predicate Good<J(!new)>(i: Ppi, jobs: seq<J>, op: J, cancel: J, done: J, t: seq<Event>) {
    Consistent(i, jobs, op, cancel, done) && InPhase(i, cancel in jobs, Run(Idle, t))
  }

  lemma SendGood<J(!new)>(i: Ppi, jobs: seq<J>, op: J, cancel: J, done: J, t: seq<Event>, len: int)
    requires Good(i, jobs, op, cancel, done, t) && i.state == None
    ensures Good(SendPpi(i, len), SendJobs(jobs, op), op, cancel, done, t + [Send(len)])
  {
    SendConsistent(i, jobs, op, cancel, done, len);
    RunSnoc(Idle, t, Send(len));
    hide Run, Without;
  }

  lemma DoneGood<J(!new)>(i: Ppi, jobs: seq<J>, op: J, cancel: J, done: J, t: seq<Event>)
    requires Good(i, jobs, op, cancel, done, t) && i.state == Busy
    ensures Good(DonePpi(i), DoneJobs(jobs, cancel, done), op, cancel, done, t + [Finished])
  {
    DoneConsistent(i, jobs, op, cancel, done);
    RunSnoc(Idle, t, Finished);
    hide Run, Without;
  }

  lemma CancelGood<J(!new)>(i: Ppi, jobs: seq<J>, op: J, cancel: J, done: J, t: seq<Event>)
    requires Good(i, jobs, op, cancel, done, t) && i.state != None && !i.cancelRequested
    ensures Good(CancelPpi(i), CancelJobs(i, jobs, op, cancel, done), op, cancel, done, t + [Cancel])
  {
    CancelConsistent(i, jobs, op, cancel, done);
    RunSnoc(Idle, t, Cancel);
    hide Run, Without;
  }

  /** The call a job's handler makes: to the provider for `Operation` and `RequestCancel`, to the
      sender for `Done`. */
  function CallOf<J(==, !new)>(j: J, op: J, cancel: J, len: int): Event {
    if j == op then Operation(len) else if j == cancel then RequestCancel else Done
  }

  function RunPpi(i: Ppi, call: Event): Ppi {
    if call.Operation? then OperationRun(i) else if call == Done then DoneRun(i) else i
  }

  lemma RunGood<J(!new)>(i: Ppi, jobs: seq<J>, op: J, cancel: J, done: J, t: seq<Event>)
    requires Good(i, jobs, op, cancel, done, t) && Once(jobs) && jobs != [] && jobs[0] in {op, cancel, done}
    ensures var call := CallOf(jobs[0], op, cancel, i.len);
      Good(RunPpi(i, call), jobs[1..], op, cancel, done, t + [call])
  {
    RunConsistent(i, jobs, op, cancel, done);
    OnceTail(jobs);
    RunSnoc(Idle, t, CallOf(jobs[0], op, cancel, i.len));
    hide Run, Once;
    assert cancel in jobs[1..] ==> cancel in jobs;
  }

  // ---------------------------------------------------------------- the interface

  class PacketPassInterface {
    const group: JobList
    const mtu: int
    const hasCancel: bool
    const jobOperation: nat
    const jobRequestCancel: nat
    const jobDone: nat
    var state: State
    var cancelRequested: bool
    var operationLen: int
    ghost var history: seq<Event>

    function Value(): Ppi
      reads this`state, this`cancelRequested, this`operationLen
    {
      Ppi(state, cancelRequested, operationLen)
    }

    ghost predicate Valid()
      reads this, group, group.next, group.prev
    {
      && group.Valid()
      && jobOperation < group.next.Length && jobRequestCancel < group.next.Length && jobDone < group.next.Length
      && Good(Value(), group.jobs, jobOperation, jobRequestCancel, jobDone, history)
    }

    /** The handshake is never broken, so everything said above of histories holds of this one. */
    lemma NeverWrong()
      requires Valid()
      ensures Run(Idle, history) != Wrong
    {
      hide Run;
    }

    /** The length kept is that of the packet sent last, until the provider has finished with it. */
    lemma KeptLength() returns (i: nat)
      requires Valid() && (state == OperationPending || state == Busy)
      ensures i < |history| && history[i] == Send(operationLen) && NoSend(history[i + 1..])
    {
      i := LastSent(history, operationLen);
      hide Run;
    }

    constructor (group: JobList, mtu: int, hasCancel: bool, op: nat, cancel: nat, done: nat)
      requires group.Valid() && op < group.next.Length && cancel < group.next.Length && done < group.next.Length
      requires op != cancel && op != done && cancel != done
      requires op !in group.jobs && cancel !in group.jobs && done !in group.jobs
      ensures Valid() && state == None && history == []
      ensures this.group == group && this.mtu == mtu && this.hasCancel == hasCancel
    {
      this.group, this.mtu, this.hasCancel := group, mtu, hasCancel;
      jobOperation, jobRequestCancel, jobDone := op, cancel, done;
      state, cancelRequested, operationLen, history := None, false, 0, [];
    }

    method SenderSend(len: int)
      requires Valid() && state == None && 0 <= len <= mtu
      modifies this, group, group.next, group.prev
      ensures Valid() && Value() == SendPpi(old(Value()), len) && group.jobs == SendJobs(old(group.jobs), jobOperation)
      ensures history == old(history) + [Send(len)]
    {
      hide Good, Chain, Marked, SetJob, Without;
      SendGood(Value(), group.jobs, jobOperation, jobRequestCancel, jobDone, history, len);
      operationLen := len;
      group.Set(jobOperation);
      state, cancelRequested := OperationPending, false;
      history := history + [Send(len)];
    }

    /** The provider has finished with the packet. */
    method ProviderDone()
      requires Valid() && state == Busy
      modifies this, group, group.next, group.prev
      ensures Valid() && Value() == DonePpi(old(Value()))
      ensures group.jobs == DoneJobs(old(group.jobs), jobRequestCancel, jobDone)
      ensures history == old(history) + [Finished]
    {
      hide Good, Chain, Marked, SetJob, Without;
      DoneGood(Value(), group.jobs, jobOperation, jobRequestCancel, jobDone, history);
      group.Unset(jobRequestCancel);
      group.Set(jobDone);
      state := DonePending;
      history := history + [Finished];
    }

    method SenderRequestCancel()
      requires Valid() && state != None && hasCancel
      modifies this, group, group.next, group.prev
      ensures Valid() && Value() == CancelPpi(old(Value()))
      ensures group.jobs == CancelJobs(old(Value()), old(group.jobs), jobOperation, jobRequestCancel, jobDone)
      ensures history == if old(cancelRequested) then old(history) else old(history) + [Cancel]
    {
      hide Good, Chain, Marked, SetJob, Without;
      if cancelRequested {
        return;
      }
      CancelGood(Value(), group.jobs, jobOperation, jobRequestCancel, jobDone, history);
      cancelRequested := true;
      if state == OperationPending {
        group.Unset(jobOperation);
        group.Set(jobDone);
        state := DonePending;
      } else if state == Busy {
        group.Set(jobRequestCancel);
      }
      history := history + [Cancel];
    }

    /** Runs the first pending job, one of this interface; `call` is the call its handler makes. */
    method RunJob() returns (call: Event)
      requires Valid() && group.jobs != [] && group.jobs[0] in {jobOperation, jobRequestCancel, jobDone}
      modifies this, group, group.next
      ensures Valid() && group.jobs == old(group.jobs)[1..] && history == old(history) + [call]
      ensures call == CallOf(old(group.jobs)[0], jobOperation, jobRequestCancel, old(operationLen))
      ensures Value() == RunPpi(old(Value()), call)
    {
      group.JobsOnce();
      RunGood(Value(), group.jobs, jobOperation, jobRequestCancel, jobDone, history);
      hide Good, Chain, Marked, Once, Run;
      var o := group.TakeJob();
      if o == jobOperation {
        state, call := Busy, Operation(operationLen);
      } else if o == jobRequestCancel {
        call := RequestCancel;
      } else {
        state, call := None, Done;
      }
      history := history + [call];
    }
  }
}
