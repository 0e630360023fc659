/** The fair queue: whose length is sent and charged. */
module FairLengths {
  // Every length on the way through the queue is that of a send, over whole runs.

  import opened Sequences
  import opened FairQueue
  import Jobs
  import opened FairSystem
  import opened FairRuns
  import P = PacketPassInterface

  // ---------------------------------------------------------------- on the way through the queue

  ghost predicate QueuedLen(s: Sys, f: nat) {
    f in s.q.data && f in s.ins && s.q.data[f].isQueued ==> s.q.data[f].len == s.ins[f].len
  }

  /** A queued flow has the length of its input; the length in service is that of the input of the flow in
      service, and the output has the same. */
  ghost predicate LensOk(s: Sys) {
    && (forall f: nat :: QueuedLen(s, f))
    && (s.q.sending != NULL && s.q.sending in s.ins ==> s.q.sendingLen == s.ins[s.q.sending].len)
    && (!s.q.freeing && !s.out.state.None? ==> s.out.len == s.q.sendingLen)
  }

  lemma StartLens(maxTime: int, weight: int, mtu: int)
    requires 0 < weight && 0 <= mtu && mtu + weight <= maxTime < TWO64
    ensures LensOk(Start(maxTime, weight, mtu))
  {
  }

  lemma ScheduleLens(s: Sys)
    requires SysInv(s) && Enabled(s, RunJob) && s.jobs[0] == ScheduleNext && LensOk(s)
    ensures LensOk(Next(s, RunJob))
  {
    hide Once, InsOk, Sizes, Listed, Served, Comparator;
    JobReady(s);
    var s' := Next(s, RunJob);
    if s.q.queued != [] {
      var f := s.q.queued[0];
      assert f in s.q.queued && QueuedLen(s, f);
    }
    forall g: nat ensures QueuedLen(s', g) {
      assert QueuedLen(s, g);
    }
  }

  /** Where the length of a flow's packet is kept, and what the flow in service is charged. */
  lemma AcceptedLens(q: Queue, f: nat, len: int, pending: bool)
    requires Inv(q) && f in q.data && f != q.sending && !q.data[f].isQueued && 0 <= len <= q.mtu
    requires q.previous != NULL ==> pending
    ensures var q' := InputSend(q, f, len, pending);
      && (forall g :: g in q'.data ==> g in q.data && q'.data[g].len == if g == f then len else q.data[g].len)
      && (forall g :: g in q'.data && g != f && q'.data[g].isQueued ==> q.data[g].isQueued)
      && (q.sending == NULL && !pending ==> q'.sending in q'.data && q'.sendingLen == q'.data[q'.sending].len)
      && (q.sending == NULL && !pending && q'.sending != f ==> q'.sending in q.queued)
      && (!(q.sending == NULL && !pending) ==> q'.sendingLen == q.sendingLen && q'.sending == q.sending)
  {
    hide Sizes, Listed, Served, Comparator, Once, CompareFlows, CurrentTime;
    EnqueuedFirst(Raised(q, f), f, len);
    if q.queued != [] {
      assert q.queued[0] in q.queued;
    }
  }

  lemma AcceptLens(s: Sys)
    requires SysInv(s) && Enabled(s, RunJob) && s.jobs[0].InOp? && LensOk(s)
    ensures LensOk(Next(s, RunJob))
  {
    hide Once, InsOk, Inv, InputSend;
    JobReady(s);
    var f := s.jobs[0].f;
    InServiceIn(s, f);
    PreviousPending(s);
    var pending := ScheduleNext in s.jobs[1..];
    AcceptedLens(s.q, f, s.ins[f].len, pending);
    InputSendFacts(s.q, f, s.ins[f].len, pending);
    QueuedFlows(s.q);
    var s' := Next(s, RunJob);
    forall g: nat ensures QueuedLen(s', g) {
      assert QueuedLen(s, g);
    }
    assert s'.q.sending != NULL && s'.q.sending != f ==> QueuedLen(s, s'.q.sending);
  }

  lemma QueuedFlows(q: Queue)
    requires Inv(q)
    ensures forall g :: g in q.queued ==> g in q.data && q.data[g].isQueued
  {
  }

  lemma OutDoneLens(s: Sys)
    requires SysInv(s) && Enabled(s, RunJob) && s.jobs[0].OutDone? && LensOk(s)
    ensures LensOk(Next(s, RunJob))
  {
    hide Once, InsOk, Inv, IncrementSent;
    JobReady(s);
    assert s.q.sending in s.q.data by {
      InvOpen(s.q);
    }
    OutputDoneKeeps(s.q);
    IncrementSentKeeps(s.q.(sending := NULL, previous := s.q.sending), s.q.sending, s.q.weight + s.q.sendingLen);
    var s' := Next(s, RunJob);
    forall g: nat ensures QueuedLen(s', g) {
      assert QueuedLen(s, g);
    }
  }

  lemma OtherJobLens(s: Sys)
    requires SysInv(s) && Enabled(s, RunJob) && LensOk(s)
    requires !s.jobs[0].ScheduleNext? && !s.jobs[0].InOp? && !s.jobs[0].OutDone?
    ensures LensOk(Next(s, RunJob))
  {
    hide Once, InsOk, Inv;
    JobReady(s);
    var s' := Next(s, RunJob);
    forall g: nat ensures QueuedLen(s', g) {
      assert QueuedLen(s, g);
    }
  }

  /** A flow whose packet is in the queue or in service cannot be given another one. */
  lemma BusyActive(s: Sys, f: nat)
    requires SysInv(s) && f in s.ins && s.ins[f].state.None?
    ensures f in s.q.data && !s.q.data[f].isQueued && s.q.sending != f
  {
    hide Once, Inv, OutOk, TurnOk;
    assert InOk(s, f);
  }

  lemma OutsideLens(s: Sys, a: Act)
    requires SysInv(s) && Enabled(s, a) && LensOk(s) && !a.RunJob?
    ensures LensOk(Next(s, a))
  {
    hide Once, InsOk, Inv, Without;
    var s' := Next(s, a);
    InvOpen(s.q);
    if a.Send? {
      BusyActive(s, a.f);
    }
    forall g: nat ensures QueuedLen(s', g) {
      assert QueuedLen(s, g);
    }
    hide Jobs.SetJob;
  }

  lemma NextLens(s: Sys, a: Act)
    requires SysInv(s) && Enabled(s, a) && LensOk(s)
    ensures LensOk(Next(s, a))
  {
    hide SysInv, LensOk, Next;
    if a.RunJob? {
      match s.jobs[0] {
        case ScheduleNext => ScheduleLens(s);
        case InOp(_) => AcceptLens(s);
        case OutDone => OutDoneLens(s);
        case _ => OtherJobLens(s);
      }
    } else {
      OutsideLens(s, a);
    }
  }

  // ---------------------------------------------------------------- the sends of a run

  /** The length of the last send of flow `f`. */
  function LastSend(past: seq<Act>, f: int): int {
    if past == [] then 0
    else
      var a := past[|past| - 1];
      if a.Send? && a.f == f then a.len else LastSend(past[..|past| - 1], f)
  }

  lemma LastSendSnoc(past: seq<Act>, a: Act, f: nat)
    ensures LastSend(past + [a], f) == if a.Send? && a.f == f then a.len else LastSend(past, f)
  {
    assert (past + [a])[..|past|] == past;
  }

  /** The packet of every input that has one is the last that was sent there. */
  ghost predicate AsSent(past: seq<Act>, s: Sys) {
    forall f :: f in s.ins && !s.ins[f].state.None? ==> s.ins[f].len == LastSend(past, f)
  }

  /** Only a send changes the length at an input. */
  lemma InputLens(s: Sys, a: Act, f: nat)
    requires SysInv(s) && Enabled(s, a) && f in Next(s, a).ins && !Next(s, a).ins[f].state.None?
    ensures if a.Send? && a.f == f then Next(s, a).ins[f].len == a.len
      else f in s.ins && !s.ins[f].state.None? && Next(s, a).ins[f].len == s.ins[f].len
  {
    hide Once, InsOk, Inv, InputSend, OutputDone, ScheduleJob, Without, Jobs.SetJob;
    if a.RunJob? {
      JobReady(s);
      if s.jobs[0].OutDone? {
        InService1(s);
      }
    }
    hide OutOk, TurnOk;
  }

  /** The input of the flow in service is busy. */
  lemma InService1(s: Sys)
    requires SysInv(s) && s.q.sending != NULL
    ensures s.q.sending in s.q.data && s.q.sending in s.ins && s.ins[s.q.sending].state.Busy?
  {
    hide Once, OutOk, TurnOk, Waiting, Listed;
    assert InOk(s, s.q.sending);
  }

  lemma NextAsSent(past: seq<Act>, s: Sys, a: Act)
    requires SysInv(s) && Enabled(s, a) && AsSent(past, s)
    ensures AsSent(past + [a], Next(s, a))
  {
    hide SysInv, Next, LastSend;
    var s' := Next(s, a);
    forall f | f in s'.ins && !s'.ins[f].state.None? ensures s'.ins[f].len == LastSend(past + [a], f) {
      LastSendSnoc(past, a, f);
      InputLens(s, a, f);
    }
  }

  // ---------------------------------------------------------------- over whole runs

  /** What has been sent so far is known, and every length on the way is one of these. */
  ghost predicate Known(past: seq<Act>, s: Sys) {
    SysInv(s) && LensOk(s) && AsSent(past, s)
  }

  lemma {:induction false} KnownAfter(past: seq<Act>, s: Sys, t: seq<Act>)
    requires Known(past, s) && Possible(s, t)
    ensures Known(past + t, After(s, t))
    decreases |t|
  {
    hide SysInv, LensOk, AsSent, Next, Enabled;
    if t == [] {
      assert past + t == past;
    } else {
      NextInv(s, t[0]);
      NextLens(s, t[0]);
      NextAsSent(past, s, t[0]);
      KnownAfter(past + [t[0]], Next(s, t[0]), t[1..]);
      assert past + [t[0]] + t[1..] == past + t;
    }
  }

  /** While a packet is on the output, a flow is in service, and the length on the output, which its provider
      is handed, is that of the last send of this flow. */
  lemma HandedOver(maxTime: int, weight: int, mtu: int, t: seq<Act>)
    requires 0 < weight && 0 <= mtu && mtu + weight <= maxTime < TWO64 && Possible(Start(maxTime, weight, mtu), t)
    ensures var s := After(Start(maxTime, weight, mtu), t);
      !s.q.freeing && !s.out.state.None? ==> s.q.sending != NULL && s.out.len == LastSend(t, s.q.sending) == s.q.sendingLen
  {
    var s0 := Start(maxTime, weight, mtu);
    StartLens(maxTime, weight, mtu);
    KnownAfter([], s0, t);
    assert [] + t == t;
    var s := After(s0, t);
    hide Possible, After, Start, LastSend;
    if !s.q.freeing && !s.out.state.None? {
      OnOutput(t, s);
    }
  }

  lemma OnOutput(past: seq<Act>, s: Sys)
    requires Known(past, s) && !s.q.freeing && !s.out.state.None?
    ensures s.q.sending != NULL && s.out.len == LastSend(past, s.q.sending) == s.q.sendingLen
  {
    assert s.q.sending != NULL by {
      hide Inv, InsOk;
    }
    InService1(s);
    hide SysInv;
  }

  /** The packets of flow `f` completed in a run, and their lengths, as they were sent. */
  function CompletionsOf(s: Sys, t: seq<Act>, f: nat): nat
    requires SysInv(s) && Possible(s, t)
    decreases |t|
  {
    if t == [] then 0
    else
      NextInv(s, t[0]);
      (if Completes(s, t[0]) && s.q.sending == f then 1 else 0) + CompletionsOf(Next(s, t[0]), t[1..], f)
  }

  function SentBytes(past: seq<Act>, s: Sys, t: seq<Act>, f: nat): int
    requires SysInv(s) && Possible(s, t)
    decreases |t|
  {
    if t == [] then 0
    else
      NextInv(s, t[0]);
      (if Completes(s, t[0]) && s.q.sending == f then LastSend(past, f) else 0)
        + SentBytes(past + [t[0]], Next(s, t[0]), t[1..], f)
  }

  lemma ChargedAsSent(past: seq<Act>, s: Sys, a: Act, f: nat)
    requires Known(past, s) && Enabled(s, a)
    ensures Service(s, a, f) == if Completes(s, a) && s.q.sending == f then s.q.weight + LastSend(past, f) else 0
  {
    if Completes(s, a) && s.q.sending == f {
      InService1(s);
      hide SysInv;
    }
  }

  /** A flow is charged the weight for each of its packets, and every byte it sent. */
  lemma {:induction false} ServiceIs(past: seq<Act>, s: Sys, t: seq<Act>, f: nat)
    requires Known(past, s) && Possible(s, t)
    ensures TotalService(s, t, f) == s.q.weight * CompletionsOf(s, t, f) + SentBytes(past, s, t, f)
    decreases |t|
  {
    hide SysInv, LensOk, AsSent, Next, Enabled, Completes, Service, LastSend;
    if t != [] {
      NextInv(s, t[0]);
      NextLens(s, t[0]);
      NextAsSent(past, s, t[0]);
      SizesKept(s, t[0]);
      ChargedAsSent(past, s, t[0], f);
      ServiceIs(past + [t[0]], Next(s, t[0]), t[1..], f);
    }
  }
}
