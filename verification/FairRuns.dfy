/** The fair queue at work, over whole runs. */
module FairRuns {
  // Service, fairness and progress of the machine of steps.

  import opened AvlTheory
  import opened Sequences
  import opened FairQueue
  import opened Jobs
  import opened FairSystem
  import P = PacketPassInterface

  // ---------------------------------------------------------------- flows that keep up

  /** The next packet of a flow that has just been served will be in the queue before the next
      flow is picked: the user is yet to answer the done call, or one of the flow's jobs is
      pending in front of the schedule job. */
  ghost predicate Promised(jobs: seq<Job>, i: P.Ppi, f: nat) {
    i.state.None? || Before(jobs, InDone(f), ScheduleNext) || Before(jobs, InOp(f), ScheduleNext)
  }

  /** The flow waits, is being served, or has just been served and is about to wait again. */
  ghost predicate InService(s: Sys, f: nat) {
    f in s.q.data && f in s.ins && (Active(s.q, f) || (s.q.previous == f && Promised(s.jobs, s.ins[f], f)))
  }

  /** A user that keeps its flow backlogged sends again before any other job runs. */
  predicate KeepsUp(s: Sys, a: Act, f: nat) {
    f in s.ins && (a.RunJob? ==> !s.ins[f].state.None?) && a != Free(f)
  }

  lemma PromisedPop(jobs: seq<Job>, i: P.Ppi, f: nat)
    requires Promised(jobs, i, f) && !i.state.None? && Once(jobs)
    ensures jobs != [] && jobs[0] != ScheduleNext
    ensures jobs[0] != InDone(f) && jobs[0] != InOp(f) ==> Promised(jobs[1..], i, f)
  {
    hide Once;
    if Before(jobs, InDone(f), ScheduleNext) {
      BeforePop(jobs, InDone(f), ScheduleNext);
    } else {
      BeforePop(jobs, InOp(f), ScheduleNext);
    }
    hide Before;
  }

  lemma PromisedKept(jobs: seq<Job>, i: P.Ppi, f: nat, j: Job)
    requires Promised(jobs, i, f) && j != ScheduleNext && !OfFlow(j, f)
    ensures Promised(SetJob(jobs, j), i, f) && Promised(Without(jobs, j), i, f)
  {
    hide Before, Without, SetJob;
    if Before(jobs, InDone(f), ScheduleNext) {
      BeforePush(jobs, InDone(f), ScheduleNext, j);
      BeforeWithout(jobs, InDone(f), ScheduleNext, j);
    } else if Before(jobs, InOp(f), ScheduleNext) {
      BeforePush(jobs, InOp(f), ScheduleNext, j);
      BeforeWithout(jobs, InOp(f), ScheduleNext, j);
    }
  }

  /** While a flow has just been served, nothing is in flight and the schedule job is pending. */
  lemma PreviousMeans(s: Sys)
    requires SysInv(s) && s.q.previous != NULL
    ensures s.q.sending == NULL && ScheduleNext in s.jobs && (!s.q.freeing ==> s.out.state.None?)
  {
    hide InsOk, Once, Waiting, Listed, Sizes;
  }

  lemma RunJobStays(s: Sys, f: nat)
    requires SysInv(s) && Enabled(s, RunJob) && InService(s, f) && KeepsUp(s, RunJob, f)
    requires !s.jobs[0].OutDone?
    ensures InService(Next(s, RunJob), f)
    ensures TimeOf(Next(s, RunJob).q.data, f) == TimeOf(s.q.data, f)
  {
    hide Inv, Once, InputSend, ScheduleJob, Before, InsOk, Active;
    JobReady(s);
    var j := s.jobs[0];
    if s.q.previous == f {
      PreviousMeans(s);
      TailJobs(s.jobs);
    }
    if !Active(s.q, f) {
      PromisedPop(s.jobs, s.ins[f], f);
    }
    if j.ScheduleNext? {
      ScheduleJobFacts(s.q);
    } else if j.InOp? {
      InServiceIn(s, j.f);
      InputSendFacts(s.q, j.f, s.ins[j.f].len, ScheduleNext in s.jobs[1..]);
    }
  }

  /** A packet that comes in was sent by a flow that is idle and has an allowed length. */
  lemma InServiceIn(s: Sys, f: nat)
    requires SysInv(s) && f in s.ins && s.ins[f].state.OperationPending?
    ensures f in s.q.data && f != s.q.sending && !s.q.data[f].isQueued && 0 <= s.ins[f].len <= s.q.mtu
  {
    hide Inv, Once, OutOk, TurnOk;
    assert InOk(s, f);
  }

  lemma OutDoneStays(s: Sys, f: nat)
    requires SysInv(s) && Enabled(s, RunJob) && InService(s, f) && s.jobs[0].OutDone?
    ensures InService(Next(s, RunJob), f)
  {
    hide Inv, Once, InsOk, OutputDone, Without, Before;
    JobReady(s);
    OutputDoneFacts(s.q);
    assert Active(s.q, f) by {
      if s.q.previous == f {
        PreviousMeans(s);
      }
    }
    if s.q.sending == f {
      var jobs1 := SetJob(s.jobs[1..], ScheduleNext);
      BeforeNew(Without(jobs1, InCancel(f)), InDone(f), ScheduleNext);
    }
  }

  lemma OutsideStays(s: Sys, a: Act, f: nat)
    requires SysInv(s) && Enabled(s, a) && InService(s, f) && KeepsUp(s, a, f) && !a.RunJob? && !a.Free?
    ensures InService(Next(s, a), f) && TimeOf(Next(s, a).q.data, f) == TimeOf(s.q.data, f)
  {
    hide Inv, Once, InsOk, Without, SetJob, Before;
    if s.q.previous == f && !Active(s.q, f) {
      PreviousMeans(s);
      if a.Send? && a.f == f {
        BeforeNew(s.jobs, InOp(f), ScheduleNext);
      } else if a.Send? {
        PromisedKept(s.jobs, s.ins[f], f, InOp(a.f));
      } else if a.SetOther? || a.UnsetOther? {
        PromisedKept(s.jobs, s.ins[f], f, Other(a.n));
      }
    }
  }

  lemma FreeStays(s: Sys, g: nat, f: nat)
    requires SysInv(s) && Enabled(s, Free(g)) && InService(s, f) && f != g
    ensures InService(Next(s, Free(g)), f) && TimeOf(Next(s, Free(g)).q.data, f) == TimeOf(s.q.data, f)
  {
    hide Inv, Once, InsOk, Without, Before;
    FlowFreeFacts(s.q, g);
    if !Active(s.q, f) {
      PromisedKept(s.jobs, s.ins[f], f, InDone(g));
      PromisedKept(Without(s.jobs, InDone(g)), s.ins[f], f, InCancel(g));
      PromisedKept(Without(Without(s.jobs, InDone(g)), InCancel(g)), s.ins[f], f, InOp(g));
    }
  }

  /** A backlogged flow stays in service through every step: as jobs run last in first out, its
      next packet is queued before the schedule job can pass it over. */
  lemma ServiceStays(s: Sys, a: Act, f: nat)
    requires SysInv(s) && Enabled(s, a) && InService(s, f) && KeepsUp(s, a, f)
    ensures InService(Next(s, a), f)
  {
    hide SysInv, InService, Next;
    match a {
      case RunJob =>
        if s.jobs[0].OutDone? {
          OutDoneStays(s, f);
        } else {
          RunJobStays(s, f);
        }
      case Free(g) => FreeStays(s, g, f);
      case _ => OutsideStays(s, a, f);
    }
  }

  // ---------------------------------------------------------------- fairness

  /** How far the time of `f` is ahead of the time of `g`. */
  function Ahead(s: Sys, f: nat, g: nat): int {
    TimeOf(s.q.data, f) - TimeOf(s.q.data, g)
  }

  function Abs(x: int): int {
    if x < 0 then -x else x
  }

  /** The step completes a packet. */
  predicate Completes(s: Sys, a: Act) {
    a.RunJob? && s.jobs != [] && s.jobs[0].OutDone?
  }

  /** What the step adds to the service of `f`: weight and length of its packet. */
  function Service(s: Sys, a: Act, f: nat): int {
    if Completes(s, a) && s.q.sending == f then s.q.weight + s.q.sendingLen else 0
  }

  /** The largest service one packet can be. */
  function Quantum(q: Queue): int {
    q.weight + q.mtu
  }

  lemma CompletionTimes(s: Sys, f: nat)
    requires SysInv(s) && Enabled(s, RunJob) && Completes(s, RunJob) && InService(s, f)
    ensures s.q.sending != NULL && s.q.sending in s.q.data && 0 <= s.q.sendingLen <= s.q.mtu && 0 < s.q.weight
    ensures TimeOf(s.q.data, s.q.sending) <= TimeOf(s.q.data, f)
    ensures TimeOf(Next(s, RunJob).q.data, f) == TimeOf(s.q.data, f) + Service(s, RunJob, f) - TakenOff(s.q)
  {
    hide Once, InsOk, OutputDone, Waiting, Listed;
    JobReady(s);
    RenormalisationExact(s.q);
    assert Active(s.q, f) by {
      if s.q.previous == f {
        PreviousMeans(s);
      }
    }
    if f != s.q.sending {
      QueuedMeans(s.q, f);
    }
    hide Before, TakenOff;
  }

  lemma QueuedMeans(q: Queue, f: nat)
    requires Inv(q) && f in q.data && q.data[f].isQueued
    ensures f in q.queued && (q.sending != NULL ==> TimeOf(q.data, q.sending) <= TimeOf(q.data, f))
  {
  }

  /** One step changes the lead of one backlogged flow over another by the service they get, and
      never stretches the gap beyond what it was and beyond one packet. */
  lemma StepFair(s: Sys, a: Act, f: nat, g: nat)
    requires SysInv(s) && Enabled(s, a) && f != g
    requires InService(s, f) && InService(s, g) && KeepsUp(s, a, f) && KeepsUp(s, a, g)
    ensures Ahead(Next(s, a), f, g) == Ahead(s, f, g) + Service(s, a, f) - Service(s, a, g)
    ensures Abs(Ahead(Next(s, a), f, g)) <= Max(Abs(Ahead(s, f, g)), Quantum(s.q))
    ensures 0 < Quantum(s.q)
  {
    assert 0 < Quantum(s.q) by {
      hide InsOk, OutOk, TurnOk, Once, Listed, Waiting, Served;
    }
    hide SysInv, InService, Next;
    if Completes(s, a) {
      CompletionTimes(s, f);
      CompletionTimes(s, g);
    } else {
      match a {
        case RunJob => RunJobStays(s, f); RunJobStays(s, g);
        case Free(h) => FreeStays(s, h, f); FreeStays(s, h, g);
        case _ => OutsideStays(s, a, f); OutsideStays(s, a, g);
      }
    }
  }

  /** The fixed sizes of the queue. */
  lemma SizesKept(s: Sys, a: Act)
    requires SysInv(s) && Enabled(s, a)
    ensures Next(s, a).q.weight == s.q.weight && Next(s, a).q.mtu == s.q.mtu
  {
    hide Once, Inv, InsOk, OutOk, TurnOk, Without, Place, CurrentTime;
    if a.RunJob? {
      JobReady(s);
    }
  }

  // ---------------------------------------------------------------- runs

  /** The steps of `t` can be taken one after the other. */
  ghost predicate Possible(s: Sys, t: seq<Act>)
    requires SysInv(s)
    decreases |t|
  {
    t == [] || (Enabled(s, t[0]) && (NextInv(s, t[0]); Possible(Next(s, t[0]), t[1..])))
  }

  function After(s: Sys, t: seq<Act>): Sys
    requires SysInv(s) && Possible(s, t)
    decreases |t|
  {
    if t == [] then s else NextInv(s, t[0]); After(Next(s, t[0]), t[1..])
  }

  /** The user of `f` keeps its flow backlogged during the whole run. */
  predicate Backlogged(s: Sys, t: seq<Act>, f: nat)
    requires SysInv(s) && Possible(s, t)
    decreases |t|
  {
    t == [] || (KeepsUp(s, t[0], f) && (NextInv(s, t[0]); Backlogged(Next(s, t[0]), t[1..], f)))
  }

  /** The service flow `f` gets during the run. */
  function TotalService(s: Sys, t: seq<Act>, f: nat): int
    requires SysInv(s) && Possible(s, t)
    decreases |t|
  {
    if t == [] then 0
    else NextInv(s, t[0]); Service(s, t[0], f) + TotalService(Next(s, t[0]), t[1..], f)
  }

  /** Every state a run leads to is in order. */
  lemma {:induction false} Safe(s: Sys, t: seq<Act>)
    requires SysInv(s) && Possible(s, t)
    ensures SysInv(After(s, t))
    decreases |t|
  {
    hide SysInv, Next, Enabled;
    if t != [] {
      NextInv(s, t[0]);
      Safe(Next(s, t[0]), t[1..]);
    }
  }

  /** In particular every state that can be reached at all. */
  lemma SafeFromStart(maxTime: int, weight: int, mtu: int, t: seq<Act>)
    requires 0 < weight && 0 <= mtu && mtu + weight <= maxTime < TWO64 && Possible(Start(maxTime, weight, mtu), t)
    ensures SysInv(After(Start(maxTime, weight, mtu), t))
  {
    Safe(Start(maxTime, weight, mtu), t);
  }

  /** However long the run, two backlogged flows are served alike: their times differ by no more
      than at the start or by one packet, and so their total services differ by a constant. */
  lemma {:induction false} Fair(s: Sys, t: seq<Act>, f: nat, g: nat)
    requires SysInv(s) && Possible(s, t) && f != g
    requires InService(s, f) && InService(s, g) && Backlogged(s, t, f) && Backlogged(s, t, g)
    ensures InService(After(s, t), f) && InService(After(s, t), g)
    ensures Abs(Ahead(After(s, t), f, g)) <= Max(Abs(Ahead(s, f, g)), Quantum(s.q))
    ensures TotalService(s, t, f) - TotalService(s, t, g) == Ahead(After(s, t), f, g) - Ahead(s, f, g)
    ensures Abs(TotalService(s, t, f) - TotalService(s, t, g)) <= Abs(Ahead(s, f, g)) + Max(Abs(Ahead(s, f, g)), Quantum(s.q))
    decreases |t|
  {
    hide SysInv, InService, Next, Enabled, Ahead, KeepsUp, Service;
    if t != [] {
      NextInv(s, t[0]);
      StepFair(s, t[0], f, g);
      SizesKept(s, t[0]);
      ServiceStays(s, t[0], f);
      ServiceStays(s, t[0], g);
      Fair(Next(s, t[0]), t[1..], f, g);
    }
  }

  // ---------------------------------------------------------------- flows that come in

  /** The lead of one backlogged flow over another never grows beyond what it was and beyond one packet. */
  lemma StepLead(s: Sys, a: Act, f: nat, g: nat)
    requires SysInv(s) && Enabled(s, a) && f != g
    requires InService(s, f) && InService(s, g) && KeepsUp(s, a, f) && KeepsUp(s, a, g)
    ensures Ahead(Next(s, a), f, g) <= Max(Ahead(s, f, g), Quantum(s.q))
  {
    hide SysInv, InService, Next;
    StepFair(s, a, f, g);
    if Completes(s, a) {
      CompletionTimes(s, f);
      CompletionTimes(s, g);
    }
  }

  lemma {:induction false} FairLead(s: Sys, t: seq<Act>, f: nat, g: nat)
    requires SysInv(s) && Possible(s, t) && f != g
    requires InService(s, f) && InService(s, g) && Backlogged(s, t, f) && Backlogged(s, t, g)
    ensures SysInv(After(s, t)) && Ahead(After(s, t), f, g) <= Max(Ahead(s, f, g), Quantum(s.q))
    decreases |t|
  {
    hide SysInv, InService, Next, Enabled, Ahead, KeepsUp, Service;
    if t != [] {
      NextInv(s, t[0]);
      StepLead(s, t[0], f, g);
      SizesKept(s, t[0]);
      ServiceStays(s, t[0], f);
      ServiceStays(s, t[0], g);
      FairLead(Next(s, t[0]), t[1..], f, g);
    }
  }

  /** The packet of an idle flow comes in: it leads another flow by no more than before, and not at all if it
      was behind; and it is not behind the least of those that wait, are served or have just been served. */
  lemma Joins(s: Sys, f: nat, g: nat) returns (h: nat)
    requires SysInv(s) && Enabled(s, RunJob) && s.jobs[0] == InOp(f) && f != s.q.previous && f != g && InService(s, g)
    ensures var s' := Next(s, RunJob); InService(s', f) && Ahead(s', f, g) <= Max(0, Ahead(s, f, g)) && 0 <= Ahead(s', f, h)
    ensures (Active(s.q, h) || h == s.q.previous) && TimeOf(s.q.data, h) <= TimeOf(s.q.data, g)
  {
    hide Once, InputSend, InsOk, Comparator, Before;
    JobReady(s);
    InServiceIn(s, f);
    PreviousPending(s);
    var len, pending := s.ins[f].len, ScheduleNext in s.jobs[1..];
    InputSendFacts(s.q, f, len, pending);
    h := SendTime(s.q, f, len, pending);
    assert g in s.q.queued || g == s.q.previous || g == s.q.sending;
  }

  lemma PreviousPending(s: Sys)
    requires SysInv(s) && s.jobs != [] && s.jobs[0] != ScheduleNext
    ensures s.q.previous != NULL ==> ScheduleNext in s.jobs[1..]
  {
    hide InsOk, Inv, OutOk;
    TailJobs(s.jobs);
  }

  /** From then on it is treated like those that were there before it. */
  lemma JoinsFair(s: Sys, t: seq<Act>, f: nat, g: nat)
    requires SysInv(s) && Enabled(s, RunJob) && s.jobs[0] == InOp(f) && f != s.q.previous && f != g && InService(s, g)
    requires KeepsUp(s, RunJob, g)
    requires var s' := Next(s, RunJob); SysInv(s') && Possible(s', t) && Backlogged(s', t, f) && Backlogged(s', t, g)
    ensures var s' := Next(s, RunJob);
      && Ahead(After(s', t), f, g) <= Max(Max(0, Ahead(s, f, g)), Quantum(s.q))
      && TotalService(s', t, f) - TotalService(s', t, g) <= Max(Max(0, Ahead(s, f, g)), Quantum(s.q)) - Ahead(s', f, g)
  {
    hide SysInv, InService, Next, Enabled, Ahead, Possible, After, Backlogged, TotalService;
    var h := Joins(s, f, g);
    ServiceStays(s, RunJob, g);
    SizesKept(s, RunJob);
    FairLead(Next(s, RunJob), t, f, g);
    Fair(Next(s, RunJob), t, f, g);
  }

  /** A new flow begins at the time of the flow in service: its first packet waits for nobody who is
      ahead of that one. */
  lemma NewFlow(s: Sys, f: nat, len: int)
    requires SysInv(s) && !s.q.freeing && f !in s.q.data && s.q.sending != NULL && 0 <= len <= s.q.mtu
    ensures Enabled(s, Init(f)) && SysInv(Next(s, Init(f))) && Enabled(Next(s, Init(f)), Send(f, len))
    ensures var s2 := Next(Next(s, Init(f)), Send(f, len));
      && SysInv(s2) && Enabled(s2, RunJob) && s2.jobs[0] == InOp(f)
      && TimeOf(Next(s2, RunJob).q.data, f) == TimeOf(s.q.data, s.q.sending)
  {
    NextInv(s, Init(f));
    var s1 := Next(s, Init(f));
    NextInv(s1, Send(f, len));
    var s2 := Next(s1, Send(f, len));
    FirstSend(s, s2, f);
    hide SysInv, Next;
  }

  lemma FirstSend(s: Sys, s2: Sys, f: nat)
    requires SysInv(s) && f !in s.q.data && s.q.sending != NULL && SysInv(s2) && !s2.q.freeing
    requires s2.q == FlowInit(s.q, f) && s2.jobs != [] && s2.jobs[0] == InOp(f)
    ensures TimeOf(Next(s2, RunJob).q.data, f) == TimeOf(s.q.data, s.q.sending)
  {
    hide Once, InputSend, InsOk, Comparator;
    JobReady(s2);
    InServiceIn(s2, f);
    PreviousPending(s2);
    var len, pending := s2.ins[f].len, ScheduleNext in s2.jobs[1..];
    InputSendFacts(s2.q, f, len, pending);
    var g := SendTime(s2.q, f, len, pending);
  }

  // ---------------------------------------------------------------- no starvation

  /** How much flow `h` may still be served before the waiting flow `f` must be picked. */
  function Term(d: map<nat, Flow>, f: nat, h: nat): int {
    if h == f then 0 else NotNegative(TimeOf(d, f) + 1 - TimeOf(d, h))
  }

  function Lag(d: map<nat, Flow>, f: nat, flows: seq<nat>): (r: int)
    ensures 0 <= r
  {
    if flows == [] then 0 else Term(d, f, flows[0]) + Lag(d, f, flows[1..])
  }

  lemma {:induction false} LagMono(d: map<nat, Flow>, d': map<nat, Flow>, f: nat, flows: seq<nat>)
    requires forall h :: h in flows ==> Term(d', f, h) <= Term(d, f, h)
    ensures Lag(d', f, flows) <= Lag(d, f, flows)
  {
    hide Term;
    if flows != [] {
      assert flows[0] in flows;
      LagMono(d, d', f, flows[1..]);
    }
  }

  lemma {:induction false} LagFalls(d: map<nat, Flow>, d': map<nat, Flow>, f: nat, flows: seq<nat>, g: nat)
    requires g in flows && Term(d', f, g) < Term(d, f, g)
    requires forall h :: h in flows ==> Term(d', f, h) <= Term(d, f, h)
    ensures Lag(d', f, flows) < Lag(d, f, flows)
  {
    hide Term;
    assert flows[0] in flows;
    if flows[0] == g {
      LagMono(d, d', f, flows[1..]);
    } else {
      LagFalls(d, d', f, flows[1..], g);
    }
  }

  lemma {:induction false} LagWithout(d: map<nat, Flow>, f: nat, flows: seq<nat>, g: nat)
    ensures Lag(d, f, Without(flows, g)) <= Lag(d, f, flows)
  {
    if flows != [] {
      LagWithout(d, f, flows[1..], g);
      var w := Without(flows[1..], g);
      assert ([flows[0]] + w)[1..] == w;
    }
  }

  predicate Queued(s: Sys, f: nat) {
    f in s.q.data && s.q.data[f].isQueued
  }

  lemma QueuedInService(s: Sys, f: nat)
    requires SysInv(s) && Queued(s, f)
    ensures InService(s, f) && f in s.ins && s.ins[f].state.Busy? && s.q.sending != f
    ensures s.q.sending != NULL ==> s.q.sending in s.q.data && s.q.sending in s.q.flows
  {
    hide Once, OutOk, TurnOk, Sizes, Promised;
    assert f in s.ins && InOk(s, f);
    assert f in s.q.queued;
  }

  lemma CompletionLag(s: Sys, f: nat)
    requires SysInv(s) && Enabled(s, RunJob) && Completes(s, RunJob) && Queued(s, f)
    ensures Lag(Next(s, RunJob).q.data, f, s.q.flows) < Lag(s.q.data, f, s.q.flows) && Next(s, RunJob).q.flows == s.q.flows
  {
    hide Once, InsOk, OutOk, TurnOk, Inv, OutputDone, TakenOff;
    JobReady(s);
    QueuedInService(s, f);
    CompletionTimes(s, f);
    RenormalisationExact(s.q);
    FlowsListed(s.q);
    hide SysInv, InService;
    OutputDoneFacts(s.q);
    var d, d' := s.q.data, Next(s, RunJob).q.data;
    forall h | h in s.q.flows ensures Term(d', f, h) <= Term(d, f, h) {
    }
    assert Term(d', f, s.q.sending) < Term(d, f, s.q.sending);
    LagFalls(d, d', f, s.q.flows, s.q.sending);
  }

  lemma FlowsListed(q: Queue)
    requires Inv(q)
    ensures forall h :: h in q.flows <==> h in q.data
    ensures forall h :: h in q.data ==> 0 <= q.data[h].time
  {
  }

  /** Between completions times only rise. */
  lemma RunJobRises(s: Sys, h: nat)
    requires SysInv(s) && Enabled(s, RunJob) && !s.jobs[0].OutDone?
    ensures Next(s, RunJob).q.flows == s.q.flows
    ensures TimeOf(s.q.data, h) <= TimeOf(Next(s, RunJob).q.data, h)
  {
    hide Inv, Once, InputSend, ScheduleJob, InsOk, Active;
    JobReady(s);
    var j := s.jobs[0];
    if j.ScheduleNext? {
      ScheduleJobFacts(s.q);
    } else if j.InOp? {
      InServiceIn(s, j.f);
      var pending := ScheduleNext in s.jobs[1..];
      assert s.q.previous != NULL ==> pending by {
        TailJobs(s.jobs);
      }
      InputSendFacts(s.q, j.f, s.ins[j.f].len, pending);
    }
  }

  lemma StepLag(s: Sys, a: Act, f: nat)
    requires SysInv(s) && Enabled(s, a) && !a.Init? && Queued(s, f) && Queued(Next(s, a), f)
    ensures Lag(Next(s, a).q.data, f, Next(s, a).q.flows) + (if Completes(s, a) then 1 else 0) <= Lag(s.q.data, f, s.q.flows)
  {
    hide SysInv, Lag, InService;
    QueuedInService(s, f);
    if Completes(s, a) {
      CompletionLag(s, f);
    } else {
      var d, d' := s.q.data, Next(s, a).q.data;
      assert TimeOf(d', f) == TimeOf(d, f) by {
        hide Next;
        match a {
          case RunJob => RunJobStays(s, f);
          case Free(h) => FreedGone(s, h); FreeStays(s, h, f);
          case _ => OutsideStays(s, a, f);
        }
      }
      if a.Free? {
        FreeTimes(s, a.f, f);
      } else {
        forall h: nat ensures s.q.flows == Next(s, a).q.flows && TimeOf(d, h) <= TimeOf(d', h) {
          if a.RunJob? {
            RunJobRises(s, h);
          }
        }
        LagMono(d, d', f, s.q.flows);
      }
    }
  }

  lemma FreedGone(s: Sys, g: nat)
    requires SysInv(s) && Enabled(s, Free(g))
    ensures !Queued(Next(s, Free(g)), g)
  {
    hide SysInv;
  }

  lemma FreeTimes(s: Sys, g: nat, f: nat)
    requires SysInv(s) && Enabled(s, Free(g)) && f != g
    ensures var s' := Next(s, Free(g)); Lag(s'.q.data, f, s'.q.flows) <= Lag(s.q.data, f, s.q.flows)
  {
    hide SysInv, Lag;
    var s' := Next(s, Free(g));
    assert forall h :: h in s'.q.flows ==> Term(s'.q.data, f, h) == Term(s.q.data, f, h);
    LagMono(s.q.data, s'.q.data, f, s'.q.flows);
    LagWithout(s.q.data, f, s.q.flows, g);
  }

  /** Flow `f` waits in the queue during the whole run, and no flow is added. */
  predicate Waits(s: Sys, t: seq<Act>, f: nat)
    requires SysInv(s) && Possible(s, t)
    decreases |t|
  {
    Queued(s, f) && (t == [] || (!t[0].Init? && (NextInv(s, t[0]); Waits(Next(s, t[0]), t[1..], f))))
  }

  function Completions(s: Sys, t: seq<Act>): nat
    requires SysInv(s) && Possible(s, t)
    decreases |t|
  {
    if t == [] then 0
    else NextInv(s, t[0]); (if Completes(s, t[0]) then 1 else 0) + Completions(Next(s, t[0]), t[1..])
  }

  /** A flow cannot wait while more packets of others are completed than its lag allows. */
  lemma {:induction false} NoStarvation(s: Sys, t: seq<Act>, f: nat)
    requires SysInv(s) && Possible(s, t) && Waits(s, t, f)
    ensures Completions(s, t) <= Lag(s.q.data, f, s.q.flows)
    decreases |t|
  {
    hide SysInv, Next, Enabled, Lag, Completes, Queued;
    if t != [] {
      NextInv(s, t[0]);
      NoStarvation(Next(s, t[0]), t[1..], f);
      assert Queued(Next(s, t[0]), f);
      StepLag(s, t[0], f);
    }
  }

  /** Nor can it wait for nothing: a job of the output is pending, the output's provider has the
      packet, or the schedule job is pending, which then starts a packet at once. */
  lemma SomethingMoves(s: Sys, f: nat)
    requires SysInv(s) && !s.q.freeing && Queued(s, f)
    ensures ScheduleNext in s.jobs || OutOp in s.jobs || s.out.state.Busy? || OutDone in s.jobs
    ensures s.jobs != [] && s.jobs[0] == ScheduleNext ==> Next(s, RunJob).q.sending != NULL
  {
    hide Once, InsOk;
    assert f in s.q.queued;
    if s.jobs != [] && s.jobs[0] == ScheduleNext {
      JobReady(s);
      ScheduleJobFacts(s.q);
    }
  }

  // ---------------------------------------------------------------- when a flow is busy

  /** A flow becomes busy when its packet is handed to the output, and only then; it stays so until the
      packet is done, when its own done job is set, or until it is freed with the queue. */
  lemma BusySpan(s: Sys, a: Act, f: nat)
    requires SysInv(s) && Enabled(s, a)
    ensures var s' := Next(s, a);
      && (s.q.sending == f && s'.q.sending != f ==> Completes(s, a) || a == Free(f))
      && (s.q.sending != f && s'.q.sending == f ==>
        a == RunJob && OutOp in s'.jobs && s'.out.state.OperationPending? && (Queued(s, f) || s.jobs[0] == InOp(f)))
      && (Completes(s, a) && s.q.sending == f ==> s'.q.sending == NULL && InDone(f) in s'.jobs)
  {
    hide Once, InsOk, Sizes;
    if a == RunJob {
      JobReady(s);
      var s1 := s.(jobs := s.jobs[1..]);
      match s.jobs[0] {
        case ScheduleNext =>
          assert s.q.queued != [] ==> s.q.queued[0] in s.q.queued;
        case OutDone => OutputDoneKeeps(s.q);
        case _ =>
      }
    }
    hide OutOk, TurnOk, Inv;
  }
}
