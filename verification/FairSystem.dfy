/** The fair queue at work: flows and their interfaces, the output and the pending jobs, as one machine of
    steps, and what every step keeps. */
module FairSystem {
  import opened Sequences
  import opened FairQueue
  import opened Jobs
  import P = PacketPassInterface

  /** The jobs of one pending group: the queue's own, those of the output, those of each flow's
      input, and jobs of anybody else. */
  datatype Job = ScheduleNext | OutOp | OutCancel | OutDone | InOp(f: nat) | InCancel(f: nat) | InDone(f: nat) | Other(n: nat)

  datatype Sys = Sys(q: Queue, jobs: seq<Job>, out: P.Ppi, ins: map<nat, P.Ppi>)

  /** What can happen: a pending job runs, the user of a flow sends, the output's provider has
      finished its packet, and so on. Whatever a handler does last by calling somebody appears as
      the next of these steps. */
  datatype Act = RunJob | Send(f: nat, len: int) | ProviderDone | RequestCancel | Handler(on: bool)
    | Init(f: nat) | Free(f: nat) | Prepare | SetOther(n: nat) | UnsetOther(n: nat)

  // ---------------------------------------------------------------- the steps

  predicate Enabled(s: Sys, a: Act) {
    match a
    case RunJob => s.jobs != [] && (s.q.freeing ==> s.jobs[0].Other?)
    case Send(f, len) => !s.q.freeing && f in s.ins && s.ins[f].state.None? && 0 <= len <= s.q.mtu
    case ProviderDone => !s.q.freeing && s.out.state.Busy?
    case RequestCancel => !s.q.freeing && s.q.sending != NULL
    case Handler(on) => !s.q.freeing && s.q.sending != NULL
    case Init(f) => !s.q.freeing && f !in s.q.data
    case Free(f) => f in s.q.data && (s.q.freeing || f != s.q.sending)
    case _ => true
  }

  /** What the queue hands to the output when it starts to send. */
  function Started(s: Sys, sent: bool): Sys {
    if sent then s.(out := P.SendPpi(s.out, s.q.sendingLen), jobs := P.SendJobs(s.jobs, OutOp)) else s
  }

  function RunSchedule(s: Sys): Sys
    requires s.q.queued != [] ==> s.q.queued[0] in s.q.data
  {
    Started(s.(q := ScheduleJob(s.q)), s.q.queued != [])
  }

  function RunOutDone(s: Sys): Sys
    requires s.q.sending != NULL && s.q.sending in s.q.data && s.q.sending in s.ins
  {
    var f := s.q.sending;
    Sys(OutputDone(s.q), P.DoneJobs(SetJob(s.jobs, ScheduleNext), InCancel(f), InDone(f)), P.DoneRun(s.out),
        s.ins[f := P.DonePpi(s.ins[f])])
  }

  function RunInOp(s: Sys, f: nat): Sys
    requires f in s.q.data && f in s.ins && forall g :: g in s.q.queued ==> g in s.q.data
  {
    var pending := ScheduleNext in s.jobs;
    Started(s.(q := InputSend(s.q, f, s.ins[f].len, pending), ins := s.ins[f := P.OperationRun(s.ins[f])]),
            s.q.sending == NULL && !pending)
  }

  /** BPendingGroup_ExecuteJob with the handler of the job. */
  function Ran(s: Sys, j: Job): Sys
    requires Shaped(s) && (j.OutDone? ==> s.q.sending != NULL)
    requires j.InOp? || j.InDone? ==> j.f in s.ins
  {
    match j
    case ScheduleNext => RunSchedule(s)
    case OutOp => s.(out := P.OperationRun(s.out))
    case OutDone => RunOutDone(s)
    case InOp(f) => RunInOp(s, f)
    case InDone(f) => s.(ins := s.ins[f := P.DoneRun(s.ins[f])])
    case _ => s
  }

  ghost predicate Shaped(s: Sys) {
    && s.ins.Keys == s.q.data.Keys
    && (forall g :: g in s.q.queued ==> g in s.q.data)
    && (s.q.sending != NULL ==> s.q.sending in s.q.data)
  }

  /** The state after a step. */
  function Next(s: Sys, a: Act): Sys
    requires SysInv(s) && Enabled(s, a)
  {
    match a
    case RunJob => JobReady(s); Ran(s.(jobs := s.jobs[1..]), s.jobs[0])
    case Send(f, len) => s.(ins := s.ins[f := P.SendPpi(s.ins[f], len)], jobs := P.SendJobs(s.jobs, InOp(f)))
    case ProviderDone => s.(out := P.DonePpi(s.out), jobs := P.DoneJobs(s.jobs, OutCancel, OutDone))
    case RequestCancel => s.(out := P.CancelPpi(s.out), jobs := P.CancelJobs(s.out, s.jobs, OutOp, OutCancel, OutDone))
    case Handler(on) => s.(q := SetBusyHandler(s.q, s.q.sending, on))
    case Init(f) => s.(q := FlowInit(s.q, f), ins := s.ins[f := P.INITIAL])
    case Free(f) => s.(q := FlowFree(s.q, f), ins := s.ins - {f}, jobs := Without(Without(Without(s.jobs, InDone(f)), InCancel(f)), InOp(f)))
    case Prepare => s.(q := PrepareFree(s.q))
    case SetOther(n) => s.(jobs := SetJob(s.jobs, Other(n)))
    case UnsetOther(n) => s.(jobs := Without(s.jobs, Other(n)))
  }

  // ---------------------------------------------------------------- what always holds

  /** The flow waits in the queue or is being served. */
  predicate Active(q: Queue, f: nat) {
    f in q.data && (q.data[f].isQueued || q.sending == f)
  }

  /** The input of a flow is in order, and its provider, the queue, has its packet exactly while
      the flow is active. Inputs have no cancel handler. */
  ghost predicate InOk(s: Sys, f: nat)
    requires f in s.ins
  {
    && P.Consistent(s.ins[f], s.jobs, InOp(f), InCancel(f), InDone(f))
    && !s.ins[f].cancelRequested && 0 <= s.ins[f].len <= s.q.mtu
    && (s.ins[f].state.Busy? <==> Active(s.q, f))
  }

  ghost predicate Absent(jobs: seq<Job>, f: nat) {
    InOp(f) !in jobs && InCancel(f) !in jobs && InDone(f) !in jobs
  }

  ghost predicate InsOk(s: Sys) {
    (forall f :: f in s.ins ==> InOk(s, f)) && (forall f: nat :: f !in s.ins ==> Absent(s.jobs, f))
  }

  /** A packet is in flight exactly while a flow is being served. */
  ghost predicate OutOk(s: Sys) {
    && P.Consistent(s.out, s.jobs, OutOp, OutCancel, OutDone)
    && (s.q.sending != NULL ==> !s.out.state.None?)
    && (!s.q.freeing && !s.out.state.None? ==> s.q.sending != NULL)
  }

  /** The schedule job is pending only between packets; a previous flow waits for it; and unless
      the queue is being freed, a queued flow means that something is in flight or about to be. */
  ghost predicate TurnOk(s: Sys) {
    && (ScheduleNext in s.jobs ==> s.q.sending == NULL)
    && (s.q.previous != NULL ==> ScheduleNext in s.jobs)
    && (!s.q.freeing && s.q.queued != [] ==> s.q.sending != NULL || ScheduleNext in s.jobs)
  }

  ghost predicate SysInv(s: Sys) {
    Inv(s.q) && s.ins.Keys == s.q.data.Keys && Once(s.jobs) && InsOk(s) && OutOk(s) && TurnOk(s)
  }

  /** The system at the beginning: a queue that Init has accepted, an idle output, no flows and no jobs. */
  ghost function Start(maxTime: int, weight: int, mtu: int): (s: Sys)
    requires 0 < weight && 0 <= mtu && mtu + weight <= maxTime < TWO64
    ensures SysInv(s)
  {
    Sys(Queue(maxTime, weight, mtu, [], map[], [], NULL, 0, NULL, false), [], P.INITIAL, map[])
  }

  /** The first pending job finds what its handler asserts. */
  lemma JobReady(s: Sys)
    requires SysInv(s) && s.jobs != [] && (s.q.freeing ==> s.jobs[0].Other?)
    ensures var j := s.jobs[0]; var s1 := s.(jobs := s.jobs[1..]);
      && Shaped(s1) && j !in s1.jobs
      && (j.ScheduleNext? ==> s.q.sending == NULL)
      && (j.OutDone? ==> s.q.sending != NULL && s.q.previous == NULL && ScheduleNext !in s1.jobs && s.out.state.DonePending?)
      && (j.OutOp? ==> s.out.state.OperationPending?)
      && (j.OutCancel? ==> s.out.state.Busy? && s.out.cancelRequested)
      && (j.InOp? ==> j.f in s.ins && s.ins[j.f].state.OperationPending? && !Active(s.q, j.f))
      && (j.InDone? ==> j.f in s.ins && s.ins[j.f].state.DonePending?)
      && !j.InCancel?
  {
    OnceTail(s.jobs);
    var j := s.jobs[0];
    assert j in s.jobs;
    if j.InOp? || j.InDone? || j.InCancel? {
      assert j.f in s.ins ==> InOk(s, j.f);
      assert j.f !in s.ins ==> Absent(s.jobs, j.f);
    }
    assert ScheduleNext in s.jobs[1..] ==> ScheduleNext in s.jobs;
    hide Once, Waiting, Listed, Sizes;
  }

  // ---------------------------------------------------------------- what the handlers do to the queue

  /** The flows that are active, and everything but the turn, stay as they are. */
  ghost predicate SameFlows(q: Queue, q': Queue) {
    && q'.data.Keys == q.data.Keys && q'.mtu == q.mtu && q'.freeing == q.freeing && q'.weight == q.weight
    && q'.flows == q.flows
  }

  lemma ScheduleFacts(q: Queue)
    requires Inv(q) && q.sending == NULL && q.previous == NULL && q.queued != []
    ensures var q' := Schedule(q);
      && Inv(q') && SameFlows(q, q') && q'.sending != NULL && q'.previous == NULL && 0 <= q'.sendingLen <= q.mtu
      && (forall g :: Active(q', g) <==> Active(q, g))
      && (forall g :: g in q.data ==> q'.data[g].time == q.data[g].time)
  {
    ScheduleInv(q);
    SortedTail(q.data, q.queued);
    var q' := Schedule(q);
    hide Sizes, Listed, Once;
    assert q.queued[0] in q.queued;
  }

  lemma ScheduleJobFacts(q: Queue)
    requires Inv(q) && q.sending == NULL
    ensures var q' := ScheduleJob(q);
      && Inv(q') && SameFlows(q, q') && q'.previous == NULL && (q'.sending != NULL <==> q.queued != [])
      && (q.queued == [] ==> q'.queued == [])
      && (forall g :: Active(q', g) <==> Active(q, g))
      && (forall g :: g in q.data ==> q'.data[g].time == q.data[g].time)
  {
    ForgetPrevious(q);
    hide Waiting, Listed, Sizes;
    if q.queued != [] {
      ScheduleFacts(q.(previous := NULL));
    }
  }

  /** The time a flow has when it is queued. */
  function EntryTime(q: Queue, f: nat): int
    requires f in q.data
  {
    if f == q.previous || CurrentTime(q) <= q.data[f].time then q.data[f].time else CurrentTime(q)
  }

  lemma RaisedFacts(q: Queue, f: nat)
    requires Inv(q) && f in q.data && f != q.sending && !q.data[f].isQueued
    ensures var q' := Raised(q, f);
      && Inv(q') && SameFlows(q, q') && q'.sending == q.sending && q'.queued == q.queued
      && q'.previous == (if q.previous == f then NULL else q.previous)
      && f in q'.data && !q'.data[f].isQueued && (forall g :: Active(q', g) <==> Active(q, g))
      && (forall g :: g in q.data ==> q'.data[g].time == if g == f then EntryTime(q, f) else q.data[g].time)
      && (q.sending != NULL ==> TimeOf(q.data, q.sending) <= TimeOf(q'.data, f))
  {
    RaisedInv(q, f);
    hide Inv, CurrentTime;
  }

  lemma EnqueuedFacts(q: Queue, f: nat, len: int)
    requires Inv(q) && f in q.data && f != q.sending && f != q.previous && !q.data[f].isQueued && 0 <= len <= q.mtu
    requires q.sending != NULL ==> TimeOf(q.data, q.sending) <= TimeOf(q.data, f)
    ensures var q' := Enqueued(q, f, len);
      && Inv(q') && SameFlows(q, q') && q'.sending == q.sending && q'.previous == q.previous
      && q'.queued != [] && q'.queued[0] in q'.data && (forall g :: Active(q', g) <==> Active(q, g) || g == f)
      && (forall g :: g in q.data ==> q'.data[g].time == q.data[g].time)
  {
    EnqueuedInv(q, f, len);
    hide Sizes, Listed, Served;
    EnqueuedFirst(q, f, len);
    hide Inv, Place;
  }

  lemma InputSendFacts(q: Queue, f: nat, len: int, pending: bool)
    requires Inv(q) && f in q.data && f != q.sending && !q.data[f].isQueued && 0 <= len <= q.mtu
    requires q.previous != NULL ==> pending
    ensures var q' := InputSend(q, f, len, pending);
      && Inv(q') && SameFlows(q, q')
      && q'.previous == (if q.previous == f then NULL else q.previous)
      && (if q.sending == NULL && !pending then q'.sending != NULL else q'.sending == q.sending)
      && (forall g :: Active(q', g) <==> Active(q, g) || g == f)
      && (forall g :: g in q.data ==> q'.data[g].time == if g == f then EntryTime(q, f) else q.data[g].time)
  {
    assert forall g :: g in q.queued ==> g in q.data;
    hide Inv, Raised, Enqueued, Schedule, EntryTime, Active;
    RaisedFacts(q, f);
    EnqueuedFacts(Raised(q, f), f, len);
    if q.sending == NULL && !pending {
      ScheduleFacts(Enqueued(Raised(q, f), f, len));
    }
  }

  lemma OutputDoneFacts(q: Queue)
    requires Inv(q) && q.sending != NULL
    ensures var q' := OutputDone(q);
      && Inv(q') && SameFlows(q, q') && q'.sending == NULL && q'.previous == q.sending && q'.queued == q.queued
      && (forall g :: Active(q', g) <==> Active(q, g) && g != q.sending)
  {
    OutputDoneInv(q);
    OutputDoneKeeps(q);
    var q' := OutputDone(q);
    hide Sizes, Listed, OutputDone, Once;
    forall g | g in q.data ensures Active(q', g) <==> Active(q, g) && g != q.sending {
      assert q'.data[g].isQueued <==> g in q'.queued;
      assert q.data[g].isQueued <==> g in q.queued;
    }
  }

  lemma FlowFreeFacts(q: Queue, f: nat)
    requires Inv(q) && f in q.data
    ensures var q' := FlowFree(q, f);
      && Inv(q') && q'.data.Keys == q.data.Keys - {f} && (forall g :: Active(q', g) <==> Active(q, g) && g != f)
      && (forall g :: g in q'.data ==> q'.data[g] == q.data[g])
      && (q'.queued != [] ==> q.queued != [])
  {
    FlowFreeInv(q, f);
    hide Sizes, Listed, Once;
    var q' := FlowFree(q, f);
    assert q'.queued == [] || q'.queued[0] in q'.queued;
  }

  // ---------------------------------------------------------------- every step keeps it

  /** A flow whose jobs and whose activity are the same is still in order. */
  ghost predicate SameJobs(jobs: seq<Job>, jobs': seq<Job>, f: nat) {
    && (InOp(f) in jobs' <==> InOp(f) in jobs)
    && (InCancel(f) in jobs' <==> InCancel(f) in jobs)
    && (InDone(f) in jobs' <==> InDone(f) in jobs)
  }

  /** If only flow `f` is touched, it is enough to look at `f`. */
  lemma InsOkStep(s: Sys, s': Sys, f: nat)
    requires InsOk(s) && s'.q.mtu == s.q.mtu && (forall g :: g in s'.ins && g != f <==> g in s.ins && g != f)
    requires forall g :: g in s.ins && g != f ==> s'.ins[g] == s.ins[g] && (Active(s'.q, g) <==> Active(s.q, g))
    requires forall g: nat :: g != f ==> SameJobs(s.jobs, s'.jobs, g)
    requires if f in s'.ins then InOk(s', f) else Absent(s'.jobs, f)
    ensures InsOk(s')
  {
    forall g: nat | g != f ensures if g in s'.ins then InOk(s', g) else Absent(s'.jobs, g) {
      assert SameJobs(s.jobs, s'.jobs, g);
      assert g in s.ins ==> InOk(s, g);
      assert g !in s.ins ==> Absent(s.jobs, g);
    }
  }

  lemma InsOkAll(s: Sys, s': Sys)
    requires InsOk(s) && s'.q.mtu == s.q.mtu && s'.ins == s.ins
    requires forall g :: g in s.ins ==> (Active(s'.q, g) <==> Active(s.q, g))
    requires forall g: nat :: SameJobs(s.jobs, s'.jobs, g)
    ensures InsOk(s')
  {
    forall g: nat ensures if g in s'.ins then InOk(s', g) else Absent(s'.jobs, g) {
      assert SameJobs(s.jobs, s'.jobs, g);
      assert g in s.ins ==> InOk(s, g);
      assert g !in s.ins ==> Absent(s.jobs, g);
    }
  }

  /** The jobs after the first one, when that one is of no flow or is `f`'s. */
  lemma TailJobs(jobs: seq<Job>)
    requires Once(jobs) && jobs != []
    ensures Once(jobs[1..]) && forall j :: j in jobs[1..] <==> j in jobs && j != jobs[0]
  {
    OnceTail(jobs);
  }

  predicate OfFlow(j: Job, f: nat) {
    j == InOp(f) || j == InCancel(f) || j == InDone(f)
  }

  /** Setting or taking back one job. */
  lemma JobsMember(jobs: seq<Job>, j: Job)
    ensures forall k :: k in SetJob(jobs, j) <==> k == j || k in jobs
    ensures forall k :: k in Without(jobs, j) <==> k != j && k in jobs
  {
  }

  lemma JobsKept(jobs: seq<Job>, j: Job)
    requires Once(jobs)
    ensures Once(SetJob(jobs, j)) && Once(Without(jobs, j))
    ensures forall g: nat :: !OfFlow(j, g) ==> SameJobs(jobs, SetJob(jobs, j), g) && SameJobs(jobs, Without(jobs, j), g)
    ensures j != ScheduleNext ==> (ScheduleNext in SetJob(jobs, j) <==> ScheduleNext in jobs)
    ensures j != ScheduleNext ==> (ScheduleNext in Without(jobs, j) <==> ScheduleNext in jobs)
  {
    hide Once, Without, SetJob;
    SetOnce(jobs, j);
    JobsMember(jobs, j);
  }

  lemma SameJobsTrans(a: seq<Job>, b: seq<Job>, c: seq<Job>, f: nat)
    requires SameJobs(a, b, f) && SameJobs(b, c, f)
    ensures SameJobs(a, c, f)
  {
  }

  /** Starting to send keeps everything in order. */
  lemma StartedInv(s: Sys, sent: bool)
    requires Inv(s.q) && s.ins.Keys == s.q.data.Keys && Once(s.jobs) && InsOk(s) && TurnOk(s)
    requires P.Consistent(s.out, s.jobs, OutOp, OutCancel, OutDone)
    requires sent ==> s.q.sending != NULL && s.out.state.None?
    requires !sent ==> OutOk(s)
    ensures SysInv(Started(s, sent))
  {
    if sent {
      P.SendConsistent(s.out, s.jobs, OutOp, OutCancel, OutDone, s.q.sendingLen);
      SetOnce(s.jobs, OutOp);
      hide Inv, Once, Without;
      InsOkAll(s, Started(s, sent));
    }
  }

  lemma RunScheduleInv(s: Sys)
    requires SysInv(s) && s.jobs != [] && s.jobs[0] == ScheduleNext && !s.q.freeing
    ensures SysInv(Next(s, RunJob))
  {
    JobReady(s);
    ScheduleJobFacts(s.q);
    TailJobs(s.jobs);
    hide Inv, Once, Without, ScheduleJob;
    var s1 := s.(jobs := s.jobs[1..], q := ScheduleJob(s.q));
    assert ScheduleNext !in s1.jobs;
    InsOkAll(s, s1);
    StartedInv(s1, s.q.queued != []);
  }

  /** The jobs of the output leave the queue and the flows alone. */
  lemma RunOutputInv(s: Sys)
    requires SysInv(s) && s.jobs != [] && (s.jobs[0].OutOp? || s.jobs[0].OutCancel? || s.jobs[0].Other?)
    requires s.q.freeing ==> s.jobs[0].Other?
    ensures SysInv(Next(s, RunJob))
  {
    hide Inv, Once, InsOk, Active;
    JobReady(s);
    TailJobs(s.jobs);
    P.RunConsistent(s.out, s.jobs, OutOp, OutCancel, OutDone);
    InsOkAll(s, Next(s, RunJob));
  }

  lemma RunInDoneInv(s: Sys)
    requires SysInv(s) && s.jobs != [] && s.jobs[0].InDone? && !s.q.freeing
    ensures SysInv(Next(s, RunJob))
  {
    JobReady(s);
    TailJobs(s.jobs);
    var f := s.jobs[0].f;
    assert InOk(s, f);
    P.RunConsistent(s.ins[f], s.jobs, InOp(f), InCancel(f), InDone(f));
    P.RunConsistent(s.out, s.jobs, OutOp, OutCancel, OutDone);
    hide Inv, Once;
    var s' := Next(s, RunJob);
    InsOkStep(s, s', f);
  }

  /** The queue accepts a packet: the input of the flow, before a send is started. */
  function Accepted(s: Sys, f: nat, pending: bool): Sys
    requires f in s.q.data && f in s.ins && forall g :: g in s.q.queued ==> g in s.q.data
  {
    s.(q := InputSend(s.q, f, s.ins[f].len, pending), ins := s.ins[f := P.OperationRun(s.ins[f])])
  }

  lemma AcceptedIns(s: Sys, jobs: seq<Job>, f: nat, pending: bool)
    requires Inv(s.q) && s.ins.Keys == s.q.data.Keys && InsOk(s) && f in s.ins && s.ins[f].state.OperationPending?
    requires s.q.previous != NULL ==> pending
    requires P.Consistent(P.OperationRun(s.ins[f]), jobs, InOp(f), InCancel(f), InDone(f))
    requires forall g: nat :: g != f ==> SameJobs(s.jobs, jobs, g)
    ensures Shaped(s) && InsOk(Accepted(s.(jobs := jobs), f, pending))
  {
    assert InOk(s, f);
    InputSendFacts(s.q, f, s.ins[f].len, pending);
    hide Inv, InputSend, P.Consistent, SameJobs;
    InsOkStep(s, Accepted(s.(jobs := jobs), f, pending), f);
  }

  lemma TailSame(jobs: seq<Job>, f: nat)
    requires Once(jobs) && jobs != [] && forall g: nat :: g != f ==> !OfFlow(jobs[0], g)
    ensures forall g: nat :: g != f ==> SameJobs(jobs, jobs[1..], g)
  {
    TailJobs(jobs);
    hide Once;
    forall g: nat | g != f ensures SameJobs(jobs, jobs[1..], g) {
      assert !OfFlow(jobs[0], g);
    }
  }

  lemma ActiveMeans(q: Queue, f: nat)
    requires f in q.data
    ensures Active(q, f) <==> q.data[f].isQueued || q.sending == f
  {
  }

  lemma RunInOpIns(s: Sys)
    requires SysInv(s) && s.jobs != [] && s.jobs[0].InOp? && !s.q.freeing
    ensures Shaped(s) && s.jobs[0].f in s.ins
    ensures InsOk(Accepted(s.(jobs := s.jobs[1..]), s.jobs[0].f, ScheduleNext in s.jobs[1..]))
  {
    JobReady(s);
    var f := s.jobs[0].f;
    assert InOk(s, f);
    P.RunConsistent(s.ins[f], s.jobs, InOp(f), InCancel(f), InDone(f));
    TailSame(s.jobs, f);
    assert ScheduleNext in s.jobs ==> ScheduleNext in s.jobs[1..] by {
      TailJobs(s.jobs);
    }
    hide Inv, Once, SameJobs, P.Consistent, InOk, Accepted;
    AcceptedIns(s, s.jobs[1..], f, ScheduleNext in s.jobs[1..]);
  }

  lemma RunInOpInv(s: Sys)
    requires SysInv(s) && s.jobs != [] && s.jobs[0].InOp? && !s.q.freeing
    ensures Shaped(s) && s.jobs[0].f in s.ins && SysInv(RunInOp(s.(jobs := s.jobs[1..]), s.jobs[0].f))
  {
    hide Inv, Once, InputSend, Active;
    RunInOpIns(s);
    JobReady(s);
    TailJobs(s.jobs);
    var f, pending := s.jobs[0].f, ScheduleNext in s.jobs[1..];
    assert InOk(s, f) && !s.q.data[f].isQueued && f != s.q.sending by {
      ActiveMeans(s.q, f);
    }
    hide InsOk;
    InputSendFacts(s.q, f, s.ins[f].len, pending);
    P.RunConsistent(s.out, s.jobs, OutOp, OutCancel, OutDone);
    StartedInv(Accepted(s.(jobs := s.jobs[1..]), f, pending), s.q.sending == NULL && !pending);
  }

  lemma DoneJobsKept(jobs: seq<Job>, f: nat)
    requires Once(jobs)
    ensures var jobs' := P.DoneJobs(SetJob(jobs, ScheduleNext), InCancel(f), InDone(f));
      && Once(jobs') && ScheduleNext in jobs'
      && (forall g: nat :: g != f ==> SameJobs(jobs, jobs', g))
      && (forall k :: k in jobs' <==> k == ScheduleNext || k == InDone(f) || (k in jobs && k != InCancel(f)))
  {
    hide Once, Without, SetJob;
    var jobs1 := SetJob(jobs, ScheduleNext);
    SetOnce(jobs, ScheduleNext);
    SetOnce(jobs1, InCancel(f));
    SetOnce(Without(jobs1, InCancel(f)), InDone(f));
    JobsMember(jobs, ScheduleNext);
    JobsMember(jobs1, InCancel(f));
    JobsMember(Without(jobs1, InCancel(f)), InDone(f));
  }

  lemma DoneSame(jobs: seq<Job>, f: nat)
    ensures var jobs' := P.DoneJobs(SetJob(jobs, ScheduleNext), InCancel(f), InDone(f));
      && InCancel(f) !in jobs' && InDone(f) in jobs' && (InOp(f) in jobs' <==> InOp(f) in jobs)
      && forall g: nat :: g != f ==> SameJobs(jobs, jobs', g)
  {
    JobsMember(jobs, ScheduleNext);
    JobsMember(SetJob(jobs, ScheduleNext), InCancel(f));
    JobsMember(Without(SetJob(jobs, ScheduleNext), InCancel(f)), InDone(f));
    hide Without, SetJob;
  }

  lemma FinishedIn(s: Sys, jobs: seq<Job>)
    requires Inv(s.q) && s.ins.Keys == s.q.data.Keys && InsOk(s) && s.q.sending != NULL
    requires SameJobs(s.jobs, jobs, s.q.sending)
    ensures Shaped(s) && s.q.sending in s.ins && InOk(RunOutDone(s.(jobs := jobs)), s.q.sending)
  {
    var f := s.q.sending;
    assert InOk(s, f) && Active(s.q, f);
    OutputDoneFacts(s.q);
    DoneSame(jobs, f);
    hide Inv, OutputDone, Without, SetJob, P.DoneJobs;
  }

  lemma FinishedIns(s: Sys, jobs: seq<Job>)
    requires Inv(s.q) && s.ins.Keys == s.q.data.Keys && InsOk(s) && s.q.sending != NULL
    requires forall g: nat :: g != s.q.sending ==> SameJobs(s.jobs, jobs, g)
    requires SameJobs(s.jobs, jobs, s.q.sending)
    ensures Shaped(s) && s.q.sending in s.ins && InsOk(RunOutDone(s.(jobs := jobs)))
  {
    var f := s.q.sending;
    OutputDoneFacts(s.q);
    FinishedIn(s, jobs);
    DoneSame(jobs, f);
    hide Inv, OutputDone, Without, SetJob, P.DoneJobs, InOk;
    var s' := RunOutDone(s.(jobs := jobs));
    forall g: nat | g != f ensures SameJobs(s.jobs, s'.jobs, g) {
      SameJobsTrans(s.jobs, jobs, s'.jobs, g);
    }
    hide SameJobs;
    InsOkStep(s, s', f);
  }

  lemma RunOutDoneIns(s: Sys)
    requires SysInv(s) && s.jobs != [] && s.jobs[0] == OutDone && !s.q.freeing
    ensures Shaped(s) && s.q.sending in s.ins && InsOk(RunOutDone(s.(jobs := s.jobs[1..])))
  {
    hide Inv, Once, InsOk, OutOk, TurnOk;
    JobReady(s);
    TailSame(s.jobs, s.q.sending);
    TailJobs(s.jobs);
    FinishedIns(s, s.jobs[1..]);
  }

  lemma RunOutDoneInv(s: Sys)
    requires SysInv(s) && s.jobs != [] && s.jobs[0] == OutDone && !s.q.freeing
    ensures Shaped(s) && s.q.sending in s.ins && SysInv(RunOutDone(s.(jobs := s.jobs[1..])))
  {
    hide Inv, Once, Without, SetJob, OutputDone, P.DoneJobs, InsOk, SameJobs, Active;
    RunOutDoneIns(s);
    JobReady(s);
    TailJobs(s.jobs);
    OutputDoneFacts(s.q);
    P.RunConsistent(s.out, s.jobs, OutOp, OutCancel, OutDone);
    DoneJobsKept(s.jobs[1..], s.q.sending);
  }

  lemma SendInv(s: Sys, f: nat, len: int)
    requires SysInv(s) && Enabled(s, Send(f, len))
    ensures SysInv(Next(s, Send(f, len)))
  {
    hide Inv, Once, SetJob, SameJobs, Active, InsOk;
    P.OthersConsistent(s.out, s.jobs, OutOp, OutCancel, OutDone, InOp(f));
    JobsKept(s.jobs, InOp(f));
    SendIns(s, f, len);
  }

  lemma SendIns(s: Sys, f: nat, len: int)
    requires SysInv(s) && Enabled(s, Send(f, len))
    ensures InsOk(Next(s, Send(f, len)))
  {
    hide Inv, Once, SetJob, SameJobs, Active, OutOk, TurnOk;
    assert InOk(s, f);
    P.SendConsistent(s.ins[f], s.jobs, InOp(f), InCancel(f), InDone(f), len);
    JobsKept(s.jobs, InOp(f));
    hide P.Consistent;
    InsOkStep(s, Next(s, Send(f, len)), f);
  }

  lemma ProviderDoneInv(s: Sys)
    requires SysInv(s) && Enabled(s, ProviderDone)
    ensures SysInv(Next(s, ProviderDone))
  {
    hide Inv, Once, Without;
    P.DoneConsistent(s.out, s.jobs, OutOp, OutCancel, OutDone);
    SetOnce(s.jobs, OutCancel);
    SetOnce(Without(s.jobs, OutCancel), OutDone);
    InsOkAll(s, Next(s, ProviderDone));
  }

  lemma RequestCancelInv(s: Sys)
    requires SysInv(s) && Enabled(s, RequestCancel)
    ensures SysInv(Next(s, RequestCancel)) && ScheduleNext !in s.jobs
  {
    hide Inv, Once, Without;
    P.CancelConsistent(s.out, s.jobs, OutOp, OutCancel, OutDone);
    SetOnce(s.jobs, OutOp);
    SetOnce(Without(s.jobs, OutOp), OutDone);
    SetOnce(s.jobs, OutCancel);
    InsOkAll(s, Next(s, RequestCancel));
  }

  lemma HandlerInv(s: Sys, on: bool)
    requires SysInv(s) && Enabled(s, Handler(on))
    ensures SysInv(Next(s, Handler(on)))
  {
    SetBusyHandlerInv(s.q, s.q.sending, on);
    assert s.q.sending in s.q.data;
    hide Inv, Once;
    InsOkAll(s, Next(s, Handler(on)));
  }

  lemma InitActive(q: Queue, f: nat)
    requires Inv(q) && f !in q.data
    ensures Inv(FlowInit(q, f)) && 0 <= q.mtu && forall g :: Active(FlowInit(q, f), g) <==> Active(q, g)
  {
    FlowInitInv(q, f);
  }

  lemma InitInv(s: Sys, f: nat)
    requires SysInv(s) && Enabled(s, Init(f))
    ensures SysInv(Next(s, Init(f)))
  {
    hide Inv, Once;
    InitActive(s.q, f);
    assert f !in s.ins && Absent(s.jobs, f) && !Active(s.q, f);
    InsOkStep(s, Next(s, Init(f)), f);
  }

  lemma FreeJobsKept(jobs: seq<Job>, f: nat)
    requires Once(jobs)
    ensures var jobs' := Without(Without(Without(jobs, InDone(f)), InCancel(f)), InOp(f));
      && Once(jobs') && Absent(jobs', f)
      && (forall g: nat :: g != f ==> SameJobs(jobs, jobs', g))
      && (forall k :: k in jobs' <==> k in jobs && !OfFlow(k, f))
  {
    hide Once, Without, SetJob;
    var jobs1 := Without(jobs, InDone(f));
    SetOnce(jobs, InDone(f));
    SetOnce(jobs1, InCancel(f));
    SetOnce(Without(jobs1, InCancel(f)), InOp(f));
    JobsMember(jobs, InDone(f));
    JobsMember(jobs1, InCancel(f));
    JobsMember(Without(jobs1, InCancel(f)), InOp(f));
  }

  lemma FreeIns(s: Sys, f: nat)
    requires SysInv(s) && Enabled(s, Free(f))
    ensures InsOk(Next(s, Free(f)))
  {
    FlowFreeFacts(s.q, f);
    FreeJobsKept(s.jobs, f);
    hide Inv, Once, Without, SameJobs, InOk, OutOk, TurnOk, Once;
    InsOkStep(s, Next(s, Free(f)), f);
  }

  lemma FreeInv(s: Sys, f: nat)
    requires SysInv(s) && Enabled(s, Free(f))
    ensures SysInv(Next(s, Free(f)))
  {
    FlowFreeFacts(s.q, f);
    FreeJobsKept(s.jobs, f);
    FreeIns(s, f);
    hide Inv, Once, Without, SameJobs, InsOk;
  }

  lemma SetOtherInv(s: Sys, n: nat)
    requires SysInv(s)
    ensures SysInv(Next(s, SetOther(n))) && SysInv(Next(s, UnsetOther(n)))
  {
    P.OthersConsistent(s.out, s.jobs, OutOp, OutCancel, OutDone, Other(n));
    JobsKept(s.jobs, Other(n));
    hide Inv, Once, SetJob, SameJobs, P.Consistent, InOk;
    InsOkAll(s, Next(s, SetOther(n)));
    InsOkAll(s, Next(s, UnsetOther(n)));
  }

  lemma PrepareInv(s: Sys)
    requires SysInv(s)
    ensures SysInv(Next(s, Prepare))
  {
    assert Inv(PrepareFree(s.q));
    hide Inv, Once;
    InsOkAll(s, Next(s, Prepare));
  }

  /** Whatever happens, in whatever order, the whole system stays in order. */
  lemma NextInv(s: Sys, a: Act)
    requires SysInv(s) && Enabled(s, a)
    ensures SysInv(Next(s, a))
  {
    hide SysInv, Inv, RunOutDone, RunInOp, RunSchedule;
    match a {
      case RunJob =>
        JobReady(s);
        match s.jobs[0] {
          case ScheduleNext => RunScheduleInv(s);
          case OutDone => RunOutDoneInv(s);
            assert Next(s, RunJob) == RunOutDone(s.(jobs := s.jobs[1..]));
          case InOp(f) => RunInOpInv(s);
            assert Next(s, RunJob) == RunInOp(s.(jobs := s.jobs[1..]), f);
          case InDone(f) => RunInDoneInv(s);
          case InCancel(f) => JobReady(s);
          case _ => RunOutputInv(s);
        }
      case Send(f, len) => SendInv(s, f, len);
      case ProviderDone => ProviderDoneInv(s);
      case RequestCancel => RequestCancelInv(s);
      case Handler(on) => HandlerInv(s, on);
      case Init(f) => InitInv(s, f);
      case Free(f) => FreeInv(s, f);
      case Prepare => PrepareInv(s);
      case SetOther(n) => SetOtherInv(s, n);
      case UnsetOther(n) => SetOtherInv(s, n);
    }
  }
}
