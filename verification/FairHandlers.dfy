/** The fair queue: when a flow's busy handler is called. */
module FairHandlers {
  // It is called once for each time it is set, when the flow's packet is done.

  import opened Sequences
  import opened FairQueue
  import opened FairSystem
  import opened FairRuns

  /** A busy handler is set for flow `f`. */
  predicate Set(s: Sys, f: nat) {
    f in s.q.data && s.q.data[f].busy
  }

  /** The step calls the busy handler of `f`. */
  predicate Calls(s: Sys, a: Act, f: nat) {
    Completes(s, a) && s.q.sending == f && Set(s, f)
  }

  predicate Sets(s: Sys, a: Act, f: nat, on: bool) {
    a == Handler(on) && s.q.sending == f
  }

  /** A handler is set by that call and by nothing else; unset by that call, by being called, or because
      the flow is new or gone. */
  lemma StepSet(s: Sys, a: Act, f: nat)
    requires SysInv(s) && Enabled(s, a)
    ensures Sets(s, a, f, true) ==> Set(Next(s, a), f)
    ensures Sets(s, a, f, false) || Calls(s, a, f) || a == Init(f) || a == Free(f) ==> !Set(Next(s, a), f)
    ensures !Sets(s, a, f, true) && !Sets(s, a, f, false) && !Calls(s, a, f) && a != Init(f) && a != Free(f) ==>
      (Set(Next(s, a), f) <==> Set(s, f))
  {
    if a.RunJob? {
      JobSet(s, f);
    } else {
      OutsideSet(s, a, f);
    }
    hide SysInv, Next;
  }

  lemma OutsideSet(s: Sys, a: Act, f: nat)
    requires SysInv(s) && Enabled(s, a) && !a.RunJob?
    ensures Set(Next(s, a), f) <==>
      a != Free(f) && a != Init(f) && if a.Handler? && s.q.sending == f then a.on else Set(s, f)
  {
    hide Inv, InsOk, OutOk, TurnOk;
    InvOpen(s.q);
  }

  lemma JobSet(s: Sys, f: nat)
    requires SysInv(s) && Enabled(s, RunJob)
    ensures Set(Next(s, RunJob), f) <==> Set(s, f) && !Calls(s, RunJob, f)
  {
    hide InsOk, Inv, OutOk, TurnOk, OutputDone, InputSend;
    JobReady(s);
    InvOpen(s.q);
    var j := s.jobs[0];
    if j.OutDone? {
      DoneSet(s.q, f);
    } else if j.InOp? {
      SendSet(s.q, j.f, s.ins[j.f].len, ScheduleNext in s.jobs[1..], f);
    }
  }

  lemma DoneSet(q: Queue, f: nat)
    requires q.sending != NULL && q.sending in q.data
    ensures var d := OutputDone(q).data; f in d && d[f].busy <==> f in q.data && q.data[f].busy && f != q.sending
  {
    IncrementSentKeeps(q.(sending := NULL, previous := q.sending), q.sending, q.weight + q.sendingLen);
    hide IncrementSent;
  }

  lemma SendSet(q: Queue, g: nat, len: int, pending: bool, f: nat)
    requires g in q.data && forall h :: h in q.queued ==> h in q.data
    ensures var d := InputSend(q, g, len, pending).data; f in d && d[f].busy <==> f in q.data && q.data[f].busy
  {
    EnqueuedFirst(Raised(q, g), g, len);
    hide CurrentTime, Place;
  }

  /** The state before step `i` of a run. */
  function StateAt(s: Sys, t: seq<Act>, i: nat): (r: Sys)
    requires SysInv(s) && Possible(s, t) && i <= |t|
    ensures SysInv(r) && (i < |t| ==> Enabled(r, t[i]))
    decreases |t|
  {
    if i == 0 then s else NextInv(s, t[0]); StateAt(Next(s, t[0]), t[1..], i - 1)
  }

  lemma StateAtNext(s: Sys, t: seq<Act>, i: nat)
    requires SysInv(s) && Possible(s, t) && i < |t|
    ensures SysInv(Next(s, t[0])) && Possible(Next(s, t[0]), t[1..])
    ensures StateAt(s, t, i + 1) == StateAt(Next(s, t[0]), t[1..], i)
  {
    NextInv(s, t[0]);
    hide SysInv, Next, Enabled;
  }

  /** A handler that is called was set, or had been from the start. */
  lemma {:induction false} CalledSet(s: Sys, t: seq<Act>, f: nat, j: nat) returns (k: nat)
    requires SysInv(s) && Possible(s, t) && j < |t| && !Set(s, f) && Calls(StateAt(s, t, j), t[j], f)
    ensures k < j && Sets(StateAt(s, t, k), t[k], f, true)
    decreases |t|
  {
    hide SysInv, Next, Enabled, Set, Calls, Sets;
    assert j > 0 by {
      CallsSet(s, t[0], f);
    }
    NextInv(s, t[0]);
    if Sets(s, t[0], f, true) {
      k := 0;
    } else {
      StepSet(s, t[0], f);
      k := CalledSet(Next(s, t[0]), t[1..], f, j - 1);
      k := k + 1;
    }
  }

  lemma CallsSet(s: Sys, a: Act, f: nat)
    ensures Calls(s, a, f) ==> Set(s, f)
  {
  }

  /** Between two calls of a flow's busy handler it was set again. */
  lemma {:induction false} OneShot(s: Sys, t: seq<Act>, f: nat, i: nat, j: nat) returns (k: nat)
    requires SysInv(s) && Possible(s, t) && i < j < |t|
    requires Calls(StateAt(s, t, i), t[i], f) && Calls(StateAt(s, t, j), t[j], f)
    ensures i < k < j && Sets(StateAt(s, t, k), t[k], f, true)
    decreases |t|
  {
    hide SysInv, Next, Enabled, Set, Calls, Sets;
    NextInv(s, t[0]);
    if i == 0 {
      StepSet(s, t[0], f);
      k := CalledSet(Next(s, t[0]), t[1..], f, j - 1);
    } else {
      k := OneShot(Next(s, t[0]), t[1..], f, i - 1, j - 1);
    }
    k := k + 1;
  }

  /** Step `k` leaves a handler of `f` alone. */
  predicate Leaves(s: Sys, t: seq<Act>, f: nat, k: nat)
    requires SysInv(s) && Possible(s, t) && k < |t|
  {
    t[k] != Handler(false) && t[k] != Free(f) && !Completes(StateAt(s, t, k), t[k])
  }

  lemma LeavesNext(s: Sys, t: seq<Act>, f: nat, k: nat)
    requires SysInv(s) && Possible(s, t) && k + 1 < |t| && Leaves(s, t, f, k + 1)
    ensures SysInv(Next(s, t[0])) && Possible(Next(s, t[0]), t[1..]) && Leaves(Next(s, t[0]), t[1..], f, k)
  {
    StateAtNext(s, t, k);
    hide SysInv, Next, Enabled, Completes, StateAt, Possible;
  }

  /** A handler that is set is called when the packet is done, unless it is unset before. */
  lemma {:induction false} SetCalled(s: Sys, t: seq<Act>, f: nat, j: nat)
    requires SysInv(s) && Possible(s, t) && j < |t| && Set(s, f)
    requires forall k: nat :: k < j ==> Leaves(s, t, f, k)
    requires Completes(StateAt(s, t, j), t[j]) && StateAt(s, t, j).q.sending == f
    ensures Calls(StateAt(s, t, j), t[j], f)
    decreases |t|
  {
    hide SysInv, Next, Enabled, Set, Completes, StateAt, Possible, Calls, Leaves;
    if j == 0 {
      CalledNow(s, t, f);
    } else {
      StateAtFirst(s, t);
      LeftSet(s, t, f);
      StateAtNext(s, t, j - 1);
      forall k: nat | k < j - 1 ensures Leaves(Next(s, t[0]), t[1..], f, k) {
        LeavesNext(s, t, f, k);
      }
      SetCalled(Next(s, t[0]), t[1..], f, j - 1);
    }
  }

  lemma CalledNow(s: Sys, t: seq<Act>, f: nat)
    requires SysInv(s) && Possible(s, t) && t != [] && Set(s, f)
    requires Completes(StateAt(s, t, 0), t[0]) && StateAt(s, t, 0).q.sending == f
    ensures Calls(StateAt(s, t, 0), t[0], f)
  {
    StateAtFirst(s, t);
    hide SysInv, Completes, Set, StateAt, Possible;
  }

  lemma LeftSet(s: Sys, t: seq<Act>, f: nat)
    requires SysInv(s) && Possible(s, t) && t != [] && Set(s, f) && Leaves(s, t, f, 0)
    ensures SysInv(Next(s, t[0])) && Possible(Next(s, t[0]), t[1..]) && Set(Next(s, t[0]), f)
  {
    StateAtFirst(s, t);
    StateAtNext(s, t, 0);
    hide SysInv, Completes, Set, StateAt, Possible, Enabled, Next;
    KeptSet(s, t, f);
  }

  lemma StateAtFirst(s: Sys, t: seq<Act>)
    requires SysInv(s) && Possible(s, t)
    ensures StateAt(s, t, 0) == s && (t != [] ==> Enabled(s, t[0]))
  {
    hide SysInv, Enabled;
  }

  lemma KeptSet(s: Sys, t: seq<Act>, f: nat)
    requires SysInv(s) && t != [] && Enabled(s, t[0]) && Set(s, f)
    requires t[0] != Handler(false) && t[0] != Free(f) && !Completes(s, t[0])
    ensures Set(Next(s, t[0]), f)
  {
    hide SysInv, Next;
    StepSet(s, t[0], f);
  }
}
