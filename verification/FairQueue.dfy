/** The fair queue, in virtual time. */
module FairQueue {
  // Flows share one output, and the flow that has sent least is served next.

  import opened AvlTheory
  import opened Sequences
  import opened AvlSearch
  import opened AvlRemoval
  import opened CAvl

  const TWO64: int := 0x1_0000_0000_0000_0000

  /** One flow: its virtual time, whether it waits in the queue and with a packet of which
      length, and whether a busy handler is set. */
  datatype Flow = Flow(time: int, isQueued: bool, len: int, busy: bool)

  /** The queue. `maxTime` is FAIRQUEUE_MAX_TIME; `queued` is the content of the tree, in order. */
  datatype Queue = Queue(maxTime: int, weight: int, mtu: int, flows: seq<nat>, data: map<nat, Flow>,
                         queued: seq<nat>, sending: Link, sendingLen: int, previous: Link, freeing: bool)

  // ---------------------------------------------------------------- the order of the flows

  function TimeOf(d: map<nat, Flow>, f: int): int {
    if f in d then d[f].time else 0
  }

  /** B_COMPARE */
  function Order(x: int, y: int): int {
    if x < y then -1 else if x > y then 1 else 0
  }

  /** By time, then by identity. */
  function CompareFlows(d: map<nat, Flow>, f1: nat, f2: nat): int {
    var cmp := Order(TimeOf(d, f1), TimeOf(d, f2));
    if cmp != 0 then cmp else Order(f1, f2)
  }

  function Comparator(d: map<nat, Flow>): (nat, nat) -> int {
    (f1: nat, f2: nat) => CompareFlows(d, f1, f2)
  }

  lemma ComparatorTotal(d: map<nat, Flow>)
    ensures TotalOrder(Comparator(d))
  {
    var cmp := Comparator(d);
    forall a: nat, b: nat ensures CmpAt(cmp, a, b) {
      assert cmp(a, b) == CompareFlows(d, a, b) && cmp(b, a) == CompareFlows(d, b, a);
    }
    forall a: nat, b: nat, c: nat ensures TransAt(cmp, a, b, c) {
      assert cmp(a, b) == CompareFlows(d, a, b) && cmp(b, c) == CompareFlows(d, b, c) && cmp(a, c) == CompareFlows(d, a, c);
    }
  }

  /** Inserting into the queue. */
  function Place(d: map<nat, Flow>, s: seq<nat>, f: nat): seq<nat> {
    if s == [] || CompareFlows(d, f, s[0]) < 0 then [f] + s else [s[0]] + Place(d, s[1..], f)
  }

  lemma {:induction false} PlaceAt(d: map<nat, Flow>, s: seq<nat>, f: nat, k: nat)
    requires k <= |s|
    requires forall i :: 0 <= i < k ==> CompareFlows(d, f, s[i]) == 1
    requires forall i :: k <= i < |s| ==> CompareFlows(d, f, s[i]) == -1
    ensures Place(d, s, f) == s[..k] + [f] + s[k..]
  {
    if k > 0 {
      PlaceAt(d, s[1..], f, k - 1);
      assert s[1..][..k - 1] == s[1..k] && s[1..][k - 1..] == s[k..];
      assert [s[0]] + s[1..k] == s[..k];
    }
  }

  lemma {:induction false} PlaceSorted(d: map<nat, Flow>, s: seq<nat>, f: nat)
    requires Sorted(Comparator(d), s) && f !in s
    ensures Sorted(Comparator(d), Place(d, s, f))
    ensures forall g: nat :: g in Place(d, s, f) <==> g == f || g in s
    ensures Place(d, s, f)[0] == f || (s != [] && Place(d, s, f)[0] == s[0])
  {
    var r := Place(d, s, f);
    var cmp := Comparator(d);
    if s == [] || CompareFlows(d, f, s[0]) < 0 {
      forall i, j | 0 <= i < j < |r| ensures cmp(r[i], r[j]) == -1 {
        if i == 0 {
          assert s[j - 1] == s[0] || cmp(s[0], s[j - 1]) == -1;
        } else {
          assert cmp(s[i - 1], s[j - 1]) == -1;
        }
      }
    } else {
      PlaceSorted(d, s[1..], f);
      var p := Place(d, s[1..], f);
      forall i, j | 0 <= i < j < |r| ensures cmp(r[i], r[j]) == -1 {
        if i == 0 {
          assert r[j] in p;
          if r[j] != f {
            var n :| 0 <= n < |s[1..]| && s[1..][n] == r[j];
            assert cmp(s[0], s[n + 1]) == -1;
          }
        } else {
          assert cmp(p[i - 1], p[j - 1]) == -1;
        }
      }
    }
  }

  /** Taking the same off every time keeps the order. */
  lemma SortedShifted(d: map<nat, Flow>, d': map<nat, Flow>, s: seq<nat>, off: int)
    requires Sorted(Comparator(d), s)
    requires forall f :: f in s ==> TimeOf(d', f) == TimeOf(d, f) - off
    ensures Sorted(Comparator(d'), s)
  {
    forall i, j | 0 <= i < j < |s| ensures Comparator(d')(s[i], s[j]) == -1 {
      assert Comparator(d)(s[i], s[j]) == -1;
    }
  }

  lemma SortedTail(d: map<nat, Flow>, s: seq<nat>)
    requires Sorted(Comparator(d), s) && s != []
    ensures Sorted(Comparator(d), s[1..]) && s[0] !in s[1..]
    ensures forall f :: f in s ==> TimeOf(d, s[0]) <= TimeOf(d, f)
  {
    forall i, j | 0 <= i < j < |s[1..]| ensures Comparator(d)(s[1..][i], s[1..][j]) == -1 {
      assert Comparator(d)(s[i + 1], s[j + 1]) == -1;
    }
    forall i | 0 < i < |s| ensures TimeOf(d, s[0]) <= TimeOf(d, s[i]) && s[i] != s[0] {
      assert Comparator(d)(s[0], s[i]) == -1;
    }
  }

  lemma {:induction false} SortedWithout(d: map<nat, Flow>, s: seq<nat>, f: nat)
    requires Sorted(Comparator(d), s)
    ensures Sorted(Comparator(d), Without(s, f))
  {
    if s != [] {
      SortedTail(d, s);
      SortedWithout(d, s[1..], f);
      var w := Without(s[1..], f);
      if s[0] != f {
        var r := [s[0]] + w;
        forall i, j | 0 <= i < j < |r| ensures Comparator(d)(r[i], r[j]) == -1 {
          if i == 0 {
            assert r[j] in s[1..];
            var n :| 0 <= n < |s[1..]| && s[1..][n] == r[j];
            assert Comparator(d)(s[0], s[n + 1]) == -1;
          } else {
            assert Comparator(d)(w[i - 1], w[j - 1]) == -1;
          }
        }
      }
    }
  }

  // ---------------------------------------------------------------- what always holds

  ghost predicate Sizes(q: Queue) {
    0 < q.weight && 0 <= q.mtu && q.weight + q.mtu <= q.maxTime < TWO64
  }

  ghost predicate Listed(q: Queue) {
    && Once(q.flows) && (forall f :: f in q.flows <==> f in q.data)
    && (forall f :: f in q.data ==> 0 <= q.data[f].time <= q.maxTime)
  }

  ghost predicate Waiting(q: Queue) {
    && (forall f :: f in q.queued ==> f in q.data && 0 <= q.data[f].len <= q.mtu)
    && (forall f :: f in q.data ==> (q.data[f].isQueued <==> f in q.queued))
    && Sorted(Comparator(q.data), q.queued)
  }

  /** The flow being served is not queued, has no predecessor left, and is behind nobody. */
  ghost predicate Served(q: Queue) {
    && (q.sending != NULL ==>
      && q.sending in q.data && q.sending !in q.queued && q.previous == NULL && 0 <= q.sendingLen <= q.mtu
      && forall f :: f in q.queued ==> TimeOf(q.data, q.sending) <= TimeOf(q.data, f))
    && (q.previous != NULL ==> q.previous in q.data && q.previous !in q.queued)
  }

  ghost predicate Inv(q: Queue) {
    Sizes(q) && Listed(q) && Waiting(q) && Served(q)
  }

  /** What the methods need of the invariant when they run. */
  lemma InvOpen(q: Queue)
    requires Inv(q)
    ensures Once(q.flows) && (forall f :: f in q.flows <==> f in q.data)
    ensures forall f :: f in q.data ==> 0 <= q.data[f].time && (q.data[f].isQueued <==> f in q.queued)
    ensures forall f :: f in q.queued ==> f in q.data
    ensures Sorted(Comparator(q.data), q.queued)
    ensures q.sending != NULL ==> q.sending in q.data
    ensures q.previous != NULL ==> q.previous in q.data
  {
  }

  // ---------------------------------------------------------------- the operations

  /** get_current_time */
  function CurrentTime(q: Queue): int {
    if q.sending != NULL then TimeOf(q.data, q.sending)
    else
      var have := q.queued != [];
      var time := if have then TimeOf(q.data, q.queued[0]) else 0;
      if q.previous != NULL && (!have || TimeOf(q.data, q.previous) < time) then TimeOf(q.data, q.previous) else time
  }

  /** Subtraction and addition on 64-bit unsigned integers. */
  function Sub64(x: int, y: int): int {
    (x - y) % TWO64
  }

  function Add64(x: int, y: int): int {
    (x + y) % TWO64
  }

  /** What is taken off every time when the finished flow's time would overflow. */
  function Subtract(q: Queue, f: nat): int {
    if q.queued == [] then TimeOf(q.data, f) else TimeOf(q.data, q.queued[0])
  }

  function LoweredTime(time: int, subtract: int, finished: bool): int {
    if subtract > time && !finished then 0 else Sub64(time, subtract)
  }

  function Lowered(d: map<nat, Flow>, f: nat, subtract: int): map<nat, Flow> {
    map g | g in d :: d[g].(time := LoweredTime(d[g].time, subtract, g == f))
  }

  function Overflows(q: Queue, f: nat, amount: int): bool {
    amount > q.maxTime - TimeOf(q.data, f)
  }

  /** increment_sent_flow */
  function IncrementSent(q: Queue, f: nat, amount: int): Queue
    requires f in q.data
  {
    var d := if Overflows(q, f, amount) then Lowered(q.data, f, Subtract(q, f)) else q.data;
    q.(data := d[f := d[f].(time := Add64(d[f].time, amount))])
  }

  /** schedule: the first queued flow sends. */
  function Schedule(q: Queue): Queue
    requires q.queued != [] && q.queued[0] in q.data
  {
    var f := q.queued[0];
    q.(queued := q.queued[1..], data := q.data[f := q.data[f].(isQueued := false)],
       sending := f, sendingLen := q.data[f].len)
  }

  /** schedule_job_handler */
  function ScheduleJob(q: Queue): Queue
    requires q.queued != [] ==> q.queued[0] in q.data
  {
    if q.queued == [] then q.(previous := NULL) else Schedule(q.(previous := NULL))
  }

  function Raised(q: Queue, f: nat): Queue
    requires f in q.data
  {
    if f == q.previous then q.(previous := NULL)
    else q.(data := q.data[f := q.data[f].(time := if q.data[f].time < CurrentTime(q) then CurrentTime(q) else q.data[f].time)])
  }

  function Enqueued(q: Queue, f: nat, len: int): Queue
    requires f in q.data
  {
    var d := q.data[f := q.data[f].(len := len, isQueued := true)];
    q.(data := d, queued := Place(q.data, q.queued, f))
  }

  /** input_handler_send; `pending` tells whether the schedule job is set. */
  function InputSend(q: Queue, f: nat, len: int, pending: bool): Queue
    requires f in q.data && forall g :: g in q.queued ==> g in q.data
  {
    var q1 := Enqueued(Raised(q, f), f, len);
    if q1.sending == NULL && !pending then EnqueuedFirst(Raised(q, f), f, len); Schedule(q1) else q1
  }

  lemma EnqueuedFirst(q: Queue, f: nat, len: int)
    requires f in q.data && forall g :: g in q.queued ==> g in q.data
    ensures var q1 := Enqueued(q, f, len); q1.queued != [] && q1.queued[0] in q1.data
  {
  }

  /** output_handler_done, up to the call of the busy handler. */
  function OutputDone(q: Queue): Queue
    requires q.sending != NULL && q.sending in q.data
  {
    var f := q.sending;
    var q1 := IncrementSent(q.(sending := NULL, previous := f), f, q.weight + q.sendingLen);
    q1.(data := q1.data[f := q1.data[f].(busy := false)])
  }

  /** PacketPassFairQueueFlow_Init, _Free, _SetBusyHandler, and PacketPassFairQueue_PrepareFree. */
  function FlowInit(q: Queue, f: nat): Queue {
    q.(data := q.data[f := Flow(0, false, 0, false)], flows := q.flows + [f])
  }

  function FlowFree(q: Queue, f: nat): Queue {
    q.(sending := if q.sending == f then NULL else q.sending,
       previous := if q.previous == f then NULL else q.previous,
       queued := Without(q.queued, f),
       flows := Without(q.flows, f),
       data := q.data - {f})
  }

  function SetBusyHandler(q: Queue, f: nat, on: bool): Queue
    requires f in q.data
  {
    q.(data := q.data[f := q.data[f].(busy := on)])
  }

  function PrepareFree(q: Queue): Queue {
    q.(freeing := true)
  }

  // ---------------------------------------------------------------- renormalisation

  /** In 64-bit arithmetic, the subtraction that may wrap around and the addition after it
      leave exactly the integer time + amount - subtract, within the limit. */
  lemma WrapExact(time: int, amount: int, subtract: int, maxTime: int)
    requires 0 <= time <= subtract <= maxTime < TWO64 && 0 <= amount <= maxTime && amount > maxTime - time
    ensures Add64(Sub64(time, subtract), amount) == time + amount - subtract
    ensures 0 < time + amount - subtract <= maxTime
  {
  }

  /** What the loop over all flows leaves of a time that is not the finished flow's. */
  lemma LoweredExact(time: int, subtract: int)
    requires 0 <= time < TWO64 && 0 <= subtract < TWO64
    ensures LoweredTime(time, subtract, false) == NotNegative(time - subtract)
  {
  }

  lemma AddExact(x: int, y: int)
    requires 0 <= x && 0 <= y && x + y < TWO64
    ensures Add64(x, y) == x + y
  {
  }

  /** What is taken off the times when a packet of the flow in service is finished. */
  function TakenOff(q: Queue): int
    requires q.sending != NULL && q.sending in q.data
  {
    if Overflows(q, q.sending, q.weight + q.sendingLen) then Subtract(q, q.sending) else 0
  }

  function NotNegative(x: int): int {
    if x < 0 then 0 else x
  }

  lemma TakenOffBounds(q: Queue)
    requires Inv(q) && q.sending != NULL
    ensures 0 <= TakenOff(q) <= q.maxTime
    ensures Overflows(q, q.sending, q.weight + q.sendingLen) ==> q.data[q.sending].time <= TakenOff(q)
    ensures forall g :: g in q.queued ==> TakenOff(q) <= q.data[g].time
  {
    if q.queued != [] {
      SortedTail(q.data, q.queued);
      assert q.queued[0] in q.queued;
    }
  }

  lemma FinishedTime(q: Queue)
    requires Inv(q) && q.sending != NULL
    ensures OutputDone(q).data[q.sending].time == q.data[q.sending].time + q.weight + q.sendingLen - TakenOff(q)
    ensures 0 <= OutputDone(q).data[q.sending].time <= q.maxTime
  {
    TakenOffBounds(q);
    var f, amount := q.sending, q.weight + q.sendingLen;
    if Overflows(q, f, amount) {
      WrapExact(q.data[f].time, amount, TakenOff(q), q.maxTime);
    } else {
      AddExact(q.data[f].time, amount);
    }
    hide Sub64, Add64, Sorted, Once;
  }

  lemma OtherTime(q: Queue, g: nat)
    requires Inv(q) && q.sending != NULL && g in q.data && g != q.sending
    ensures OutputDone(q).data[g] == q.data[g].(time := NotNegative(q.data[g].time - TakenOff(q)))
  {
    TakenOffBounds(q);
    LoweredExact(q.data[g].time, TakenOff(q));
    hide Sub64, Add64, Sorted, Once, LoweredTime;
  }

  /** A finished packet adds its weight to its flow, and takes the same off every time: all of it
      off the queued ones, not more than there is off the idle ones. The order stays. */
  lemma RenormalisationExact(q: Queue)
    requires Inv(q) && q.sending != NULL
    ensures var q' := OutputDone(q); var s := TakenOff(q); var f := q.sending;
      && 0 <= s && q'.data.Keys == q.data.Keys
      && q'.data[f].time == q.data[f].time + q.weight + q.sendingLen - s
      && (forall g :: g in q.queued ==> q'.data[g].time == q.data[g].time - s)
      && (forall g :: g in q.data && g != f ==> q'.data[g].time == NotNegative(q.data[g].time - s))
      && (forall g :: g in q.data ==> 0 <= q'.data[g].time <= q.maxTime)
      && q'.queued == q.queued && Sorted(Comparator(q'.data), q.queued)
  {
    var q', s, f := OutputDone(q), TakenOff(q), q.sending;
    TakenOffBounds(q);
    FinishedTime(q);
    assert q'.data.Keys == q.data.Keys && q'.queued == q.queued;
    forall g | g in q.data && g != f
      ensures q'.data[g].time == NotNegative(q.data[g].time - s)
    {
      OtherTime(q, g);
    }
    hide OutputDone, TakenOff, Comparator, Sorted, Once;
    SortedShifted(q.data, q'.data, q.queued, s);
  }

  lemma IncrementSentKeeps(q: Queue, f: nat, amount: int)
    requires f in q.data
    ensures var d := IncrementSent(q, f, amount).data;
      d.Keys == q.data.Keys && forall g :: g in q.data ==> d[g] == q.data[g].(time := d[g].time)
  {
    hide Sub64, Add64, Subtract, LoweredTime;
  }

  // ---------------------------------------------------------------- every operation keeps it

  lemma OutputDoneInv(q: Queue)
    requires Inv(q) && q.sending != NULL
    ensures Inv(OutputDone(q))
  {
    RenormalisationExact(q);
    var q' := OutputDone(q);
    forall g | g in q.data && g != q.sending ensures q'.data[g].isQueued == q.data[g].isQueued && q'.data[g].len == q.data[g].len {
      OtherTime(q, g);
    }
    assert q'.data[q.sending].isQueued == q.data[q.sending].isQueued;
    hide Comparator, Sorted, Once, LoweredTime, Sub64, Add64, Lowered;
  }

  lemma OutputDoneKeeps(q: Queue)
    requires q.sending != NULL && q.sending in q.data
    ensures OutputDone(q) == q.(sending := NULL, previous := q.sending, data := OutputDone(q).data)
    ensures OutputDone(q).data.Keys == q.data.Keys
  {
    IncrementSentKeeps(q.(sending := NULL, previous := q.sending), q.sending, q.weight + q.sendingLen);
  }

  lemma ScheduleInv(q: Queue)
    requires Inv(q) && q.sending == NULL && q.previous == NULL && q.queued != []
    ensures Inv(Schedule(q)) && Schedule(q).sending == q.queued[0]
  {
    var q' := Schedule(q);
    SortedTail(q.data, q.queued);
    SortedShifted(q.data, q'.data, q.queued[1..], 0);
    hide Comparator, Sorted, Once;
    var f := q.queued[0];
    assert forall g :: g in q.queued <==> g == f || g in q.queued[1..];
  }

  lemma ForgetPrevious(q: Queue)
    requires Inv(q)
    ensures Inv(q.(previous := NULL))
  {
  }

  lemma ScheduleJobInv(q: Queue)
    requires Inv(q) && q.sending == NULL
    ensures Inv(ScheduleJob(q))
  {
    ForgetPrevious(q);
    hide Waiting, Listed, Sizes;
    if q.queued != [] {
      ScheduleInv(q.(previous := NULL));
    }
  }

  lemma RaisedInv(q: Queue, f: nat)
    requires Inv(q) && f in q.data && f != q.sending && !q.data[f].isQueued
    ensures Inv(Raised(q, f)) && f in Raised(q, f).data && !Raised(q, f).data[f].isQueued
    ensures q.sending != NULL ==> TimeOf(q.data, q.sending) <= TimeOf(Raised(q, f).data, f)
  {
    hide Comparator, Sorted, Once;
    SortedShifted(q.data, Raised(q, f).data, q.queued, 0);
    if q.queued != [] {
      assert q.queued[0] in q.queued;
    }
  }

  lemma EnqueuedInv(q: Queue, f: nat, len: int)
    requires Inv(q) && f in q.data && f != q.sending && f != q.previous && !q.data[f].isQueued && 0 <= len <= q.mtu
    requires q.sending != NULL ==> TimeOf(q.data, q.sending) <= TimeOf(q.data, f)
    ensures Inv(Enqueued(q, f, len))
  {
    var q' := Enqueued(q, f, len);
    PlaceSorted(q.data, q.queued, f);
    SortedShifted(q.data, q'.data, q'.queued, 0);
    hide Comparator, Sorted, Once, Place;
  }

  lemma InputSendInv(q: Queue, f: nat, len: int, pending: bool)
    requires Inv(q) && f in q.data && f != q.sending && !q.data[f].isQueued && 0 <= len <= q.mtu
    requires q.previous != NULL ==> pending
    ensures Inv(InputSend(q, f, len, pending))
  {
    RaisedInv(q, f);
    EnqueuedFirst(Raised(q, f), f, len);
    hide Waiting, Listed, Sizes, Place;
    EnqueuedInv(Raised(q, f), f, len);
    var q1 := Enqueued(Raised(q, f), f, len);
    if q1.sending == NULL && !pending {
      ScheduleInv(q1);
    }
  }

  // ---------------------------------------------------------------- what the operations come to

  /** The flow picked has the least time, and among those with that time the least identity. */
  lemma PickedFirst(q: Queue, g: nat)
    requires Inv(q) && g in q.queued
    ensures var f := q.queued[0];
      && f in q.data && g in q.data
      && (q.data[f].time < q.data[g].time || (q.data[f].time == q.data[g].time && f <= g))
  {
    var f := q.queued[0];
    assert f in q.queued;
    if g != f {
      var k :| 0 <= k < |q.queued| && q.queued[k] == g;
      assert Comparator(q.data)(f, q.queued[k]) == -1;
    }
  }

  lemma CurrentTimeLeast(q: Queue)
    requires Inv(q) && q.sending == NULL
    ensures q.queued == [] && q.previous == NULL ==> CurrentTime(q) == 0
    ensures q.queued != [] || q.previous != NULL ==>
      exists g: nat :: (g in q.queued || g == q.previous) && g in q.data && CurrentTime(q) == q.data[g].time
    ensures forall g: nat :: g in q.queued || g == q.previous ==> g in q.data && CurrentTime(q) <= q.data[g].time
  {
    if q.queued != [] {
      SortedTail(q.data, q.queued);
      assert q.queued[0] in q.queued;
    }
    hide Sorted, Comparator, Once;
  }

  /** The time of a flow that sends: as it was, or that of the flow in service, or the least one of
      those that are queued or have just been served, whichever is later. */
  lemma SendTime(q: Queue, f: nat, len: int, pending: bool) returns (g: nat)
    requires Inv(q) && f in q.data && f != q.sending && !q.data[f].isQueued && 0 <= len <= q.mtu
    requires q.previous != NULL ==> pending
    ensures Inv(InputSend(q, f, len, pending)) && f in InputSend(q, f, len, pending).data
    ensures var own, time := q.data[f].time, InputSend(q, f, len, pending).data[f].time;
      if f == q.previous || (q.sending == NULL && q.queued == [] && q.previous == NULL) then time == own
      else
        && g in q.data && (if q.sending != NULL then g == q.sending else g in q.queued || g == q.previous)
        && (forall h: nat :: h in q.queued || h == q.previous ==> h in q.data && q.data[g].time <= q.data[h].time)
        && time == if own < q.data[g].time then q.data[g].time else own
  {
    hide Sorted, Comparator, Once, Place;
    InputSendInv(q, f, len, pending);
    EnqueuedFirst(Raised(q, f), f, len);
    if q.sending != NULL {
      g := q.sending;
    } else if q.queued == [] && q.previous == NULL {
      g := f;
    } else {
      CurrentTimeLeast(q);
      g :| (g in q.queued || g == q.previous) && g in q.data && CurrentTime(q) == q.data[g].time;
    }
    hide Inv, CurrentTime;
  }

  /** When the time of the finished flow would exceed the limit, the least queued time is taken off, or,
      if nothing is queued, its own; otherwise nothing is. */
  lemma TakenOffExact(q: Queue)
    requires Inv(q) && q.sending != NULL
    ensures var time := q.data[q.sending].time;
      if time + q.weight + q.sendingLen <= q.maxTime then TakenOff(q) == 0
      else if q.queued == [] then TakenOff(q) == time
      else (exists g :: g in q.queued && TakenOff(q) == q.data[g].time) && forall g :: g in q.queued ==> TakenOff(q) <= q.data[g].time
  {
    TakenOffBounds(q);
    assert q.queued != [] ==> q.queued[0] in q.queued;
    hide Sorted, Comparator, Once;
  }

  lemma SetBusyHandlerInv(q: Queue, f: nat, on: bool)
    requires Inv(q) && f in q.data
    ensures Inv(SetBusyHandler(q, f, on))
  {
    SortedShifted(q.data, SetBusyHandler(q, f, on).data, q.queued, 0);
    hide Comparator, Sorted, Once;
  }

  lemma FlowInitInv(q: Queue, f: nat)
    requires Inv(q) && f !in q.data
    ensures Inv(FlowInit(q, f))
  {
    SortedShifted(q.data, FlowInit(q, f).data, q.queued, 0);
    hide Comparator, Sorted;
  }

  lemma FlowFreeInv(q: Queue, f: nat)
    requires Inv(q) && f in q.data
    ensures Inv(FlowFree(q, f))
  {
    SortedWithout(q.data, q.queued, f);
    SortedShifted(q.data, FlowFree(q, f).data, FlowFree(q, f).queued, 0);
    WithoutOnce(q.flows, f);
    hide Comparator, Sorted, Once;
  }

  // ---------------------------------------------------------------- the tree of queued flows

  /** The tree keeps no aggregates here. */
  function NoAssoc(): Monoid<()> {
    Monoid((), (a: (), b: ()) => (), (f: nat) => ())
  }

  lemma NoAssocLawful()
    ensures Lawful(NoAssoc())
  {
    forall a: () ensures UnitAt(NoAssoc(), a) {
    }
    forall a: (), b: (), c: () ensures AssocAt(NoAssoc(), a, b, c) {
    }
  }

  /** A flow that is not in the tree can always be inserted, at its place. */
  lemma NeverEqual(d: map<nat, Flow>, s: seq<nat>, f: nat)
    requires f !in s
    ensures forall g: nat :: g in s ==> Comparator(d)(f, g) != 0
  {
  }

  lemma PlacedIsPlace(d: map<nat, Flow>, s: seq<nat>, s': seq<nat>, f: nat, k: nat, ref: Link)
    requires PlacedAt(Comparator(d), s, s', k, f, ref)
    ensures s' == Place(d, s, f)
  {
    forall i | 0 <= i < |s| ensures CompareFlows(d, f, s[i]) == if i < k then 1 else -1 {
      assert Comparator(d)(f, s[i]) == CompareFlows(d, f, s[i]);
    }
    PlaceAt(d, s, f, k);
  }

  lemma {:induction false} RemovedIsWithout(s: seq<nat>, s': seq<nat>, f: nat, k: nat)
    requires RemovedAt(s, s', k, f) && Once(s)
    ensures s' == Without(s, f)
  {
    WithoutAt(s, k);
  }

  /** There are not more different flows than entries of the arena. */
  lemma {:induction false} Pigeonhole(s: seq<nat>, n: nat)
    requires Once(s) && forall f :: f in s ==> f < n
    ensures |s| <= n
    decreases n
  {
    assert s == [] || s[0] in s;
    if n > 0 {
      var last: nat := n - 1;
      if last in s {
        var k :| 0 <= k < |s| && s[k] == last;
        WithoutAt(s, k);
        WithoutOnce(s, last);
        Pigeonhole(Without(s, last), last);
      } else {
        Pigeonhole(s, last);
      }
    }
  }

  // ---------------------------------------------------------------- the queue, in place

  class FairQueue {
    const maxTime: int
    const weight: int
    const mtu: int
    const tree: CAvl<()>
    var flows: seq<nat>
    var data: map<nat, Flow>
    var sending: Link
    var sendingLen: int
    var previous: Link
    var freeing: bool

    ghost function State(): Queue
      reads this, tree
    {
      Queue(maxTime, weight, mtu, flows, data, tree.Contents(), sending, sendingLen, previous, freeing)
    }

    ghost predicate Valid()
      reads this, tree, tree.arena
    {
      tree.Valid() && Inv(State()) && InArena()
    }

    /** Flows are numbered by the entry of the arena that is theirs. */
    ghost predicate InArena()
      reads this`data
    {
      tree.countMax == tree.arena.Length && forall f :: f in data ==> f < tree.arena.Length
    }

    /** PacketPassFairQueue_Init has checked that a packet's weight is a possible time. */
    constructor (mtu: int, weight: int, maxTime: int, arena: array<Entry<()>>)
      requires 0 < weight && 0 <= mtu <= maxTime && weight <= maxTime - mtu && maxTime < TWO64
      ensures Valid() && fresh(tree) && tree.arena == arena
      ensures State() == Queue(maxTime, weight, mtu, [], map[], [], NULL, 0, NULL, false)
    {
      NoAssocLawful();
      this.mtu, this.weight, this.maxTime := mtu, weight, maxTime;
      tree := new CAvl(arena, NoAssoc(), arena.Length);
      flows, data, sending, sendingLen, previous, freeing := [], map[], NULL, 0, NULL, false;
    }

    /** PacketPassFairQueue_Init: fails exactly if a packet's service might not be a possible time. */
    static method Create(mtu: int, weight: int, maxTime: int, arena: array<Entry<()>>) returns (q: FairQueue?)
      requires 0 < weight && 0 <= mtu && 0 <= maxTime < TWO64
      ensures q == null <==> mtu + weight > maxTime
      ensures q != null ==> fresh(q) && q.Valid() && fresh(q.tree) && q.tree.arena == arena
      ensures q != null ==> q.State() == Queue(maxTime, weight, mtu, [], map[], [], NULL, 0, NULL, false)
    {
      if !(mtu <= maxTime && weight <= maxTime - mtu) {
        return null;
      }
      q := new FairQueue(mtu, weight, maxTime, arena);
    }

    method GetFirst() returns (f: Link)
      requires tree.Valid()
      ensures f == if tree.Contents() == [] then NULL else tree.Contents()[0]
    {
      f := tree.GetFirst();
    }

    method GetCurrentTime() returns (time: int)
      requires Valid()
      ensures time == CurrentTime(State())
      ensures sending != NULL ==> sending in data && time == data[sending].time
      ensures sending == NULL && tree.Contents() == [] && previous == NULL ==> time == 0
      ensures sending == NULL && (tree.Contents() != [] || previous != NULL) ==>
        && (exists g: nat :: (g in tree.Contents() || g == previous) && g in data && time == data[g].time)
        && forall g: nat :: g in tree.Contents() || g == previous ==> g in data && time <= data[g].time
    {
      if sending != NULL {
        return data[sending].time;
      }
      CurrentTimeLeast(State());
      time := 0;
      var have := false;
      var first := GetFirst();
      if first != NULL {
        time, have := data[first].time, true;
      }
      if previous != NULL {
        if !have || data[previous].time < time {
          time, have := data[previous].time, true;
        }
      }
      time := if have then time else 0;
    }

    /** The loop over all flows. */
    method LowerAll(f: nat, subtract: int)
      requires (forall g :: g in flows <==> g in data) && Once(flows)
      modifies `data
      ensures data == Lowered(old(data), f, subtract)
    {
      var i := 0;
      while i < |flows|
        invariant 0 <= i <= |flows| && data.Keys == old(data).Keys
        invariant forall j :: 0 <= j < i ==> data[flows[j]] == Lowered(old(data), f, subtract)[flows[j]]
        invariant forall j :: i <= j < |flows| ==> data[flows[j]] == old(data)[flows[j]]
      {
        var g := flows[i];
        if subtract > data[g].time && g != f {
          data := data[g := data[g].(time := 0)];
        } else {
          data := data[g := data[g].(time := Sub64(data[g].time, subtract))];
        }
        i := i + 1;
      }
    }

    method IncrementSentFlow(f: nat, amount: int)
      requires tree.Valid() && f in data && (forall g :: g in flows <==> g in data) && Once(flows)
      requires forall g :: g in tree.Contents() ==> g in data
      modifies `data
      ensures data == IncrementSent(old(State()), f, amount).data
      ensures f in data && data[f].busy == old(data)[f].busy
    {
      IncrementSentKeeps(State(), f, amount);
      if amount > maxTime - data[f].time {
        var first := GetFirst();
        var subtract := if first == NULL then data[f].time else data[first].time;
        LowerAll(f, subtract);
      }
      data := data[f := data[f].(time := Add64(data[f].time, amount))];
    }

    /** Takes the first flow out of the tree. */
    method TakeFirst() returns (f: nat)
      requires Valid() && tree.Contents() != []
      modifies `data, tree, tree.arena
      ensures tree.Valid() && tree.Contents() == old(tree.Contents())[1..] && f == old(tree.Contents())[0]
      ensures f in old(data) && data == old(data)[f := old(data)[f].(isQueued := false)]
    {
      InvOpen(State());
      hide Inv, Sorted, Comparator, Once, KeepsRest;
      f := GetFirst();
      ghost var k := tree.Remove(f);
      assert k == 0;
      data := data[f := data[f].(isQueued := false)];
    }

    /** schedule. The packet handed to the output has length `len`. */
    method ScheduleFirst() returns (len: int)
      requires Valid() && sending == NULL && previous == NULL && tree.Contents() != []
      modifies this, tree, tree.arena
      ensures Valid() && State() == Schedule(old(State())) && len == sendingLen
    {
      ScheduleInv(State());
      hide Inv, Sorted, Comparator, Once, KeepsRest;
      var f := TakeFirst();
      sending, sendingLen := f, data[f].len;
      len := sendingLen;
    }

    /** schedule_job_handler */
    method ScheduleJobHandler() returns (sent: bool)
      requires Valid() && sending == NULL
      modifies this, tree, tree.arena
      ensures Valid() && State() == ScheduleJob(old(State())) && sent == (old(tree.Contents()) != [])
    {
      ForgetPrevious(State());
      previous := NULL;
      var empty := tree.IsEmpty();
      sent := !empty;
      if sent {
        var len := ScheduleFirst();
      }
    }

    /** PacketPassFairQueue__Tree_Insert of a flow that is not queued; it never fails. */
    method PutInTree(f: nat)
      requires Valid() && f in data && !data[f].isQueued
      modifies tree, tree.arena
      ensures tree.Valid() && tree.Contents() == Place(data, old(tree.Contents()), f)
    {
      InvOpen(State());
      ghost var s := tree.Contents();
      hide Inv, Sorted, Comparator, Once, KeepsRest, Place, CompareFlows;
      ComparatorTotal(data);
      NeverEqual(data, s, f);
      SortedDistinct(Comparator(data), s);
      OnceCons(f, s);
      Pigeonhole([f] + s, tree.arena.Length);
      var cmp := Comparator(data);
      var res, ref := tree.Insert(cmp, f);
      ghost var k :| PlacedAt(cmp, s, tree.Contents(), k, f, ref);
      PlacedIsPlace(data, s, tree.Contents(), f, k, ref);
    }

    method QueueFlow(f: nat, len: int)
      requires Valid() && f in data && f != sending && f != previous && !data[f].isQueued && 0 <= len <= mtu
      requires sending != NULL ==> TimeOf(data, sending) <= TimeOf(data, f)
      modifies `data, tree, tree.arena
      ensures Valid() && State() == Enqueued(old(State()), f, len)
    {
      EnqueuedInv(State(), f, len);
      hide Inv, Sorted, Comparator, Once, KeepsRest, Place, CompareFlows;
      PutInTree(f);
      data := data[f := data[f].(len := len, isQueued := true)];
    }

    /** input_handler_send */
    method InputHandlerSend(f: nat, len: int, pending: bool) returns (sent: bool)
      requires Valid() && f in data && f != sending && !data[f].isQueued && 0 <= len <= mtu && !freeing
      requires previous != NULL ==> pending
      modifies this, tree, tree.arena
      ensures Valid() && State() == InputSend(old(State()), f, len, pending)
      ensures sent == (old(sending) == NULL && !pending)
    {
      hide Sizes, Listed, Waiting, Served, Enqueued, CompareFlows, Place;
      InvOpen(State());
      RaisedInv(State(), f);
      EnqueuedFirst(Raised(State(), f), f, len);
      if f == previous {
        previous := NULL;
      } else {
        var now := GetCurrentTime();
        data := data[f := data[f].(time := if data[f].time < now then now else data[f].time)];
      }
      QueueFlow(f, len);
      sent := sending == NULL && !pending;
      if sent {
        var n := ScheduleFirst();
      }
    }

    /** The busy handler is called once only. */
    method TakeHandler(f: nat) returns (callBusy: bool)
      requires f in data
      modifies `data
      ensures data == old(data)[f := old(data)[f].(busy := false)] && callBusy == old(data)[f].busy
    {
      callBusy := data[f].busy;
      if callBusy {
        data := data[f := data[f].(busy := false)];
      } else {
        assert data[f := data[f].(busy := false)] == data;
      }
    }

    method FinishPacket(f: nat, ghost q: Queue) returns (callBusy: bool)
      requires Inv(q) && q.sending == f && State() == q.(sending := NULL, previous := f) && tree.Valid()
      modifies `data
      ensures data == OutputDone(q).data && callBusy == q.data[f].busy
    {
      hide Inv, Sorted, Comparator, Once, KeepsRest, IncrementSent;
      InvOpen(q);
      IncrementSentFlow(f, weight + sendingLen);
      callBusy := TakeHandler(f);
    }

    /** output_handler_done; `callBusy` tells whether the busy handler is called at the end. */
    method OutputHandlerDone() returns (callBusy: bool)
      requires Valid() && sending != NULL && !freeing
      modifies this
      ensures Valid() && State() == OutputDone(old(State())) && callBusy == old(data)[old(sending)].busy
    {
      ghost var q := State();
      hide Inv, OutputDone;
      InvOpen(q);
      OutputDoneInv(q);
      OutputDoneKeeps(q);
      var f := sending;
      sending := NULL;
      previous := f;
      callBusy := FinishPacket(f, q);
    }

    /** PacketPassFairQueueFlow_Init */
    method InitFlow(f: nat)
      requires Valid() && f !in data && f < tree.arena.Length && !freeing
      modifies this
      ensures Valid() && State() == FlowInit(old(State()), f)
    {
      FlowInitInv(State(), f);
      data := data[f := Flow(0, false, 0, false)];
      flows := flows + [f];
    }

    /** PacketPassFairQueueFlow_Free */
    method FreeFlow(f: nat)
      requires Valid() && f in data && (freeing || f != sending)
      modifies this, tree, tree.arena
      ensures Valid() && State() == FlowFree(old(State()), f)
    {
      FlowFreeInv(State(), f);
      InvOpen(State());
      ComparatorTotal(data);
      SortedDistinct(Comparator(data), tree.Contents());
      hide Inv, Sorted, Comparator, Once, KeepsRest, CAvl.Valid, CAvl.Contents, Without;
      if f == sending {
        sending := NULL;
      }
      if f == previous {
        previous := NULL;
      }
      ghost var s := tree.Contents();
      if data[f].isQueued {
        ghost var k := tree.Remove(f);
        RemovedIsWithout(s, tree.Contents(), f, k);
      } else {
        WithoutAbsent(s, f);
      }
      flows := Without(flows, f);
      data := data - {f};
    }

    /** PacketPassFairQueue_PrepareFree */
    method PrepareToFree()
      requires Valid()
      modifies `freeing
      ensures Valid() && State() == PrepareFree(old(State())) && freeing
    {
      freeing := true;
    }

    /** PacketPassFairQueueFlow_IsBusy */
    method IsBusy(f: nat) returns (busy: bool)
      requires Valid() && !freeing
      ensures busy <==> f == State().sending
    {
      busy := f == sending;
    }

    /** PacketPassFairQueueFlow_SetBusyHandler */
    method SetHandler(on: bool)
      requires Valid() && sending != NULL && !freeing
      modifies `data
      ensures Valid() && State() == SetBusyHandler(old(State()), old(sending), on)
    {
      SetBusyHandlerInv(State(), sending, on);
      data := data[sending := data[sending].(busy := on)];
    }
  }
}
