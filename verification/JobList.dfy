/** Pending jobs: a last-in first-out list of jobs that can also be taken back. */
module Jobs {
  import opened Sequences

  /** Setting a job puts it in front, whether or not it was pending. */
  function SetJob<J(==, !new)>(jobs: seq<J>, j: J): seq<J> {
    [j] + Without(jobs, j)
  }

  /** No job is in the list twice, whatever is set or taken back. */
  lemma SetOnce<J(!new)>(jobs: seq<J>, j: J)
    requires Once(jobs)
    ensures Once(Without(jobs, j)) && Once(SetJob(jobs, j))
  {
    WithoutOnce(jobs, j);
    OnceCons(j, Without(jobs, j));
  }

  /** `a` is pending in front of `b`. */
  ghost predicate Before<J(!new)>(jobs: seq<J>, a: J, b: J) {
    exists i, k :: 0 <= i < k < |jobs| && jobs[i] == a && jobs[k] == b
  }

  /** Taking another job out keeps the order. */
  lemma {:induction false} BeforeWithout<J(!new)>(jobs: seq<J>, a: J, b: J, j: J)
    requires Before(jobs, a, b) && j != a && j != b
    ensures Before(Without(jobs, j), a, b)
  {
    var i, k :| 0 <= i < k < |jobs| && jobs[i] == a && jobs[k] == b;
    if i == 0 {
      assert b in jobs[1..] by {
        assert jobs[1..][k - 1] == b;
      }
      var w := Without(jobs[1..], j);
      var n :| 0 <= n < |w| && w[n] == b;
      assert ([a] + w)[0] == a && ([a] + w)[n + 1] == b;
    } else {
      assert jobs[1..][i - 1] == a && jobs[1..][k - 1] == b;
      BeforeWithout(jobs[1..], a, b, j);
      var w := Without(jobs[1..], j);
      var i', k' :| 0 <= i' < k' < |w| && w[i'] == a && w[k'] == b;
      if jobs[0] != j {
        assert ([jobs[0]] + w)[i' + 1] == a && ([jobs[0]] + w)[k' + 1] == b;
      }
    }
  }

  lemma BeforePush<J(!new)>(jobs: seq<J>, a: J, b: J, j: J)
    requires Before(jobs, a, b) && j != a && j != b
    ensures Before(SetJob(jobs, j), a, b)
  {
    BeforeWithout(jobs, a, b, j);
    var w := Without(jobs, j);
    var i, k :| 0 <= i < k < |w| && w[i] == a && w[k] == b;
    assert ([j] + w)[i + 1] == a && ([j] + w)[k + 1] == b;
  }

  /** A job set now runs before everything else that is pending. */
  lemma BeforeNew<J(!new)>(jobs: seq<J>, a: J, b: J)
    requires b in jobs && a != b
    ensures Before(SetJob(jobs, a), a, b)
  {
    var w := Without(jobs, a);
    var k :| 0 <= k < |w| && w[k] == b;
    assert ([a] + w)[0] == a && ([a] + w)[k + 1] == b;
  }

  /** Running the first job keeps the order of the others. */
  lemma BeforePop<J(!new)>(jobs: seq<J>, a: J, b: J)
    requires Before(jobs, a, b) && Once(jobs)
    ensures jobs[0] != b && (jobs[0] != a ==> Before(jobs[1..], a, b))
  {
    var i, k :| 0 <= i < k < |jobs| && jobs[i] == a && jobs[k] == b;
    if i > 0 {
      assert jobs[1..][i - 1] == a && jobs[1..][k - 1] == b;
    }
  }

  // ---------------------------------------------------------------- the links

  function After(jobs: seq<nat>, i: int): int {
    LinkAt(jobs, i + 1)
  }

  /** `first` leads along `next` through exactly `jobs`; `prev` leads back, except that the back
      link of the first job is not kept up. */
  ghost predicate Chain(next: seq<int>, prev: seq<int>, first: int, jobs: seq<nat>) {
    && |next| == |prev| && Once(jobs)
    && (forall i :: 0 <= i < |jobs| ==> jobs[i] < |next|)
    && first == After(jobs, -1)
    && (forall i :: 0 <= i < |jobs| ==> next[jobs[i]] == After(jobs, i))
    && (forall i :: 0 < i < |jobs| ==> prev[jobs[i]] == jobs[i - 1])
  }

  /** A job that is not pending is marked as its own successor. */
  ghost predicate Marked(next: seq<int>, jobs: seq<nat>) {
    forall j :: 0 <= j < |next| && j !in jobs ==> next[j] == j
  }

  /** The mark tells which jobs are pending. */
  lemma MarkMeans(next: seq<int>, prev: seq<int>, first: int, jobs: seq<nat>, o: nat)
    requires Chain(next, prev, first, jobs) && Marked(next, jobs) && o < |next|
    ensures next[o] != o <==> o in jobs
  {
    if o in jobs {
      var k := PlaceOf(jobs, o);
      assert next[jobs[k]] == After(jobs, k);
    }
  }

  lemma ChainPush(next: seq<int>, prev: seq<int>, first: int, jobs: seq<nat>, o: nat)
    requires Chain(next, prev, first, jobs) && o < |next| && o !in jobs
    ensures Chain(next[o := first], if first == -1 then prev else prev[first := o], o, [o] + jobs)
  {
    var jobs' := [o] + jobs;
    var next', prev' := next[o := first], if first == -1 then prev else prev[first := o];
    OnceCons(o, jobs);
    forall i | 0 <= i < |jobs'| ensures next'[jobs'[i]] == After(jobs', i) {
      if i > 0 {
        assert jobs'[i] == jobs[i - 1] && jobs[i - 1] != o;
        assert next[jobs[i - 1]] == After(jobs, i - 1);
      }
    }
    forall i | 0 < i < |jobs'| ensures prev'[jobs'[i]] == jobs'[i - 1] {
      assert jobs'[i] == jobs[i - 1];
      if i > 1 {
        assert prev[jobs[i - 1]] == jobs[i - 2];
      }
    }
  }

  lemma CutPlaces(jobs: seq<nat>, k: nat)
    requires Once(jobs) && k < |jobs|
    ensures Once(Cut(jobs, k))
    ensures forall i :: 0 <= i < |jobs| - 1 ==> Cut(jobs, k)[i] == jobs[if i < k then i else i + 1]
  {
    forall i, j | 0 <= i < j < |Cut(jobs, k)| ensures Cut(jobs, k)[i] != Cut(jobs, k)[j] {
      assert jobs[if i < k then i else i + 1] != jobs[if j < k then j else j + 1];
    }
  }

  /** Unlinking the first entry. */
  lemma ChainRemoveFirst(next: seq<int>, prev: seq<int>, first: int, jobs: seq<nat>)
    requires Chain(next, prev, first, jobs) && jobs != []
    ensures first == jobs[0] && Chain(next, prev, next[jobs[0]], Cut(jobs, 0))
  {
    CutPlaces(jobs, 0);
    assert next[jobs[0]] == After(jobs, 0);
    forall i | 0 <= i < |jobs| - 1 ensures next[Cut(jobs, 0)[i]] == After(Cut(jobs, 0), i) {
      assert next[jobs[i + 1]] == After(jobs, i + 1);
    }
  }

  /** What the links around an entry are. */
  lemma ChainAround(next: seq<int>, prev: seq<int>, first: int, jobs: seq<nat>, k: nat)
    requires Chain(next, prev, first, jobs) && 0 < k < |jobs|
    ensures var o := jobs[k];
      o != first && prev[o] == jobs[k - 1] && next[o] == After(jobs, k) && prev[o] < |next| && next[o] < |next| && -1 <= next[o]
  {
    assert next[jobs[k]] == After(jobs, k);
    assert prev[jobs[k]] == jobs[k - 1];
  }

  /** Unlinking a later entry: the links forward, then the links back. */
  lemma NextRemoveLater(next: seq<int>, jobs: seq<nat>, k: nat)
    requires Once(jobs) && 0 < k < |jobs| && (forall i :: 0 <= i < |jobs| ==> jobs[i] < |next|)
    requires forall i :: 0 <= i < |jobs| ==> next[jobs[i]] == After(jobs, i)
    ensures forall i :: 0 <= i < |jobs| - 1 ==> next[jobs[k - 1] := After(jobs, k)][Cut(jobs, k)[i]] == After(Cut(jobs, k), i)
  {
    CutPlaces(jobs, k);
    forall i | 0 <= i < |jobs| - 1 ensures next[jobs[k - 1] := After(jobs, k)][Cut(jobs, k)[i]] == After(Cut(jobs, k), i) {
      var j := if i < k then i else i + 1;
      assert next[jobs[j]] == After(jobs, j);
    }
  }

  lemma PrevRemoveLater(prev: seq<int>, jobs: seq<nat>, k: nat)
    requires Once(jobs) && 0 < k < |jobs| && (forall i :: 0 <= i < |jobs| ==> jobs[i] < |prev|)
    requires forall i :: 0 < i < |jobs| ==> prev[jobs[i]] == jobs[i - 1]
    ensures var prev' := if After(jobs, k) == -1 then prev else prev[After(jobs, k) := jobs[k - 1]];
      forall i :: 0 < i < |jobs| - 1 ==> prev'[Cut(jobs, k)[i]] == Cut(jobs, k)[i - 1]
  {
    CutPlaces(jobs, k);
    var prev' := if After(jobs, k) == -1 then prev else prev[After(jobs, k) := jobs[k - 1]];
    forall i | 0 < i < |jobs| - 1 ensures prev'[Cut(jobs, k)[i]] == Cut(jobs, k)[i - 1] {
      var j := if i < k then i else i + 1;
      assert prev[jobs[j]] == jobs[j - 1];
    }
  }

  lemma ChainRemoveLater(next: seq<int>, prev: seq<int>, first: int, jobs: seq<nat>, k: nat)
    requires Chain(next, prev, first, jobs) && 0 < k < |jobs|
    ensures var n := After(jobs, k);
      Chain(next[jobs[k - 1] := n], if n == -1 then prev else prev[n := jobs[k - 1]], first, Cut(jobs, k))
  {
    CutPlaces(jobs, k);
    NextRemoveLater(next, jobs, k);
    PrevRemoveLater(prev, jobs, k);
    hide Once;
  }

  /** Marking a job that is not in the list changes nothing for the list. */
  lemma ChainMark(next: seq<int>, prev: seq<int>, first: int, jobs: seq<nat>, o: nat, v: int)
    requires Chain(next, prev, first, jobs) && o < |next| && o !in jobs
    ensures Chain(next[o := v], prev, first, jobs)
  {
  }

  /** The jobs of a group, linked in place. */
  class JobList {
    const next: array<int>
    const prev: array<int>
    var first: int
    ghost var jobs: seq<nat>

    ghost predicate Valid()
      reads this, next, prev
    {
      next != prev && Chain(next[..], prev[..], first, jobs) && Marked(next[..], jobs)
    }

    constructor (n: nat)
      ensures Valid() && jobs == [] && next.Length == n
      ensures fresh(next) && fresh(prev)
    {
      next := new int[n](i => i);
      prev := new int[n];
      first, jobs := -1, [];
    }

    lemma JobsOnce()
      requires Valid()
      ensures Once(jobs)
    {
    }

    method IsSet(o: nat) returns (b: bool)
      requires Valid() && o < next.Length
      ensures b <==> o in jobs
    {
      MarkMeans(next[..], prev[..], first, jobs, o);
      b := next[o] != o;
    }

    /** Makes `b` the successor of `a`. */
    method Connect(a: int, b: int)
      requires next != prev && next.Length == prev.Length && 0 <= a < next.Length && -1 <= b < next.Length
      modifies next, prev
      ensures next[..] == old(next[..])[a := b]
      ensures prev[..] == if b == -1 then old(prev[..]) else old(prev[..])[b := a]
    {
      next[a] := b;
      if b != NULL {
        prev[b] := a;
      }
    }

    /** SLinkedList_Remove, of an entry that is in the list; its mark is not set. */
    method RemoveEntry(o: nat)
      requires Valid() && o in jobs
      modifies this, next, prev
      ensures jobs == Without(old(jobs), o) && Chain(next[..], prev[..], first, jobs)
      ensures Marked(next[..], old(jobs))
    {
      ghost var k := PlaceOf(jobs, o);
      ghost var n, p := next[..], prev[..];
      if k == 0 {
        ChainRemoveFirst(n, p, first, jobs);
      } else {
        ChainAround(n, p, first, jobs, k);
        ChainRemoveLater(n, p, first, jobs, k);
      }
      WithoutAt(jobs, k);
      hide Chain, Without, Once;
      if o != first {
        Connect(prev[o], next[o]);
      } else {
        first := next[o];
      }
      jobs := Cut(jobs, k);
    }

    /** BSmallPending_Set. */
    method Set(o: nat)
      requires Valid() && o < next.Length
      modifies this, next, prev
      ensures Valid() && jobs == SetJob(old(jobs), o)
    {
      var pending := IsSet(o);
      if pending {
        RemoveEntry(o);
      } else {
        WithoutAbsent(jobs, o);
      }
      ghost var n, p, js := next[..], prev[..], jobs;
      ChainPush(n, p, first, jobs, o);
      Connect(o, first);
      first := o;
      jobs := [o] + jobs;
    }

    /** BSmallPending_Unset. */
    method Unset(o: nat)
      requires Valid() && o < next.Length
      modifies this, next, prev
      ensures Valid() && jobs == Without(old(jobs), o)
    {
      var pending := IsSet(o);
      if pending {
        RemoveEntry(o);
        ghost var n := next[..];
        ChainMark(n, prev[..], first, jobs, o, o);
        next[o] := o;
        assert next[..] == n[o := o];
      } else {
        WithoutAbsent(jobs, o);
      }
    }

    /** BPendingGroup_ExecuteJob, up to the call of the job's handler. */
    method TakeJob() returns (o: nat)
      requires Valid() && jobs != []
      modifies this, next
      ensures Valid() && o == old(jobs)[0] && jobs == old(jobs)[1..] && o !in jobs && o < next.Length
    {
      o := first;
      ghost var n := next[..];
      ChainRemoveFirst(n, prev[..], first, jobs);
      OnceTail(jobs);
      assert Cut(jobs, 0) == jobs[1..];
      first := next[o];
      jobs := jobs[1..];
      ChainMark(n, prev[..], first, jobs, o, o);
      next[o] := o;
      assert next[..] == n[o := o];
    }
  }
}
