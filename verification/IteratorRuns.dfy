/** A list that changes while iterators are on their way: what they still return. */
module IteratorRuns {
  import opened Sequences

  // ---------------------------------------------------------------- the list and its iterators

  /** Where an iterator is, NULL at its end, and which way it goes: 1 or -1. */
  datatype Iter = Iter(e: int, dir: int)

  datatype State = State(nodes: seq<nat>, at: map<nat, Iter>)

  /** The node an iterator on `x` goes to. */
  function Neighbour(s: seq<nat>, x: int, dir: int): int {
    LinkAt(s, Index(s, x) + dir)
  }

  function Moved(s: seq<nat>, i: Iter): Iter {
    if i.e == NULL then i else i.(e := Neighbour(s, i.e, i.dir))
  }

  ghost predicate IterOk(s: seq<nat>, i: Iter) {
    (i.dir == 1 || i.dir == -1) && (i.e == NULL || i.e in s)
  }

  ghost predicate Ok(st: State) {
    Once(st.nodes) && forall i :: i in st.at ==> IterOk(st.nodes, st.at[i])
  }

  /** The steps: a node comes in at position `k`, a node is freed, an iterator starts, is freed, or
      goes on. */
  datatype Act = Insert(k: nat, x: nat) | Free(x: nat) | Start(i: nat, e: int, dir: int) | Stop(i: nat) | Next(i: nat)

  predicate Enabled(st: State, a: Act) {
    match a
    case Insert(k, x) => k <= |st.nodes| && x !in st.nodes
    case Free(x) => x in st.nodes
    case Start(i, e, dir) => (i in st.at ==> st.at[i].e == NULL) && (e == NULL || e in st.nodes) && (dir == 1 || dir == -1)
    case Stop(i) => i in st.at
    case Next(i) => i in st.at
  }

  function Step(st: State, a: Act): State
    requires Enabled(st, a)
  {
    match a
    case Insert(k, x) => st.(nodes := Inserted(st.nodes, k, x))
    case Free(x) =>
      State(Without(st.nodes, x), map i | i in st.at :: if st.at[i].e == x then Moved(st.nodes, st.at[i]) else st.at[i])
    case Start(i, e, dir) => st.(at := st.at[i := Iter(e, dir)])
    case Stop(i) => st.(at := st.at - {i})
    case Next(i) => st.(at := st.at[i := Moved(st.nodes, st.at[i])])
  }

  // ---------------------------------------------------------------- what an iterator still returns

  /** The list in the direction of the iterator. */
  function View(s: seq<nat>, dir: int): seq<nat> {
    if dir == 1 then s else Rev(s)
  }

  function From(v: seq<nat>, e: int): seq<nat> {
    if Index(v, e) <= |v| then v[Index(v, e)..] else []
  }

  function Pending(s: seq<nat>, i: Iter): seq<nat> {
    From(View(s, i.dir), i.e)
  }

  lemma RevFacts(s: seq<nat>)
    ensures |Rev(s)| == |s| && Rev(Rev(s)) == s && (forall x :: x in Rev(s) <==> x in s) && (Once(s) ==> Once(Rev(s)))
  {
    forall x | x in s ensures x in Rev(s) {
      var k :| 0 <= k < |s| && s[k] == x;
      assert Rev(s)[|s| - 1 - k] == x;
    }
  }

  lemma RevIndex(s: seq<nat>, x: nat)
    requires Once(s) && x in s
    ensures Index(s, x) < |s| && Index(Rev(s), x) == |s| - 1 - Index(s, x)
  {
    hide Index;
    IndexIn(s, x);
    RevFacts(s);
    IndexAt(Rev(s), |s| - 1 - Index(s, x));
  }

  lemma RevInserted(s: seq<nat>, k: nat, x: nat)
    requires k <= |s|
    ensures Rev(Inserted(s, k, x)) == Inserted(Rev(s), |s| - k, x)
  {
  }

  lemma RevWithout(s: seq<nat>, x: nat)
    requires Once(s) && x in s
    ensures Rev(Without(s, x)) == Without(Rev(s), x)
  {
    hide Index, Without;
    RevIndex(s, x);
    IndexIn(s, x);
    RevFacts(s);
    var k := Index(s, x);
    WithoutAt(s, k);
    WithoutAt(Rev(s), |s| - 1 - k);
    RevCut(s, k);
  }

  lemma RevCut(s: seq<nat>, k: nat)
    requires k < |s|
    ensures Rev(s[..k] + s[k + 1..]) == Rev(s)[..|s| - 1 - k] + Rev(s)[|s| - k..]
  {
  }

  lemma InsertedOnce(s: seq<nat>, k: nat, x: nat)
    requires Once(s) && k <= |s| && x !in s
    ensures Once(Inserted(s, k, x)) && forall y :: y in Inserted(s, k, x) <==> y == x || y in s
  {
    assert s == s[..k] + s[k..];
  }

  /** An iterator on the k-th node still returns what comes from there on. */
  lemma FromAt(v: seq<nat>, k: nat)
    requires Once(v) && k < |v|
    ensures From(v, v[k]) == v[k..]
  {
    hide Index;
    IndexAt(v, k);
  }

  lemma FromEnd(v: seq<nat>)
    ensures From(v, NULL) == []
  {
    hide Index;
    IndexIn(v, NULL);
  }

  /** A new iterator: forwards, the list from `e` on; backwards, the list up to `e` from its end. */
  lemma PendingStart(st: State, i: nat, e: int, dir: int, k: nat)
    requires Ok(st) && Enabled(st, Start(i, e, dir)) && (e != NULL ==> k < |st.nodes| && st.nodes[k] == e)
    ensures var st' := Step(st, Start(i, e, dir)); i in st'.at && st'.nodes == st.nodes
    ensures var p := Pending(st.nodes, Step(st, Start(i, e, dir)).at[i]);
      && (e == NULL ==> p == [])
      && (e != NULL && dir == 1 ==> p == st.nodes[k..])
      && (e != NULL && dir == -1 ==> |p| == k + 1 && forall j :: 0 <= j <= k ==> p[j] == st.nodes[..k + 1][k - j])
  {
    hide Index;
    var s := st.nodes;
    if e == NULL {
      FromEnd(View(s, dir));
    } else if dir == 1 {
      FromAt(s, k);
    } else {
      RevFacts(s);
      FromAt(Rev(s), |s| - 1 - k);
    }
  }

  lemma InsertedSlices(v: seq<nat>, k: nat, x: nat, i: nat)
    requires i <= |v| && k <= |v|
    ensures k <= i ==> Inserted(v, k, x)[i + 1..] == v[i..]
    ensures i <= k ==> Inserted(v, k, x)[i..] == Inserted(v[i..], k - i, x)
    ensures i < |v| ==> Inserted(v, k, x)[if k <= i then i + 1 else i] == v[i]
  {
  }

  /** A node that comes in behind the iterator changes nothing for it, one that comes in ahead is
      returned in its turn. */
  lemma FromInserted(v: seq<nat>, k: nat, x: nat, e: int)
    requires Once(v) && k <= |v| && x !in v && (e == NULL || e in v)
    ensures e == NULL ==> From(Inserted(v, k, x), e) == From(v, e) == []
    ensures e != NULL && k <= Index(v, e) ==> From(Inserted(v, k, x), e) == From(v, e)
    ensures e != NULL && k > Index(v, e) ==>
      k - Index(v, e) <= |From(v, e)| && From(Inserted(v, k, x), e) == Inserted(From(v, e), k - Index(v, e), x)
  {
    hide Index, From, Inserted;
    if e == NULL {
      FromEnd(v);
      FromEnd(Inserted(v, k, x));
    } else {
      IndexIn(v, e);
      InsertedOnce(v, k, x);
      var i := Index(v, e);
      InsertedSlices(v, k, x, i);
      InsertedLength(v, k, x);
      FromAt(v, i);
      FromAt(Inserted(v, k, x), if k <= i then i + 1 else i);
    }
  }

  lemma InsertedLength(v: seq<nat>, k: nat, x: nat)
    requires k <= |v|
    ensures |Inserted(v, k, x)| == |v| + 1
  {
  }

  lemma CutSlices(v: seq<nat>, j: nat, i: nat)
    requires j < |v| && i < |v|
    ensures var w := v[..j] + v[j + 1..];
      && (j < i ==> w[i - 1] == v[i] && w[i - 1..] == v[i..])
      && (i < j ==> w[i] == v[i] && w[i..] == v[i..][..j - i] + v[i..][j - i + 1..])
      && (j + 1 < |v| ==> w[j] == v[j + 1] && w[j..] == v[j + 1..])
  {
  }

  /** A freed node is skipped, whether or not the iterator is on it. */
  lemma FromFreed(v: seq<nat>, x: nat, e: int)
    requires Once(v) && x in v && (e == NULL || e in v)
    ensures From(Without(v, x), if e == x then Neighbour(v, x, 1) else e) == Without(From(v, e), x)
  {
    hide Index, From, Without;
    IndexIn(v, x);
    IndexIn(v, e);
    WithoutOnce(v, x);
    var w, j := Without(v, x), Index(v, x);
    WithoutAt(v, j);
    if e == NULL {
      FromEnd(v);
      FromEnd(w);
      WithoutAbsent([], x);
    } else {
      var i := Index(v, e);
      FromAt(v, i);
      CutSlices(v, j, i);
      TailOnce(v, i);
      if e == x {
        WithoutAt(v[j..], 0);
        if j + 1 < |v| {
          FromAt(w, j);
        } else {
          FromEnd(w);
        }
      } else if j < i {
        FromAt(w, i - 1);
        NotInTail(v, j, i);
        WithoutAbsent(v[i..], x);
      } else {
        FromAt(w, i);
        assert v[i..][j - i] == x;
        WithoutAt(v[i..], j - i);
      }
    }
  }

  lemma TailOnce(v: seq<nat>, i: nat)
    requires Once(v) && i <= |v|
    ensures Once(v[i..])
  {
  }

  lemma NotInTail(v: seq<nat>, j: nat, i: nat)
    requires Once(v) && j < i <= |v|
    ensures v[j] !in v[i..]
  {
  }

  lemma FromNext(v: seq<nat>, e: nat)
    requires Once(v) && e in v
    ensures From(v, e) != [] && From(v, e)[0] == e && From(v, Neighbour(v, e, 1)) == From(v, e)[1..]
  {
    hide Index, From;
    IndexIn(v, e);
    var k := Index(v, e);
    FromAt(v, k);
    if k + 1 < |v| {
      FromAt(v, k + 1);
    } else {
      FromEnd(v);
    }
  }

  /** The neighbour in the direction of an iterator is the next one in its view. */
  lemma ViewNeighbour(s: seq<nat>, x: nat, dir: int)
    requires Once(s) && x in s && (dir == 1 || dir == -1)
    ensures Neighbour(View(s, dir), x, 1) == Neighbour(s, x, dir)
  {
    IndexIn(s, x);
    if dir == -1 {
      RevIndex(s, x);
    }
  }

  lemma StepOk(st: State, a: Act)
    requires Ok(st) && Enabled(st, a)
    ensures Ok(Step(st, a))
  {
    hide Index, Without, Inserted, Once;
    match a {
      case Insert(k, x) => InsertedOnce(st.nodes, k, x);
      case Free(x) =>
        WithoutOnce(st.nodes, x);
        forall i | i in st.at && st.at[i].e == x ensures IterOk(Without(st.nodes, x), Moved(st.nodes, st.at[i])) {
          NeighbourIn(st.nodes, x, st.at[i].dir);
        }
      case Next(i) =>
        if st.at[i].e != NULL {
          NeighbourIn(st.nodes, st.at[i].e, st.at[i].dir);
        }
      case _ =>
    }
  }

  lemma NeighbourIn(s: seq<nat>, x: nat, dir: int)
    requires Once(s) && x in s && (dir == 1 || dir == -1)
    ensures Neighbour(s, x, dir) == NULL || (Neighbour(s, x, dir) in s && Neighbour(s, x, dir) != x)
  {
    hide Index;
    IndexIn(s, x);
  }

  lemma ViewFacts(s: seq<nat>, dir: int)
    ensures |View(s, dir)| == |s| && (forall x :: x in View(s, dir) <==> x in s) && (Once(s) ==> Once(View(s, dir)))
  {
    RevFacts(s);
  }

  /** What a step does to the list as an iterator sees it. */
  lemma ViewStep(st: State, a: Act, dir: int)
    requires Ok(st) && Enabled(st, a)
    ensures var v := View(st.nodes, dir); var v' := View(Step(st, a).nodes, dir);
      match a
      case Insert(k, x) => (var m := if dir == 1 then k else |st.nodes| - k; m <= |v| && v' == Inserted(v, m, x))
      case Free(x) => v' == Without(v, x)
      case _ => v' == v
  {
    hide Index, Without, Inserted;
    ViewFacts(st.nodes, dir);
    match a {
      case Insert(k, x) => RevInserted(st.nodes, k, x);
      case Free(x) => RevWithout(st.nodes, x);
      case _ =>
    }
  }

  ghost predicate InsertedAhead(s: seq<nat>, s': seq<nat>, x: nat) {
    exists m: nat :: 0 < m <= |s| && s' == Inserted(s, m, x)
  }

  /** What one step changes of what an iterator still returns: its own next takes the first node
      away, a freed node is dropped, a new node may come in behind the first one. */
  lemma StepPending(st: State, a: Act, i: nat)
    requires Ok(st) && Enabled(st, a) && i in st.at && a != Stop(i) && !(a.Start? && a.i == i)
    ensures i in Step(st, a).at && Step(st, a).at[i].dir == st.at[i].dir
    ensures var p := Pending(st.nodes, st.at[i]); var p' := Pending(Step(st, a).nodes, Step(st, a).at[i]);
      match a
      case Insert(k, x) => p' == p || InsertedAhead(p, p', x)
      case Free(x) => p' == Without(p, x)
      case Next(j) => p' == if j == i && p != [] then p[1..] else p
      case _ => p' == p
  {
    hide Index, Without, Inserted, From, View, Once;
    var c := st.at[i];
    var v := View(st.nodes, c.dir);
    ViewFacts(st.nodes, c.dir);
    ViewStep(st, a, c.dir);
    match a {
      case Insert(k, x) =>
        FromInserted(v, if c.dir == 1 then k else |st.nodes| - k, x, c.e);
      case Free(x) =>
        FromFreed(v, x, c.e);
        if c.e == x {
          ViewNeighbour(st.nodes, x, c.dir);
        }
      case Next(j) =>
        if j == i {
          if c.e == NULL {
            FromEnd(v);
          } else {
            FromNext(v, c.e);
            ViewNeighbour(st.nodes, c.e, c.dir);
          }
        }
      case _ =>
    }
  }

  // ---------------------------------------------------------------- whole runs

  /** What a step lets iterator `i` return. */
  function Returned(st: State, a: Act, i: nat): seq<nat> {
    if a == Next(i) && i in st.at && 0 <= st.at[i].e then [st.at[i].e] else []
  }

  /** The steps of `t` can be taken; iterator `i` is on its way all the time; and no node that has
      been in the list before (one of `seen`) comes in again. */
  predicate Possible(st: State, t: seq<Act>, i: nat, seen: set<nat>)
    decreases |t|
  {
    i in st.at && (t == [] || (
      && Enabled(st, t[0]) && t[0] != Stop(i) && !(t[0].Start? && t[0].i == i) && (t[0].Insert? ==> t[0].x !in seen)
      && Possible(Step(st, t[0]), t[1..], i, Seen(seen, t[0]))))
  }

  function Seen(seen: set<nat>, a: Act): set<nat> {
    if a.Insert? then seen + {a.x} else seen
  }

  /** The state after the first `n` steps. */
  function Moment(st: State, t: seq<Act>, i: nat, seen: set<nat>, n: nat): State
    requires Possible(st, t, i, seen) && n <= |t|
    decreases n
  {
    if n == 0 then st else Moment(Step(st, t[0]), t[1..], i, Seen(seen, t[0]), n - 1)
  }

  function End(st: State, t: seq<Act>, i: nat, seen: set<nat>): State
    requires Possible(st, t, i, seen)
  {
    Moment(st, t, i, seen, |t|)
  }

  /** Everything iterator `i` returns during the run, in order. */
  function Trace(st: State, t: seq<Act>, i: nat, seen: set<nat>): seq<nat>
    requires Possible(st, t, i, seen)
    decreases |t|
  {
    if t == [] then [] else Returned(st, t[0], i) + Trace(Step(st, t[0]), t[1..], i, Seen(seen, t[0]))
  }

  ghost predicate Covered(st: State, seen: set<nat>) {
    Ok(st) && forall x :: x in st.nodes ==> x in seen
  }

  lemma StepCovered(st: State, a: Act, seen: set<nat>)
    requires Covered(st, seen) && Enabled(st, a)
    ensures Covered(Step(st, a), Seen(seen, a))
  {
    hide Index, Without, Inserted, Once;
    StepOk(st, a);
    match a {
      case Insert(k, x) => InsertedOnce(st.nodes, k, x);
      case Free(x) => WithoutOnce(st.nodes, x);
      case _ =>
    }
  }

  lemma PendingIn(st: State, i: nat)
    requires Ok(st) && i in st.at
    ensures forall x :: x in Pending(st.nodes, st.at[i]) ==> x in st.nodes
    ensures Once(Pending(st.nodes, st.at[i]))
    ensures Pending(st.nodes, st.at[i]) != [] <==> st.at[i].e != NULL
    ensures st.at[i].e != NULL ==> Pending(st.nodes, st.at[i])[0] == st.at[i].e
  {
    hide Index, From, View;
    var v := View(st.nodes, st.at[i].dir);
    ViewFacts(st.nodes, st.at[i].dir);
    if st.at[i].e == NULL {
      FromEnd(v);
    } else {
      IndexIn(v, st.at[i].e);
      FromAt(v, Index(v, st.at[i].e));
    }
  }

  /** A step brings nothing into what is pending but a node that was never seen. */
  lemma PendingGrows(st: State, a: Act, i: nat, seen: set<nat>)
    requires Covered(st, seen) && Possible(st, [a], i, seen)
    ensures var p := Pending(st.nodes, st.at[i]); var p' := Pending(Step(st, a).nodes, Step(st, a).at[i]);
      && (forall x :: x in p' ==> x in p || x !in seen)
      && (forall x :: x in p && a != Free(x) ==> x in p' || Returned(st, a, i) == [x])
      && (forall x :: x in Returned(st, a, i) ==> x in p && x !in p')
  {
    hide Index, Without, Inserted, Pending, Once;
    StepPending(st, a, i);
    PendingIn(st, i);
    var p, p' := Pending(st.nodes, st.at[i]), Pending(Step(st, a).nodes, Step(st, a).at[i]);
    match a {
      case Insert(k, x) =>
        if InsertedAhead(p, p', x) {
          var m: nat :| 0 < m <= |p| && p' == Inserted(p, m, x);
          InsertedMembers(p, m, x);
        }
      case Free(x) => WithoutOnce(p, x);
      case Next(j) =>
        if j == i && p != [] {
          HeadApart(p);
        }
      case _ =>
    }
  }

  lemma InsertedMembers(s: seq<nat>, k: nat, x: nat)
    requires k <= |s|
    ensures forall y :: y in Inserted(s, k, x) <==> y == x || y in s
  {
    assert s == s[..k] + s[k..];
  }

  lemma HeadApart(p: seq<nat>)
    requires Once(p) && p != []
    ensures p[0] !in p[1..] && forall x :: x in p <==> x == p[0] || x in p[1..]
  {
    assert p == [p[0]] + p[1..];
  }

  /** Only pending nodes and new ones are returned; a freed node never is. */
  lemma {:induction false} ReturnsOnlyPending(st: State, t: seq<Act>, i: nat, seen: set<nat>)
    requires Covered(st, seen) && Possible(st, t, i, seen)
    ensures forall x :: x in Trace(st, t, i, seen) ==> x in Pending(st.nodes, st.at[i]) || x !in seen
    ensures forall x :: x in seen && x !in st.nodes ==> x !in Trace(st, t, i, seen)
    decreases |t|
  {
    hide Pending, Step, Ok;
    PendingIn(st, i);
    if t != [] {
      StepCovered(st, t[0], seen);
      ReturnsOnlyPending(Step(st, t[0]), t[1..], i, Seen(seen, t[0]));
      PendingGrows(st, t[0], i, seen);
    }
  }

  /** No node is returned twice. */
  lemma {:induction false} ReturnsOnce(st: State, t: seq<Act>, i: nat, seen: set<nat>)
    requires Covered(st, seen) && Possible(st, t, i, seen)
    ensures Once(Trace(st, t, i, seen))
    decreases |t|
  {
    hide Pending, Step, Ok;
    if t != [] {
      var st', seen' := Step(st, t[0]), Seen(seen, t[0]);
      StepCovered(st, t[0], seen);
      ReturnsOnce(st', t[1..], i, seen');
      ReturnsOnlyPending(st', t[1..], i, seen');
      PendingGrows(st, t[0], i, seen);
      PendingIn(st, i);
      var r, rest := Returned(st, t[0], i), Trace(st', t[1..], i, seen');
      if r != [] {
        assert r[0] in r && r[0] in seen && r[0] !in rest;
        OnceCons(r[0], rest);
      } else {
        assert r + rest == rest;
      }
    }
  }

  /** No node is missed: one that is ahead and is not freed has been returned, or still is ahead. */
  lemma {:induction false} MissesNone(st: State, t: seq<Act>, i: nat, seen: set<nat>, x: nat)
    requires Covered(st, seen) && Possible(st, t, i, seen)
    requires x in Pending(st.nodes, st.at[i]) && Free(x) !in t
    ensures i in End(st, t, i, seen).at
    ensures x in Trace(st, t, i, seen) || x in Pending(End(st, t, i, seen).nodes, End(st, t, i, seen).at[i])
    decreases |t|
  {
    hide Pending, Step, Ok;
    if t != [] {
      StepCovered(st, t[0], seen);
      PendingGrows(st, t[0], i, seen);
      assert t[0] in t && forall a :: a in t[1..] ==> a in t;
      var st' := Step(st, t[0]);
      if x in Pending(st'.nodes, st'.at[i]) {
        MissesNone(st', t[1..], i, Seen(seen, t[0]), x);
      } else {
        EndAt(st', t[1..], i, Seen(seen, t[0]));
      }
    }
  }

  lemma {:induction false} EndAt(st: State, t: seq<Act>, i: nat, seen: set<nat>)
    requires Possible(st, t, i, seen)
    ensures i in End(st, t, i, seen).at
    decreases |t|
  {
    hide Step;
    if t != [] {
      EndAt(Step(st, t[0]), t[1..], i, Seen(seen, t[0]));
    }
  }

  // ---------------------------------------------------------------- in list order

  ghost predicate Before(v: seq<nat>, x: nat, y: nat) {
    Index(v, x) < Index(v, y)
  }

  lemma InsertedIndex(v: seq<nat>, k: nat, z: nat, x: nat)
    requires Once(v) && k <= |v| && z !in v && x in v
    ensures Index(v, x) < |v| && Index(Inserted(v, k, z), x) == if k <= Index(v, x) then Index(v, x) + 1 else Index(v, x)
  {
    hide Index, Inserted;
    IndexIn(v, x);
    var i := Index(v, x);
    InsertedOnce(v, k, z);
    InsertedSlices(v, k, z, i);
    InsertedLength(v, k, z);
    IndexAt(Inserted(v, k, z), if k <= i then i + 1 else i);
  }

  lemma WithoutIndex(v: seq<nat>, z: nat, x: nat)
    requires Once(v) && z in v && x in v && x != z
    ensures Index(Without(v, z), x) == if Index(v, z) < Index(v, x) then Index(v, x) - 1 else Index(v, x)
  {
    hide Index, Without;
    IndexIn(v, x);
    IndexIn(v, z);
    var i, j := Index(v, x), Index(v, z);
    WithoutOnce(v, z);
    WithoutAt(v, j);
    CutSlices(v, j, i);
    IndexAt(Without(v, z), if j < i then i - 1 else i);
  }

  lemma IndexApart(v: seq<nat>, x: nat, y: nat)
    requires x in v && y in v && x != y
    ensures Index(v, x) != Index(v, y)
  {
    IndexIn(v, x);
    IndexIn(v, y);
  }

  /** Two nodes that stay in the list keep their order. */
  lemma StepOrder(st: State, a: Act, dir: int, x: nat, y: nat)
    requires Ok(st) && Enabled(st, a) && x != y && x in st.nodes && y in st.nodes
    requires x in Step(st, a).nodes && y in Step(st, a).nodes
    ensures Before(View(Step(st, a).nodes, dir), x, y) <==> Before(View(st.nodes, dir), x, y)
  {
    hide Index, Inserted, Without, View, Once;
    var v := View(st.nodes, dir);
    ViewFacts(st.nodes, dir);
    ViewStep(st, a, dir);
    match a {
      case Insert(k, z) =>
        var m := if dir == 1 then k else |st.nodes| - k;
        InsertedIndex(v, m, z, x);
        InsertedIndex(v, m, z, y);
      case Free(z) =>
        WithoutOnce(st.nodes, z);
        IndexApart(v, x, z);
        IndexApart(v, y, z);
        IndexApart(v, x, y);
        WithoutIndex(v, z, x);
        WithoutIndex(v, z, y);
      case _ =>
    }
  }

  lemma {:induction false} GoneForGood(st: State, t: seq<Act>, i: nat, seen: set<nat>, n: nat, x: nat)
    requires Covered(st, seen) && Possible(st, t, i, seen) && n <= |t| && x in seen && x !in st.nodes
    ensures x !in Moment(st, t, i, seen, n).nodes
    decreases n
  {
    hide Ok;
    if n > 0 {
      StepCovered(st, t[0], seen);
      assert x !in Step(st, t[0]).nodes by {
        hide Index, Without, Inserted, Once;
        match t[0] {
          case Insert(k, z) => InsertedMembers(st.nodes, k, z);
          case Free(z) => WithoutMembers(st, z);
          case _ =>
        }
      }
      hide Step;
      GoneForGood(Step(st, t[0]), t[1..], i, Seen(seen, t[0]), n - 1, x);
    }
  }

  lemma WithoutMembers(st: State, z: nat)
    requires Ok(st)
    ensures forall y :: y in Without(st.nodes, z) <==> y in st.nodes && y != z
  {
    WithoutOnce(st.nodes, z);
  }

  lemma {:induction false} OrderKept(st: State, t: seq<Act>, i: nat, seen: set<nat>, n: nat, dir: int, x: nat, y: nat)
    requires Covered(st, seen) && Possible(st, t, i, seen) && n <= |t| && x != y && x in st.nodes && y in st.nodes
    requires x in Moment(st, t, i, seen, n).nodes && y in Moment(st, t, i, seen, n).nodes
    ensures Before(View(Moment(st, t, i, seen, n).nodes, dir), x, y) <==> Before(View(st.nodes, dir), x, y)
    decreases n
  {
    hide Step, Ok, View, Before;
    if n > 0 {
      var st', seen' := Step(st, t[0]), Seen(seen, t[0]);
      StepCovered(st, t[0], seen);
      if x !in st'.nodes {
        GoneForGood(st', t[1..], i, seen', n - 1, x);
      } else if y !in st'.nodes {
        GoneForGood(st', t[1..], i, seen', n - 1, y);
      } else {
        StepOrder(st, t[0], dir, x, y);
        OrderKept(st', t[1..], i, seen', n - 1, dir, x, y);
      }
    }
  }

  /** What is behind the iterator comes before what it still returns. */
  lemma BehindPending(st: State, i: nat, x: nat, y: nat)
    requires Ok(st) && i in st.at && x in st.nodes && x !in Pending(st.nodes, st.at[i]) && y in Pending(st.nodes, st.at[i])
    ensures Before(View(st.nodes, st.at[i].dir), x, y)
  {
    hide Index, From, View;
    var c := st.at[i];
    var v := View(st.nodes, c.dir);
    PendingIn(st, i);
    ViewFacts(st.nodes, c.dir);
    IndexIn(v, c.e);
    FromAt(v, Index(v, c.e));
    IndexIn(v, x);
    IndexIn(v, y);
    var k := Index(v, c.e);
    forall j | k <= j < |v| ensures v[j] in v[k..] {
      assert v[k..][j - k] == v[j];
    }
    var n :| 0 <= n < |v[k..]| && v[k..][n] == y;
    IndexAt(v, k + n);
  }

  /** A node behind the iterator comes before every node that is still returned, at every moment at
      which both are in the list. */
  lemma {:induction false} BehindFirst(st: State, t: seq<Act>, i: nat, seen: set<nat>, n: nat, x: nat, y: nat)
    requires Covered(st, seen) && Possible(st, t, i, seen) && n <= |t|
    requires x in st.nodes && x !in Pending(st.nodes, st.at[i]) && y in Trace(st, t, i, seen)
    requires x in Moment(st, t, i, seen, n).nodes && y in Moment(st, t, i, seen, n).nodes
    ensures Before(View(Moment(st, t, i, seen, n).nodes, st.at[i].dir), x, y)
    decreases n
  {
    hide Step, Ok, View, Before, Pending;
    if n == 0 {
      ReturnsOnlyPending(st, t, i, seen);
      BehindPending(st, i, x, y);
    } else {
      var st', seen' := Step(st, t[0]), Seen(seen, t[0]);
      StepCovered(st, t[0], seen);
      PendingGrows(st, t[0], i, seen);
      PendingIn(st, i);
      if y in Returned(st, t[0], i) {
        BehindPending(st, i, x, y);
        OrderKept(st, t, i, seen, n, st.at[i].dir, x, y);
      } else if x !in st'.nodes {
        GoneForGood(st', t[1..], i, seen', n - 1, x);
      } else {
        StepPending(st, t[0], i);
        BehindFirst(st', t[1..], i, seen', n - 1, x, y);
      }
    }
  }

  lemma NextNodes(st: State, i: nat)
    requires i in st.at
    ensures Step(st, Next(i)).nodes == st.nodes
  {
  }

  /** What is returned by the first step comes first. */
  lemma NextFirst(st: State, t: seq<Act>, i: nat, seen: set<nat>, y: nat)
    requires Covered(st, seen) && Possible(st, t, i, seen) && t != [] && Returned(st, t[0], i) != []
    requires y in Trace(Step(st, t[0]), t[1..], i, Seen(seen, t[0])) && Returned(st, t[0], i)[0] in st.nodes && y in st.nodes
    ensures Before(View(st.nodes, st.at[i].dir), Returned(st, t[0], i)[0], y)
  {
    hide Step, Ok, View, Before, Pending, Trace;
    var st', x := Step(st, t[0]), Returned(st, t[0], i)[0];
    assert x in Returned(st, t[0], i);
    StepCovered(st, t[0], seen);
    StepPending(st, t[0], i);
    ReturnsOnlyPending(st', t[1..], i, Seen(seen, t[0]));
    PendingGrows(st, t[0], i, seen);
    PendingIn(st, i);
    NextNodes(st, i);
    BehindPending(st', i, x, y);
  }

  /** One step more: the order at its end is the order at its beginning. */
  lemma StepsBack(st: State, t: seq<Act>, i: nat, seen: set<nat>, x: nat, y: nat)
    requires Covered(st, seen) && Possible(st, t, i, seen) && t != [] && x in st.nodes && y in st.nodes && x != y
    requires var s := Trace(Step(st, t[0]), t[1..], i, Seen(seen, t[0])); x in s && y in s
    ensures x in Step(st, t[0]).nodes && y in Step(st, t[0]).nodes
    ensures var v := View(Step(st, t[0]).nodes, st.at[i].dir); Before(v, x, y) ==> Before(View(st.nodes, st.at[i].dir), x, y)
  {
    hide Step, Ok, View, Before, Pending, Trace;
    StepCovered(st, t[0], seen);
    ReturnsOnlyPending(Step(st, t[0]), t[1..], i, Seen(seen, t[0]));
    StepOrder(st, t[0], st.at[i].dir, x, y);
  }

  /** Nodes of the list that are going to be returned are returned in list order. */
  lemma {:induction false} AheadInOrder(st: State, t: seq<Act>, i: nat, seen: set<nat>, a: nat, b: nat)
    requires Covered(st, seen) && Possible(st, t, i, seen) && a < b < |Trace(st, t, i, seen)|
    requires Trace(st, t, i, seen)[a] in st.nodes && Trace(st, t, i, seen)[b] in st.nodes
    ensures Before(View(st.nodes, st.at[i].dir), Trace(st, t, i, seen)[a], Trace(st, t, i, seen)[b])
    decreases |t|
  {
    hide Step, Ok, View, Before, Pending;
    var st', seen' := Step(st, t[0]), Seen(seen, t[0]);
    StepCovered(st, t[0], seen);
    var r, rest := Returned(st, t[0], i), Trace(st', t[1..], i, seen');
    assert Trace(st, t, i, seen) == r + rest && |r| <= 1;
    if |r| > a {
      assert rest[b - 1] in rest;
      NextFirst(st, t, i, seen, rest[b - 1]);
    } else {
      var x, y := rest[a - |r|], rest[b - |r|];
      assert x in rest && y in rest;
      StepPending(st, t[0], i);
      ReturnsOnce(st', t[1..], i, seen');
      StepsBack(st, t, i, seen, x, y);
      AheadInOrder(st', t[1..], i, seen', a - |r|, b - |r|);
    }
  }

  /** What is returned first is behind the iterator from then on. */
  lemma FirstInOrder(st: State, t: seq<Act>, i: nat, seen: set<nat>, n: nat, y: nat)
    requires Covered(st, seen) && Possible(st, t, i, seen) && 0 < n <= |t| && Returned(st, t[0], i) != []
    requires y in Trace(Step(st, t[0]), t[1..], i, Seen(seen, t[0]))
    requires var now := Moment(st, t, i, seen, n).nodes; Returned(st, t[0], i)[0] in now && y in now
    ensures Before(View(Moment(st, t, i, seen, n).nodes, st.at[i].dir), Returned(st, t[0], i)[0], y)
  {
    hide Step, Ok, View, Before, Pending;
    var st', seen', x := Step(st, t[0]), Seen(seen, t[0]), Returned(st, t[0], i)[0];
    assert x in Returned(st, t[0], i);
    StepCovered(st, t[0], seen);
    StepPending(st, t[0], i);
    PendingGrows(st, t[0], i, seen);
    PendingIn(st, i);
    if x !in st'.nodes {
      GoneForGood(st', t[1..], i, seen', n - 1, x);
    } else {
      BehindFirst(st', t[1..], i, seen', n - 1, x, y);
    }
  }

  /** The nodes are returned in list order: at every moment of the run at which two of them are in the
      list, the one that is returned first comes first. */
  lemma {:induction false} ReturnsInOrder(st: State, t: seq<Act>, i: nat, seen: set<nat>, n: nat, a: nat, b: nat)
    requires Covered(st, seen) && Possible(st, t, i, seen) && n <= |t| && a < b < |Trace(st, t, i, seen)|
    requires var s, now := Trace(st, t, i, seen), Moment(st, t, i, seen, n).nodes; s[a] in now && s[b] in now
    ensures var s, now := Trace(st, t, i, seen), Moment(st, t, i, seen, n).nodes;
      Before(View(now, st.at[i].dir), s[a], s[b])
    decreases n
  {
    hide Step, Ok, View, Before, Pending;
    if n == 0 {
      AheadInOrder(st, t, i, seen, a, b);
    } else {
      var st', seen' := Step(st, t[0]), Seen(seen, t[0]);
      StepCovered(st, t[0], seen);
      StepPending(st, t[0], i);
      var r, rest := Returned(st, t[0], i), Trace(st', t[1..], i, seen');
      assert Trace(st, t, i, seen) == r + rest && |r| <= 1;
      if |r| > a {
        assert rest[b - 1] in rest;
        FirstInOrder(st, t, i, seen, n, rest[b - 1]);
      } else {
        ReturnsInOrder(st', t[1..], i, seen', n - 1, a - |r|, b - |r|);
      }
    }
  }
}
