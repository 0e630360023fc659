/** Lists to which freed nodes come back: insertions are numbered. */
module IteratorNumbers {
  // What is proved of runs in which no node comes in again holds of all runs, of the insertions instead of
  // the nodes.

  import opened Sequences
  import opened IteratorRuns

  /** The steps can be taken, and iterator `i` is on its way all the time. A node may be inserted again once
      it is not in the list. */
  predicate Runs(st: State, t: seq<Act>, i: nat)
    decreases |t|
  {
    i in st.at && (t == [] || (
      Enabled(st, t[0]) && t[0] != Stop(i) && !(t[0].Start? && t[0].i == i) && Runs(Step(st, t[0]), t[1..], i)))
  }

  function Returns(st: State, t: seq<Act>, i: nat): seq<nat>
    requires Runs(st, t, i)
    decreases |t|
  {
    if t == [] then [] else Returned(st, t[0], i) + Returns(Step(st, t[0]), t[1..], i)
  }

  // ---------------------------------------------------------------- numbers for nodes

  /** The list with the numbers of the insertions in place of the nodes; `names` are the nodes, by number. */
  datatype Numbered = Numbered(names: seq<nat>, st: State)

  /** The number of the insertion that brought node `e` into the list. */
  function Number(s: seq<nat>, l: seq<nat>, e: int): int {
    LinkAt(l, Index(s, e))
  }

  ghost predicate Agree(st: State, nu: Numbered) {
    && Ok(st) && Ok(nu.st) && SameList(st.nodes, nu.st.nodes, nu.names)
    && nu.st.at.Keys == st.at.Keys
    && forall i :: i in st.at ==> nu.st.at[i] == NumberIter(st.nodes, nu.st.nodes, st.at[i])
  }

  ghost predicate SameList(s: seq<nat>, l: seq<nat>, names: seq<nat>) {
    |l| == |s| && forall k :: 0 <= k < |s| ==> l[k] < |names| && names[l[k]] == s[k]
  }

  function NumberIter(s: seq<nat>, l: seq<nat>, i: Iter): Iter {
    i.(e := Number(s, l, i.e))
  }

  function NumberAct(st: State, nu: Numbered, a: Act): Act {
    match a
    case Insert(k, x) => Insert(k, |nu.names|)
    case Free(x) => var n := Number(st.nodes, nu.st.nodes, x); Free(if n < 0 then 0 else n)
    case Start(i, e, dir) => Start(i, Number(st.nodes, nu.st.nodes, e), dir)
    case _ => a
  }

  /** A new insertion gets a new number. */
  function NumberStep(st: State, nu: Numbered, a: Act): Numbered
    requires Enabled(nu.st, NumberAct(st, nu, a))
  {
    Numbered(if a.Insert? then nu.names + [a.x] else nu.names, Step(nu.st, NumberAct(st, nu, a)))
  }

  // ---------------------------------------------------------------- the two lists go together

  lemma NumberAt(s: seq<nat>, l: seq<nat>, j: int)
    requires Once(s) && |l| == |s|
    ensures Number(s, l, LinkAt(s, j)) == LinkAt(l, j)
  {
    hide Index;
    IndexIn(s, LinkAt(s, j));
    if 0 <= j < |s| {
      IndexAt(s, j);
    }
  }

  lemma NumberIn(s: seq<nat>, l: seq<nat>, names: seq<nat>, e: int)
    requires SameList(s, l, names) && Once(l)
    ensures e in s ==> Number(s, l, e) in l && 0 <= Number(s, l, e) < |names| && names[Number(s, l, e)] == e
    ensures e in s ==> Index(l, Number(s, l, e)) == Index(s, e)
    ensures e !in s ==> Number(s, l, e) == NULL
  {
    hide Index;
    IndexIn(s, e);
    if e in s {
      IndexAt(l, Index(s, e));
    }
  }

  /** An iterator goes on to the number of the node it goes on to. */
  lemma NumberMoved(s: seq<nat>, l: seq<nat>, names: seq<nat>, i: Iter)
    requires SameList(s, l, names) && Once(s) && Once(l) && IterOk(s, i)
    ensures Moved(l, NumberIter(s, l, i)) == NumberIter(s, l, Moved(s, i))
  {
    hide Index;
    NumberIn(s, l, names, i.e);
    if i.e != NULL {
      NumberAt(s, l, Index(s, i.e) + i.dir);
    }
  }

  lemma InsertSame(s: seq<nat>, l: seq<nat>, names: seq<nat>, k: nat, x: nat)
    requires SameList(s, l, names) && k <= |s|
    ensures SameList(Inserted(s, k, x), Inserted(l, k, |names|), names + [x])
    ensures |names| !in l
  {
  }

  lemma InsertNumber(s: seq<nat>, l: seq<nat>, k: nat, x: nat, n: nat, e: int)
    requires |l| == |s| && Once(s) && k <= |s| && x !in s && (e == NULL || e in s)
    ensures Number(Inserted(s, k, x), Inserted(l, k, n), e) == Number(s, l, e)
  {
    hide Index, Inserted;
    IndexIn(s, e);
    IndexIn(Inserted(s, k, x), e);
    InsertedMembers(s, k, x);
    InsertedLength(s, k, x);
    InsertedLength(l, k, n);
    if e in s {
      InsertedIndex(s, k, x, e);
      InsertedAt(l, k, n, Index(Inserted(s, k, x), e));
    }
  }

  lemma FreeSame(s: seq<nat>, l: seq<nat>, names: seq<nat>, k: nat)
    requires SameList(s, l, names) && Once(s) && Once(l) && k < |s|
    ensures Without(s, s[k]) == Cut(s, k) && Without(l, l[k]) == Cut(l, k) && SameList(Cut(s, k), Cut(l, k), names)
  {
    WithoutAt(s, k);
    WithoutAt(l, k);
    hide Without, Once;
  }

  lemma FreeNumber(s: seq<nat>, l: seq<nat>, k: nat, e: int)
    requires |l| == |s| && Once(s) && k < |s| && e != s[k] && (e == NULL || e in s)
    ensures Number(Cut(s, k), Cut(l, k), e) == Number(s, l, e)
  {
    hide Index, Cut;
    WithoutAt(s, k);
    CutMembers(s, k);
    IndexIn(s, e);
    IndexIn(Cut(s, k), e);
    CutLengths(s, l, k);
    if e in s {
      IndexAt(s, k);
      WithoutIndex(s, s[k], e);
      assert Without(s, s[k]) == Cut(s, k) by {
        CutIs(s, k);
      }
      AtCut(l, k, Index(Cut(s, k), e));
    }
  }

  lemma CutIs(s: seq<nat>, k: nat)
    requires k < |s|
    ensures Cut(s, k) == s[..k] + s[k + 1..]
  {
  }

  lemma CutLengths(s: seq<nat>, l: seq<nat>, k: nat)
    requires |l| == |s| && k < |s|
    ensures |Cut(s, k)| == |Cut(l, k)| == |s| - 1
  {
  }

  /** A node coming in. */
  lemma InsertAgrees(st: State, nu: Numbered, k: nat, x: nat)
    requires Agree(st, nu) && Enabled(st, Insert(k, x))
    ensures Enabled(nu.st, NumberAct(st, nu, Insert(k, x)))
    ensures Agree(Step(st, Insert(k, x)), NumberStep(st, nu, Insert(k, x)))
  {
    hide Number, Inserted, Once, Index;
    var a := Insert(k, x);
    InsertSame(st.nodes, nu.st.nodes, nu.names, k, x);
    StepOk(st, a);
    StepOk(nu.st, Insert(k, |nu.names|));
    forall i | i in st.at
      ensures Number(Inserted(st.nodes, k, x), Inserted(nu.st.nodes, k, |nu.names|), st.at[i].e) == Number(st.nodes, nu.st.nodes, st.at[i].e)
    {
      InsertNumber(st.nodes, nu.st.nodes, k, x, |nu.names|, st.at[i].e);
    }
    hide SameList;
  }

  /** A node being freed, with the iterators on it going on. */
  lemma FreeIter(s: seq<nat>, l: seq<nat>, names: seq<nat>, k: nat, i: Iter)
    requires SameList(s, l, names) && Once(s) && Once(l) && k < |s| && IterOk(s, i)
    ensures var j := NumberIter(s, l, i);
      (if j.e == l[k] then Moved(l, j) else j) == NumberIter(Cut(s, k), Cut(l, k), if i.e == s[k] then Moved(s, i) else i)
  {
    hide Index, Cut, Once, SameList;
    SameSize(s, l, names);
    NumberIn(s, l, names, i.e);
    NumberMoved(s, l, names, i);
    if i.e == s[k] {
      IndexAt(s, k);
      AtUnique(s, k + i.dir, k);
      AtIn(s, k + i.dir);
      FreeNumber(s, l, k, Moved(s, i).e);
    } else {
      FreeNumber(s, l, k, i.e);
      OtherNumber(s, l, names, k, i.e);
    }
  }

  lemma AtIn(s: seq<nat>, j: int)
    ensures LinkAt(s, j) == NULL || LinkAt(s, j) in s
  {
  }

  lemma OtherNumber(s: seq<nat>, l: seq<nat>, names: seq<nat>, k: nat, e: int)
    requires SameList(s, l, names) && Once(l) && k < |s| && e != s[k]
    ensures Number(s, l, e) != l[k]
  {
    NumberIn(s, l, names, e);
    hide Number, Index;
  }

  lemma FreeAgrees(st: State, nu: Numbered, x: nat)
    requires Agree(st, nu) && Enabled(st, Free(x))
    ensures Enabled(nu.st, NumberAct(st, nu, Free(x)))
    ensures Agree(Step(st, Free(x)), NumberStep(st, nu, Free(x)))
  {
    hide Index, Once, Without, Cut, SameList, Moved, NumberIter, IterOk;
    var k := Index(st.nodes, x);
    IndexIn(st.nodes, x);
    NumberIn(st.nodes, nu.st.nodes, nu.names, x);
    assert |nu.st.nodes| == |st.nodes| by {
      SameSize(st.nodes, nu.st.nodes, nu.names);
    }
    assert NumberAct(st, nu, Free(x)) == Free(nu.st.nodes[k]);
    FreeSame(st.nodes, nu.st.nodes, nu.names, k);
    StepOk(st, Free(x));
    StepOk(nu.st, Free(nu.st.nodes[k]));
    forall i | i in st.at
      ensures var j := NumberIter(st.nodes, nu.st.nodes, st.at[i]);
        (if j.e == nu.st.nodes[k] then Moved(nu.st.nodes, j) else j)
          == NumberIter(Cut(st.nodes, k), Cut(nu.st.nodes, k), if st.at[i].e == x then Moved(st.nodes, st.at[i]) else st.at[i])
    {
      FreeIter(st.nodes, nu.st.nodes, nu.names, k, st.at[i]);
    }
  }

  lemma SameSize(s: seq<nat>, l: seq<nat>, names: seq<nat>)
    requires SameList(s, l, names)
    ensures |l| == |s|
  {
  }

  lemma NextAgrees(st: State, nu: Numbered, i: nat)
    requires Agree(st, nu) && i in st.at
    ensures Agree(Step(st, Next(i)), NumberStep(st, nu, Next(i)))
  {
    hide Number, SameList, Once, IterOk, Index, NumberIter, Moved;
    NumberMoved(st.nodes, nu.st.nodes, nu.names, st.at[i]);
    StepOk(st, Next(i));
    StepOk(nu.st, Next(i));
  }

  lemma StartAgrees(st: State, nu: Numbered, i: nat, e: int, dir: int)
    requires Agree(st, nu) && Enabled(st, Start(i, e, dir))
    ensures Enabled(nu.st, NumberAct(st, nu, Start(i, e, dir)))
    ensures Agree(Step(st, Start(i, e, dir)), NumberStep(st, nu, Start(i, e, dir)))
  {
    hide Number, SameList, Once, Index;
    NumberIn(st.nodes, nu.st.nodes, nu.names, e);
    NumberIn(st.nodes, nu.st.nodes, nu.names, NULL);
    StepOk(st, Start(i, e, dir));
    StepOk(nu.st, Start(i, Number(st.nodes, nu.st.nodes, e), dir));
  }

  lemma StopAgrees(st: State, nu: Numbered, i: nat)
    requires Agree(st, nu) && i in st.at
    ensures Agree(Step(st, Stop(i)), NumberStep(st, nu, Stop(i)))
  {
    hide Number, SameList, Once, IterOk, Index, NumberIter;
    StepOk(st, Stop(i));
    StepOk(nu.st, Stop(i));
  }

  /** Every step of the one list is a step of the other. */
  lemma StepAgrees(st: State, nu: Numbered, a: Act)
    requires Agree(st, nu) && Enabled(st, a)
    ensures Enabled(nu.st, NumberAct(st, nu, a))
    ensures Agree(Step(st, a), NumberStep(st, nu, a))
  {
    AgreeAt(st, nu);
    hide Agree, Step;
    match a {
      case Insert(k, x) => InsertAgrees(st, nu, k, x);
      case Free(x) => FreeAgrees(st, nu, x);
      case Next(i) => NextAgrees(st, nu, i);
      case Start(i, e, dir) => StartAgrees(st, nu, i, e, dir);
      case Stop(i) => StopAgrees(st, nu, i);
    }
  }

  lemma AgreeAt(st: State, nu: Numbered)
    requires Agree(st, nu)
    ensures nu.st.at.Keys == st.at.Keys && forall i :: i in st.at <==> i in nu.st.at
    ensures Covered(nu.st, Below(|nu.names|))
  {
    hide Number, Once, Index, IterOk;
    forall x | x in nu.st.nodes ensures x in Below(|nu.names|) {
      BelowMeans(|nu.names|, x);
    }
  }

  /** The numbers below `n`. */
  function Below(n: nat): set<nat> {
    set k | k in Places(n)
  }

  function Places(n: nat): seq<nat> {
    seq(n, k => k)
  }

  lemma BelowMeans(n: nat, k: nat)
    ensures k in Below(n) <==> k < n
  {
    assert k < n ==> Places(n)[k] == k;
  }

  lemma BelowNext(n: nat)
    ensures Below(n + 1) == Below(n) + {n}
  {
    forall k ensures k in Below(n + 1) <==> k in Below(n) + {n} {
      BelowMeans(n, k);
      BelowMeans(n + 1, k);
    }
  }

  // ---------------------------------------------------------------- whole runs

  /** The run, with numbers. */
  ghost function NumberRun(st: State, nu: Numbered, t: seq<Act>, i: nat): seq<Act>
    requires Agree(st, nu) && Runs(st, t, i)
    decreases |t|
  {
    if t == [] then []
    else
      StepAgrees(st, nu, t[0]);
      [NumberAct(st, nu, t[0])] + NumberRun(Step(st, t[0]), NumberStep(st, nu, t[0]), t[1..], i)
  }

  /** The nodes of all insertions. */
  ghost function NamesOf(nu: Numbered, t: seq<Act>): seq<nat> {
    nu.names + InsertedNodes(t)
  }

  function InsertedNodes(t: seq<Act>): seq<nat> {
    if t == [] then [] else (if t[0].Insert? then [t[0].x] else []) + InsertedNodes(t[1..])
  }

  function Named(names: seq<nat>, r: seq<nat>): seq<nat> {
    seq(|r|, j requires 0 <= j < |r| => if r[j] < |names| then names[r[j]] else 0)
  }

  /** Only numbers that have been given. */
  predicate Given(names: seq<nat>, r: seq<nat>) {
    forall k :: k in r ==> k < |names|
  }

  lemma NamedConcat(names: seq<nat>, a: seq<nat>, b: seq<nat>)
    ensures Named(names, a + b) == Named(names, a) + Named(names, b)
    ensures Given(names, a) && Given(names, b) ==> Given(names, a + b)
  {
  }

  /** What one step lets the iterator return. */
  lemma ReturnedNumber(st: State, nu: Numbered, a: Act, i: nat, names: seq<nat>)
    requires Agree(st, nu) && Enabled(st, a) && i in st.at && nu.names <= names
    ensures Named(names, Returned(nu.st, NumberAct(st, nu, a), i)) == Returned(st, a, i)
    ensures Given(names, Returned(nu.st, NumberAct(st, nu, a), i))
  {
    if a == Next(i) {
      NumberIn(st.nodes, nu.st.nodes, nu.names, st.at[i].e);
      hide Number, Index;
    }
  }

  /** Every run of a list to which nodes may come back is a run in which every insertion brings something
      new, and what the iterator returns are the nodes of the numbers it returns there. So everything that
      is proved of those runs holds of the insertions: none is returned twice, and so on. */
  lemma {:induction false} AnyRun(st: State, nu: Numbered, t: seq<Act>, i: nat)
    requires Agree(st, nu) && Runs(st, t, i)
    ensures Covered(nu.st, Below(|nu.names|))
    ensures Possible(nu.st, NumberRun(st, nu, t, i), i, Below(|nu.names|))
    ensures var r := Trace(nu.st, NumberRun(st, nu, t, i), i, Below(|nu.names|));
      Returns(st, t, i) == Named(NamesOf(nu, t), r) && Given(NamesOf(nu, t), r)
    decreases |t|
  {
    hide Step, Number, Index, Once, Agree, Below, Covered, Named, NumberRun, Returned, NamesOf, Possible, Trace, Runs, NumberStep,
      NumberAct, Enabled, Seen;
    AgreeAt(st, nu);
    if t == [] {
      NoSteps(st, nu, i);
    } else {
      NumberRunFirst(st, nu, t, i);
      AnyRun(Step(st, t[0]), NumberStep(st, nu, t[0]), t[1..], i);
      FirstStep(st, nu, t, i);
    }
  }

  lemma NoSteps(st: State, nu: Numbered, i: nat)
    requires Agree(st, nu) && Runs(st, [], i)
    ensures NumberRun(st, nu, [], i) == [] && Possible(nu.st, [], i, Below(|nu.names|))
    ensures var r := Trace(nu.st, [], i, Below(|nu.names|)); Returns(st, [], i) == Named(NamesOf(nu, []), r) && r == []
  {
    AgreeAt(st, nu);
    hide Agree, Below;
  }

  /** One step more in front. */
  lemma PossibleCons(st: State, a: Act, r: seq<Act>, i: nat, seen: set<nat>)
    requires i in st.at && Enabled(st, a) && a != Stop(i) && !(a.Start? && a.i == i) && (a.Insert? ==> a.x !in seen)
    requires Possible(Step(st, a), r, i, Seen(seen, a))
    ensures Possible(st, [a] + r, i, seen)
    ensures Trace(st, [a] + r, i, seen) == Returned(st, a, i) + Trace(Step(st, a), r, i, Seen(seen, a))
  {
    hide Enabled, Step, Returned;
    assert ([a] + r)[1..] == r && ([a] + r)[0] == a;
  }

  lemma FirstStep(st: State, nu: Numbered, t: seq<Act>, i: nat)
    requires Agree(st, nu) && Runs(st, t, i) && t != [] && Enabled(st, t[0]) && Enabled(nu.st, NumberAct(st, nu, t[0]))
    requires Runs(Step(st, t[0]), t[1..], i) && Agree(Step(st, t[0]), NumberStep(st, nu, t[0]))
    requires var st', nu' := Step(st, t[0]), NumberStep(st, nu, t[0]);
      var r, seen := NumberRun(st', nu', t[1..], i), Below(|nu'.names|);
      && Possible(nu'.st, r, i, seen) && Returns(st', t[1..], i) == Named(NamesOf(nu', t[1..]), Trace(nu'.st, r, i, seen))
      && Given(NamesOf(nu', t[1..]), Trace(nu'.st, r, i, seen))
    ensures Possible(nu.st, NumberRun(st, nu, t, i), i, Below(|nu.names|))
    ensures var r := Trace(nu.st, NumberRun(st, nu, t, i), i, Below(|nu.names|));
      Returns(st, t, i) == Named(NamesOf(nu, t), r) && Given(NamesOf(nu, t), r)
  {
    hide Step, Number, Index, Once, Agree, Below, Covered, Named, NumberRun, Returned, NamesOf, Possible, Trace, Given, NumberStep,
      Enabled, Seen;
    var nu', a := NumberStep(st, nu, t[0]), NumberAct(st, nu, t[0]);
    var r := NumberRun(Step(st, t[0]), nu', t[1..], i);
    AgreeAt(st, nu);
    NumberRunFirst(st, nu, t, i);
    assert NumberRun(st, nu, t, i) == [a] + r;
    NamesStep(st, nu, t);
    NumberActKind(st, nu, t[0]);
    hide NumberAct;
    BelowNext(|nu.names|);
    BelowMeans(|nu.names|, |nu.names|);
    PossibleCons(nu.st, a, r, i, Below(|nu.names|));
    ReturnedNumber(st, nu, t[0], i, NamesOf(nu, t));
    NamedConcat(NamesOf(nu, t), Returned(nu.st, a, i), Trace(nu'.st, r, i, Below(|nu'.names|)));
  }

  lemma NumberActKind(st: State, nu: Numbered, a: Act)
    requires Enabled(nu.st, NumberAct(st, nu, a))
    ensures var b := NumberAct(st, nu, a);
      && (b.Insert? <==> a.Insert?) && (b.Insert? ==> b.x == |nu.names|)
      && (forall i :: b == Stop(i) <==> a == Stop(i)) && (b.Start? <==> a.Start?) && (b.Start? ==> b.i == a.i)
    ensures NumberStep(st, nu, a).st == Step(nu.st, NumberAct(st, nu, a))
  {
    hide Step, Number, Enabled;
  }

  lemma NamesStep(st: State, nu: Numbered, t: seq<Act>)
    requires t != [] && Enabled(nu.st, NumberAct(st, nu, t[0]))
    ensures NamesOf(NumberStep(st, nu, t[0]), t[1..]) == NamesOf(nu, t) && nu.names <= NamesOf(nu, t)
    ensures Seen(Below(|nu.names|), NumberAct(st, nu, t[0]))
      == if t[0].Insert? then Below(|nu.names|) + {|nu.names|} else Below(|nu.names|)
    ensures |NumberStep(st, nu, t[0]).names| == |nu.names| + if t[0].Insert? then 1 else 0
  {
    hide Step, Below, Number, Enabled;
    var x := if t[0].Insert? then [t[0].x] else [];
    Grouped(nu.names, x, InsertedNodes(t[1..]));
    assert InsertedNodes(t) == x + InsertedNodes(t[1..]);
    assert NumberStep(st, nu, t[0]).names == nu.names + x by {
      assert nu.names + [] == nu.names;
    }
    hide InsertedNodes, NumberStep;
  }

  lemma Grouped(a: seq<nat>, b: seq<nat>, c: seq<nat>)
    ensures a + (b + c) == (a + b) + c && a <= a + (b + c)
  {
  }

  lemma NumberRunFirst(st: State, nu: Numbered, t: seq<Act>, i: nat)
    requires Agree(st, nu) && Runs(st, t, i) && t != []
    ensures Enabled(st, t[0]) && Enabled(nu.st, NumberAct(st, nu, t[0])) && Runs(Step(st, t[0]), t[1..], i)
    ensures Agree(Step(st, t[0]), NumberStep(st, nu, t[0]))
    ensures NumberRun(st, nu, t, i) != [] && NumberRun(st, nu, t, i)[0] == NumberAct(st, nu, t[0])
    ensures NumberRun(st, nu, t, i)[1..] == NumberRun(Step(st, t[0]), NumberStep(st, nu, t[0]), t[1..], i)
  {
    StepAgrees(st, nu, t[0]);
  }

  /** The numbers at the beginning: the places. */
  lemma FirstNumbers(st: State) returns (nu: Numbered)
    requires Ok(st)
    ensures Agree(st, nu) && nu.names == st.nodes
  {
    var l := Places(|st.nodes|);
    nu := Numbered(st.nodes, State(l, map i | i in st.at :: NumberIter(st.nodes, l, st.at[i])));
    assert SameList(st.nodes, l, st.nodes) && Once(l);
    hide Number, Once, Index;
    forall i | i in st.at ensures IterOk(l, nu.st.at[i]) {
      NumberIn(st.nodes, l, st.nodes, st.at[i].e);
    }
  }

  /** Whatever nodes come back: the iterator returns the nodes of different insertions. So a node is returned
      no more often than it was in the list at the beginning and has been inserted since. */
  lemma EachInsertionOnce(st: State, t: seq<Act>, i: nat) returns (r: seq<nat>)
    requires Ok(st) && Runs(st, t, i)
    ensures var names := st.nodes + InsertedNodes(t); Returns(st, t, i) == Named(names, r) && Given(names, r)
    ensures Once(r)
    ensures forall x :: multiset(Returns(st, t, i))[x] <= multiset(st.nodes + InsertedNodes(t))[x]
  {
    hide Ok, Agree, Runs, Returns, Named, Given, Possible, Trace, NumberRun, InsertedNodes, Below, Covered, Once;
    var nu := FirstNumbers(st);
    AnyRun(st, nu, t, i);
    r := Trace(nu.st, NumberRun(st, nu, t, i), i, Below(|nu.names|));
    ReturnsOnce(nu.st, NumberRun(st, nu, t, i), i, Below(|nu.names|));
    forall x ensures multiset(Returns(st, t, i))[x] <= multiset(st.nodes + InsertedNodes(t))[x] {
      NamedCount(st.nodes + InsertedNodes(t), r, x);
    }
  }

  /** Different numbers name a node at most as often as it is named at all. */
  lemma {:induction false} NamedCount(names: seq<nat>, r: seq<nat>, x: nat)
    requires Once(r) && Given(names, r)
    ensures multiset(Named(names, r))[x] <= multiset(names)[x]
    decreases |names|
  {
    if names == [] {
      if r != [] {
        GivenFirst(names, r);
      }
    } else {
      var n := |names| - 1;
      var short := names[..n];
      assert names == short + [names[n]] && multiset(names) == multiset(short) + multiset{names[n]};
      if n in r {
        var k := PlaceOf(r, n);
        CutMembers(r, k);
        NamedCount(short, Cut(r, k), x);
        SplitNamed(names, r, k);
        SameNames(names, n, Cut(r, k));
      } else {
        NamedCount(short, r, x);
        SameNames(names, n, r);
      }
    }
  }

  lemma GivenFirst(names: seq<nat>, r: seq<nat>)
    requires Given(names, r) && r != []
    ensures names != []
  {
    assert r[0] in r;
  }

  lemma SameNames(names: seq<nat>, n: nat, r: seq<nat>)
    requires n < |names| && Given(names[..n], r)
    ensures Named(names, r) == Named(names[..n], r)
  {
    forall j | 0 <= j < |r| ensures r[j] < n {
      assert r[j] in r;
    }
  }

  lemma SplitNamed(names: seq<nat>, r: seq<nat>, k: nat)
    requires k < |r| && r[k] < |names|
    ensures multiset(Named(names, r)) == multiset(Named(names, r[..k] + r[k + 1..])) + multiset{names[r[k]]}
  {
    var a, b := r[..k], r[k + 1..];
    assert r == a + [r[k]] + b;
    NamedConcat(names, a + [r[k]], b);
    NamedConcat(names, a, [r[k]]);
    NamedConcat(names, a, b);
    assert Named(names, [r[k]]) == [names[r[k]]];
  }
}
