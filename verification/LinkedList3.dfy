/** A doubly linked list without a central object, whose iterators survive removals, in place: the links
    of the nodes, and for each node the chain of the iterators that are on it. */
module LinkedList3 {
  import opened IteratorRuns
  import opened Sequences

  datatype Node = Node(p: int, n: int, it: int)

  datatype Iterator = Iterator(dir: int, e: int, pi: int, ni: int)

  // ---------------------------------------------------------------- the links

  /** The nodes of the list are linked both ways. */
  ghost predicate ListLinked(nd: seq<Node>, s: seq<nat>) {
    Once(s) && forall k :: 0 <= k < |s| ==> s[k] < |nd| && nd[s[k]].p == LinkAt(s, k - 1) && nd[s[k]].n == LinkAt(s, k + 1)
  }

  /** Iterator `i` is on node `x`, between these two. */
  ghost predicate IterLinked(it: seq<Iterator>, x: nat, i: nat, p: int, n: int) {
    i < |it| && it[i].e == x && it[i].pi == p && it[i].ni == n
  }

  /** The iterators on node `x` are linked both ways, from the node on. */
  ghost predicate ChainLinked(nd: seq<Node>, it: seq<Iterator>, x: nat, c: seq<nat>) {
    && x < |nd| && nd[x].it == LinkAt(c, 0) && Once(c)
    && forall k :: 0 <= k < |c| ==> IterLinked(it, x, c[k], LinkAt(c, k - 1), LinkAt(c, k + 1))
  }

  /** Each node of the list has exactly the iterators positioned on it. */
  ghost predicate ChainsLinked(nd: seq<Node>, it: seq<Iterator>, s: seq<nat>, chains: map<nat, seq<nat>>) {
    && (forall x :: x in chains <==> x in s)
    && forall x :: x in s ==> ChainLinked(nd, it, x, chains[x])
  }

  /** The iterators in use, and where they are. */
  ghost predicate ItersAt(it: seq<Iterator>, chains: map<nat, seq<nat>>, at: map<nat, Iter>) {
    && (forall i :: i in at ==> i < |it| && at[i] == Iter(it[i].e, it[i].dir) && (at[i].e != NULL ==> at[i].e in chains && i in chains[at[i].e]))
    && (forall x, i :: x in chains && i in chains[x] ==> i in at)
  }

  ghost predicate Linked(nd: seq<Node>, it: seq<Iterator>, s: seq<nat>, chains: map<nat, seq<nat>>, at: map<nat, Iter>) {
    ListLinked(nd, s) && ChainsLinked(nd, it, s, chains) && ItersAt(it, chains, at) && Ok(State(s, at))
  }

  // ---------------------------------------------------------------- nodes come and go

  /** The node writes of an insertion at position `k`. */
  function LinkIn(nd: seq<Node>, s: seq<nat>, k: nat, x: nat, y: nat): Node
    requires y < |nd|
  {
    if y == x then Node(LinkAt(s, k - 1), LinkAt(s, k), NULL)
    else if y == LinkAt(s, k - 1) then nd[y].(n := x)
    else if y == LinkAt(s, k) then nd[y].(p := x)
    else nd[y]
  }

  ghost predicate LinkedIn(nd: seq<Node>, nd': seq<Node>, s: seq<nat>, k: nat, x: nat) {
    |nd'| == |nd| && forall y :: 0 <= y < |nd| ==> nd'[y] == LinkIn(nd, s, k, x, y)
  }

  lemma NodeAt(nd: seq<Node>, s: seq<nat>, k: nat)
    requires ListLinked(nd, s) && k < |s|
    ensures s[k] < |nd| && nd[s[k]].p == LinkAt(s, k - 1) && nd[s[k]].n == LinkAt(s, k + 1)
  {
  }

  lemma InsertLinkAt(nd: seq<Node>, nd': seq<Node>, s: seq<nat>, k: nat, x: nat, j: nat)
    requires ListLinked(nd, s) && k <= |s| && x < |nd| && x !in s && LinkedIn(nd, nd', s, k, x) && j < |Inserted(s, k, x)|
    ensures var s' := Inserted(s, k, x);
      s'[j] < |nd'| && nd'[s'[j]].p == LinkAt(s', j - 1) && nd'[s'[j]].n == LinkAt(s', j + 1)
  {
    hide ListLinked;
    var s' := Inserted(s, k, x);
    InsertedLength(s, k, x);
    InsertedAt(s, k, x, j - 1);
    InsertedAt(s, k, x, j);
    InsertedAt(s, k, x, j + 1);
    assert LinkAt(s', j) == s'[j];
    if j != k {
      var i := if j < k then j else j - 1;
      NodeAt(nd, s, i);
      assert s[i] in s;
      assert Once(s) by {
        ListOnce(nd, s);
      }
      AtUnique(s, k - 1, i);
      AtUnique(s, k, i);
    }
    hide Inserted, Once;
  }

  lemma ListOnce(nd: seq<Node>, s: seq<nat>)
    requires ListLinked(nd, s)
    ensures Once(s)
  {
  }

  lemma InsertLinks(nd: seq<Node>, nd': seq<Node>, s: seq<nat>, k: nat, x: nat)
    requires ListLinked(nd, s) && k <= |s| && x < |nd| && x !in s && LinkedIn(nd, nd', s, k, x)
    ensures ListLinked(nd', Inserted(s, k, x))
  {
    var s' := Inserted(s, k, x);
    InsertedOnce(s, k, x);
    forall j | 0 <= j < |s'| ensures s'[j] < |nd'| && nd'[s'[j]].p == LinkAt(s', j - 1) && nd'[s'[j]].n == LinkAt(s', j + 1) {
      InsertLinkAt(nd, nd', s, k, x, j);
    }
    hide Once, Inserted;
  }

  lemma InsertChains(nd: seq<Node>, nd': seq<Node>, it: seq<Iterator>, s: seq<nat>, chains: map<nat, seq<nat>>, k: nat, x: nat)
    requires ChainsLinked(nd, it, s, chains) && k <= |s| && x < |nd| && x !in s && |nd'| == |nd| && nd'[x].it == NULL
    requires forall y :: 0 <= y < |nd| && y != x ==> nd'[y].it == nd[y].it
    ensures ChainsLinked(nd', it, Inserted(s, k, x), chains[x := []])
  {
    InsertedMembers(s, k, x);
    ShortOnce();
    assert ChainLinked(nd', it, x, []);
    forall y | y in s ensures ChainLinked(nd', it, y, chains[y]) {
      assert ChainLinked(nd, it, y, chains[y]);
      ChainOnce(nd, it, y, chains[y]);
      hide ChainLinked;
      ChainElsewhere(nd, nd', it, it, y, chains[y]);
    }
    hide ChainLinked, Inserted;
  }

  lemma InsertLinked(nd: seq<Node>, nd': seq<Node>, it: seq<Iterator>, s: seq<nat>, chains: map<nat, seq<nat>>, at: map<nat, Iter>,
                     k: nat, x: nat)
    requires Linked(nd, it, s, chains, at) && k <= |s| && x < |nd| && x !in s && LinkedIn(nd, nd', s, k, x)
    ensures Linked(nd', it, Inserted(s, k, x), chains[x := []], at)
  {
    hide Once, Inserted, ListLinked, ChainLinked, Ok, LinkedIn;
    InsertLinks(nd, nd', s, k, x);
    StepOk(State(s, at), Insert(k, x));
    LinkedInFields(nd, nd', s, k, x);
    InsertChains(nd, nd', it, s, chains, k, x);
    assert x !in chains;
    hide ChainsLinked;
  }

  /** Only links between nodes are written, but for the new node's own fields. */
  lemma LinkedInFields(nd: seq<Node>, nd': seq<Node>, s: seq<nat>, k: nat, x: nat)
    requires LinkedIn(nd, nd', s, k, x) && x < |nd|
    ensures |nd'| == |nd| && nd'[x].it == NULL && forall y :: 0 <= y < |nd| && y != x ==> nd'[y].it == nd[y].it
  {
  }

  lemma ShortOnce()
    ensures Once<nat>([])
  {
  }

  /** The node writes of a removal. */
  function LinkOut(nd: seq<Node>, s: seq<nat>, k: nat, y: nat): Node
    requires y < |nd|
  {
    if y == LinkAt(s, k - 1) then nd[y].(n := LinkAt(s, k + 1)) else if y == LinkAt(s, k + 1) then nd[y].(p := LinkAt(s, k - 1)) else nd[y]
  }

  ghost predicate LinkedOut(nd: seq<Node>, nd': seq<Node>, s: seq<nat>, k: nat) {
    |nd'| == |nd| && forall y :: 0 <= y < |nd| ==> nd'[y] == LinkOut(nd, s, k, y)
  }

  lemma RemoveLinkAt(nd: seq<Node>, nd': seq<Node>, s: seq<nat>, k: nat, j: nat)
    requires ListLinked(nd, s) && k < |s| && LinkedOut(nd, nd', s, k) && j < |s| - 1
    ensures var s' := Cut(s, k);
      s'[j] < |nd'| && nd'[s'[j]].p == LinkAt(s', j - 1) && nd'[s'[j]].n == LinkAt(s', j + 1)
  {
    hide ListLinked, Once;
    var i := if j < k then j else j + 1;
    AtCut(s, k, j - 1);
    AtCut(s, k, j);
    AtCut(s, k, j + 1);
    ListOnce(nd, s);
    NodeAt(nd, s, i);
    AtUnique(s, k - 1, i);
    AtUnique(s, k + 1, i);
    assert LinkAt(Cut(s, k), j) == s[i];
  }

  lemma RemoveLinks(nd: seq<Node>, nd': seq<Node>, s: seq<nat>, k: nat)
    requires ListLinked(nd, s) && k < |s| && LinkedOut(nd, nd', s, k)
    ensures ListLinked(nd', Cut(s, k))
  {
    var s' := Cut(s, k);
    assert Once(s');
    forall j | 0 <= j < |s'| ensures s'[j] < |nd'| && nd'[s'[j]].p == LinkAt(s', j - 1) && nd'[s'[j]].n == LinkAt(s', j + 1) {
      RemoveLinkAt(nd, nd', s, k, j);
    }
    hide Once;
  }

  /** Only links between nodes are written. */
  lemma LinkedOutFields(nd: seq<Node>, nd': seq<Node>, s: seq<nat>, k: nat)
    requires LinkedOut(nd, nd', s, k)
    ensures |nd'| == |nd| && forall y :: 0 <= y < |nd| ==> nd'[y].it == nd[y].it
  {
  }

  lemma RemoveChains(nd: seq<Node>, nd': seq<Node>, it: seq<Iterator>, s: seq<nat>, chains: map<nat, seq<nat>>, x: nat)
    requires ChainsLinked(nd, it, s, chains) && |nd'| == |nd| && forall y :: 0 <= y < |nd| ==> nd'[y].it == nd[y].it
    ensures ChainsLinked(nd', it, Without(s, x), chains - {x})
  {
    forall y | y in s ensures ChainLinked(nd', it, y, chains[y]) {
      assert ChainLinked(nd, it, y, chains[y]);
      ChainOnce(nd, it, y, chains[y]);
      hide ChainLinked;
      ChainElsewhere(nd, nd', it, it, y, chains[y]);
    }
    hide ChainLinked, Without;
  }

  /** A node without iterators takes none away. */
  lemma RemoveAt(it: seq<Iterator>, s: seq<nat>, chains: map<nat, seq<nat>>, at: map<nat, Iter>, x: nat)
    requires ItersAt(it, chains, at) && x in chains && chains[x] == [] && Ok(State(s, at))
    ensures ItersAt(it, chains - {x}, at) && forall i :: i in at ==> IterOk(Without(s, x), at[i])
  {
    hide Once, Without;
  }

  lemma RemoveLinked(nd: seq<Node>, nd': seq<Node>, it: seq<Iterator>, s: seq<nat>, chains: map<nat, seq<nat>>, at: map<nat, Iter>,
                     k: nat)
    requires Linked(nd, it, s, chains, at) && k < |s| && LinkedOut(nd, nd', s, k) && s[k] in chains && chains[s[k]] == []
    ensures Linked(nd', it, Without(s, s[k]), chains - {s[k]}, at)
  {
    hide LinkedOut, Once, Without, ListLinked, ChainsLinked, ItersAt, IterOk;
    ListOnce(nd, s);
    RemoveLinks(nd, nd', s, k);
    LinkedOutFields(nd, nd', s, k);
    WithoutAt(s, k);
    WithoutOnce(s, s[k]);
    RemoveChains(nd, nd', it, s, chains, s[k]);
    RemoveAt(it, s, chains, at, s[k]);
  }

  // ---------------------------------------------------------------- iterators come and go

  function Linking(nd: seq<Node>, it: seq<Iterator>, i: nat, e: nat, dir: int): seq<Iterator>
    requires i < |it| && e < |nd| && (nd[e].it == NULL || 0 <= nd[e].it < |it|)
  {
    var it1 := it[i := Iterator(dir, e, NULL, nd[e].it)];
    if nd[e].it == NULL then it1 else it1[nd[e].it := it1[nd[e].it].(pi := i)]
  }

  lemma ConsAt(i: nat, c: seq<nat>, k: int)
    ensures LinkAt([i] + c, k) == if k == 0 then i else if k < 0 then NULL else LinkAt(c, k - 1)
  {
  }

  lemma ChainAt(nd: seq<Node>, it: seq<Iterator>, x: nat, c: seq<nat>, k: nat)
    requires ChainLinked(nd, it, x, c) && k < |c|
    ensures IterLinked(it, x, c[k], LinkAt(c, k - 1), LinkAt(c, k + 1))
  {
  }

  lemma ChainPush(nd: seq<Node>, it: seq<Iterator>, x: nat, c: seq<nat>, i: nat, dir: int)
    requires ChainLinked(nd, it, x, c) && i < |it| && i !in c
    ensures x < |nd| && (nd[x].it == NULL || 0 <= nd[x].it < |it|) && nd[x].it != i
    ensures ChainLinked(nd[x := nd[x].(it := i)], Linking(nd, it, i, x, dir), x, [i] + c)
  {
    var d := [i] + c;
    assert Once(d) && (c != [] ==> c[0] in c && c[0] < |it|);
    var it' := Linking(nd, it, i, x, dir);
    ConsAt(i, c, 0);
    forall k | 0 <= k < |d|
      ensures IterLinked(it', x, d[k], LinkAt(d, k - 1), LinkAt(d, k + 1))
    {
      ConsAt(i, c, k - 1);
      ConsAt(i, c, k + 1);
      if k > 0 {
        ChainAt(nd, it, x, c, k - 1);
        AtUnique(c, 0, k - 1);
        assert d[k] == c[k - 1] && c[k - 1] in c;
      }
      hide ChainLinked;
    }
  }

  /** A chain without the iterators that are written to, of a node that is not written to. */
  lemma ChainElsewhere(nd: seq<Node>, nd': seq<Node>, it: seq<Iterator>, it': seq<Iterator>, y: nat, c: seq<nat>)
    requires ChainLinked(nd, it, y, c) && |nd'| == |nd| && |it'| == |it| && nd'[y].it == nd[y].it
    requires forall i :: 0 <= i < |it| && i in c ==> it'[i] == it[i]
    ensures ChainLinked(nd', it', y, c)
  {
    forall k | 0 <= k < |c| ensures c[k] < |it'| && it'[c[k]] == it[c[k]] {
      assert c[k] in c;
    }
  }

  lemma ChainMembers(nd: seq<Node>, it: seq<Iterator>, x: nat, c: seq<nat>)
    requires ChainLinked(nd, it, x, c)
    ensures forall i :: i in c ==> i < |it| && it[i].e == x
  {
  }

  /** A new iterator on node `e`. */
  lemma StartLinked(nd: seq<Node>, it: seq<Iterator>, s: seq<nat>, chains: map<nat, seq<nat>>, at: map<nat, Iter>,
                    i: nat, e: nat, dir: int)
    requires Linked(nd, it, s, chains, at) && i < |it| && (i in at ==> at[i].e == NULL) && e in s && (dir == 1 || dir == -1)
    ensures e < |nd| && (nd[e].it == NULL || 0 <= nd[e].it < |it|) && nd[e].it != i && e in chains
    ensures Linked(nd[e := nd[e].(it := i)], Linking(nd, it, i, e, dir), s, chains[e := [i] + chains[e]], at[i := Iter(e, dir)])
  {
    hide Once;
    var c := chains[e];
    assert ChainLinked(nd, it, e, c);
    ChainMembers(nd, it, e, c);
    NotInChains(nd, it, s, chains, at, i);
    ChainPush(nd, it, e, c, i, dir);
    var nd', it' := nd[e := nd[e].(it := i)], Linking(nd, it, i, e, dir);
    var chains', at' := chains[e := [i] + c], at[i := Iter(e, dir)];
    StartList(nd, s, e, i);
    StepOk(State(s, at), Start(i, e, dir));
    StartChains(nd, it, s, chains, i, e, dir);
    StartAt(nd, it, s, chains, at, i, e, dir);
  }

  lemma NotInChains(nd: seq<Node>, it: seq<Iterator>, s: seq<nat>, chains: map<nat, seq<nat>>, at: map<nat, Iter>, i: nat)
    requires ChainsLinked(nd, it, s, chains) && ItersAt(it, chains, at) && (i in at ==> at[i].e == NULL)
    ensures forall x :: x in chains ==> i !in chains[x]
  {
    forall x | x in chains ensures i !in chains[x] {
      ChainMembers(nd, it, x, chains[x]);
    }
  }

  lemma StartList(nd: seq<Node>, s: seq<nat>, e: nat, i: int)
    requires ListLinked(nd, s) && e < |nd|
    ensures ListLinked(nd[e := nd[e].(it := i)], s)
  {
  }

  lemma StartChains(nd: seq<Node>, it: seq<Iterator>, s: seq<nat>, chains: map<nat, seq<nat>>, i: nat, e: nat, dir: int)
    requires ChainsLinked(nd, it, s, chains) && i < |it| && e in s && (forall x :: x in chains ==> i !in chains[x])
    requires e < |nd| && (nd[e].it == NULL || 0 <= nd[e].it < |it|)
    ensures ChainsLinked(nd[e := nd[e].(it := i)], Linking(nd, it, i, e, dir), s, chains[e := [i] + chains[e]])
  {
    hide Once;
    var c := chains[e];
    assert ChainLinked(nd, it, e, c);
    ChainPush(nd, it, e, c, i, dir);
    ChainMembers(nd, it, e, c);
    var nd', it' := nd[e := nd[e].(it := i)], Linking(nd, it, i, e, dir);
    assert nd[e].it != NULL ==> c[0] in c;
    forall y | y in s && y != e ensures ChainLinked(nd', it', y, chains[y]) {
      assert ChainLinked(nd, it, y, chains[y]);
      ChainMembers(nd, it, y, chains[y]);
      hide ChainLinked;
      ChainElsewhere(nd, nd', it, it', y, chains[y]);
    }
  }

  lemma StartAt(nd: seq<Node>, it: seq<Iterator>, s: seq<nat>, chains: map<nat, seq<nat>>, at: map<nat, Iter>,
                i: nat, e: nat, dir: int)
    requires ItersAt(it, chains, at) && i < |it| && e in chains && (i in at ==> at[i].e == NULL)
    requires e < |nd| && (nd[e].it == NULL || 0 <= nd[e].it < |it|) && nd[e].it != i
    ensures ItersAt(Linking(nd, it, i, e, dir), chains[e := [i] + chains[e]], at[i := Iter(e, dir)])
  {
  }

  /** The iterator writes when an iterator between `p` and `n` is taken off its node. */
  function Unlink(it: seq<Iterator>, p: int, n: int, y: nat): Iterator
    requires y < |it|
  {
    if y == p then it[y].(ni := n) else if y == n then it[y].(pi := p) else it[y]
  }

  ghost predicate Unlinked(it: seq<Iterator>, it': seq<Iterator>, p: int, n: int) {
    |it'| == |it| && forall y :: 0 <= y < |it| ==> it'[y] == Unlink(it, p, n, y)
  }

  /** The node's own link, if the iterator was the first. */
  function NodeAfter(nd: seq<Node>, p: int, n: int, e: nat): seq<Node>
    requires e < |nd|
  {
    if p == NULL then nd[e := nd[e].(it := n)] else nd
  }

  lemma ChainOnce(nd: seq<Node>, it: seq<Iterator>, x: nat, c: seq<nat>)
    requires ChainLinked(nd, it, x, c)
    ensures Once(c) && x < |nd| && nd[x].it == LinkAt(c, 0)
  {
  }

  /** Unlinking iterator `k` leaves the others linked to their new neighbours. */
  lemma ChainCutAt(nd: seq<Node>, it: seq<Iterator>, it': seq<Iterator>, x: nat, c: seq<nat>, k: nat, j: nat)
    requires ChainLinked(nd, it, x, c) && k < |c| && j < |c| && j != k && Unlinked(it, it', LinkAt(c, k - 1), LinkAt(c, k + 1))
    ensures IterLinked(it', x, c[j], LinkAt(c, if j == k + 1 then j - 2 else j - 1), LinkAt(c, if j + 1 == k then j + 2 else j + 1))
  {
    hide Once, ChainLinked;
    ChainAt(nd, it, x, c, j);
    ChainOnce(nd, it, x, c);
    AtUnique(c, k - 1, j);
    AtUnique(c, k + 1, j);
  }

  /** The same, said of the shorter chain. */
  lemma ChainCutNow(nd: seq<Node>, it: seq<Iterator>, it': seq<Iterator>, x: nat, c: seq<nat>, k: nat, j: nat)
    requires ChainLinked(nd, it, x, c) && k < |c| && j < |c| - 1 && Unlinked(it, it', LinkAt(c, k - 1), LinkAt(c, k + 1))
    ensures j < |Cut(c, k)| && IterLinked(it', x, Cut(c, k)[j], LinkAt(Cut(c, k), j - 1), LinkAt(Cut(c, k), j + 1))
  {
    hide ChainLinked, Unlinked, IterLinked;
    AtCut(c, k, j - 1);
    AtCut(c, k, j + 1);
    ChainCutAt(nd, it, it', x, c, k, if j < k then j else j + 1);
    hide LinkAt;
  }

  lemma ChainCutHead(nd: seq<Node>, it: seq<Iterator>, x: nat, c: seq<nat>, k: nat)
    requires ChainLinked(nd, it, x, c) && k < |c|
    ensures x < |nd| && NodeAfter(nd, LinkAt(c, k - 1), LinkAt(c, k + 1), x)[x].it == LinkAt(Cut(c, k), 0)
  {
    hide Once;
    ChainOnce(nd, it, x, c);
    hide ChainLinked;
    AtCut(c, k, 0);
    hide Cut;
  }

  lemma ChainCut(nd: seq<Node>, it: seq<Iterator>, it': seq<Iterator>, x: nat, c: seq<nat>, k: nat)
    requires ChainLinked(nd, it, x, c) && k < |c| && Unlinked(it, it', LinkAt(c, k - 1), LinkAt(c, k + 1))
    ensures x < |nd| && ChainLinked(NodeAfter(nd, LinkAt(c, k - 1), LinkAt(c, k + 1), x), it', x, Cut(c, k))
  {
    hide Unlinked, Once, IterLinked;
    ChainOnce(nd, it, x, c);
    CutMembers(c, k);
    CutLength(c, k);
    ChainCutHead(nd, it, x, c, k);
    var d := Cut(c, k);
    forall j | 0 <= j < |d| ensures IterLinked(it', x, d[j], LinkAt(d, j - 1), LinkAt(d, j + 1)) {
      ChainCutNow(nd, it, it', x, c, k, j);
    }
    hide Cut, LinkAt;
  }

  lemma StopChains(nd: seq<Node>, it: seq<Iterator>, it': seq<Iterator>, s: seq<nat>, chains: map<nat, seq<nat>>, e: nat, k: nat)
    requires ChainsLinked(nd, it, s, chains) && e in s && e in chains && k < |chains[e]|
    requires var c := chains[e]; Unlinked(it, it', LinkAt(c, k - 1), LinkAt(c, k + 1))
    ensures e < |nd|
    ensures var c := chains[e];
      ChainsLinked(NodeAfter(nd, LinkAt(c, k - 1), LinkAt(c, k + 1), e), it', s, chains[e := Cut(c, k)])
  {
    hide Once;
    var c := chains[e];
    assert ChainLinked(nd, it, e, c);
    ChainCut(nd, it, it', e, c, k);
    ChainMembers(nd, it, e, c);
    var nd' := NodeAfter(nd, LinkAt(c, k - 1), LinkAt(c, k + 1), e);
    forall y | y in s && y != e ensures ChainLinked(nd', it', y, chains[y]) {
      assert ChainLinked(nd, it, y, chains[y]);
      ChainMembers(nd, it, y, chains[y]);
      ChainOnce(nd, it, y, chains[y]);
      hide ChainLinked;
      assert (k > 0 ==> c[k - 1] in c) && (k + 1 < |c| ==> c[k + 1] in c);
      ChainElsewhere(nd, nd', it, it', y, chains[y]);
    }
    hide ChainLinked, Unlinked, NodeAfter;
  }

  /** These iterators are on node `x`. */
  ghost predicate AllOn(it: seq<Iterator>, x: nat, c: seq<nat>) {
    forall i :: i in c ==> i < |it| && it[i].e == x
  }

  lemma StopAt(it: seq<Iterator>, it': seq<Iterator>, chains: map<nat, seq<nat>>, at: map<nat, Iter>, e: nat, k: nat)
    requires ItersAt(it, chains, at) && e in chains && k < |chains[e]| && Once(chains[e])
    requires forall x :: x in chains ==> AllOn(it, x, chains[x])
    requires var c := chains[e]; Unlinked(it, it', LinkAt(c, k - 1), LinkAt(c, k + 1))
    ensures var c := chains[e]; ItersAt(it', chains[e := Cut(c, k)], at - {c[k]})
  {
    var c := chains[e];
    CutMembers(c, k);
    hide Once, Cut;
    assert c[k] in chains[e];
    assert |it'| == |it| && forall i :: 0 <= i < |it| ==> it'[i].e == it[i].e && it'[i].dir == it[i].dir;
    hide Unlinked;
    var chains', at' := chains[e := Cut(c, k)], at - {c[k]};
    forall i | i in at'
      ensures i < |it'| && at'[i] == Iter(it'[i].e, it'[i].dir) && (at'[i].e != NULL ==> at'[i].e in chains' && i in chains'[at'[i].e])
    {
      assert i in at && i != c[k];
    }
    assert AllOn(it, e, chains[e]);
    forall x, i | x in chains' && i in chains'[x] ensures i in at' {
      assert AllOn(it, x, chains[x]);
      assert i in chains[x];
    }
  }

  /** Where an iterator is in the chain of its node. */
  lemma IterPlace(nd: seq<Node>, it: seq<Iterator>, s: seq<nat>, chains: map<nat, seq<nat>>, at: map<nat, Iter>, i: nat)
    returns (k: nat)
    requires Linked(nd, it, s, chains, at) && i in at && at[i].e != NULL
    ensures var e := at[i].e;
      && 0 <= e < |nd| && i < |it| && e in s && e in chains && k < |chains[e]| && chains[e][k] == i
      && it[i] == Iterator(at[i].dir, e, LinkAt(chains[e], k - 1), LinkAt(chains[e], k + 1)) && nd[e].it == LinkAt(chains[e], 0)
      && (k > 0 ==> chains[e][k - 1] < |it| && chains[e][k - 1] != i) && (k + 1 < |chains[e]| ==> chains[e][k + 1] < |it|)
  {
    hide Once;
    var e: nat := at[i].e;
    var c := chains[e];
    k :| 0 <= k < |c| && c[k] == i;
    assert ChainLinked(nd, it, e, c);
    ChainOnce(nd, it, e, c);
    AtUnique(c, k - 1, k);
  }

  /** An iterator is taken off its node. */
  lemma StopLinked(nd: seq<Node>, it: seq<Iterator>, it': seq<Iterator>, s: seq<nat>, chains: map<nat, seq<nat>>,
                   at: map<nat, Iter>, e: nat, k: nat)
    requires Linked(nd, it, s, chains, at) && e in s && e in chains && k < |chains[e]|
    requires var c := chains[e]; Unlinked(it, it', LinkAt(c, k - 1), LinkAt(c, k + 1))
    ensures e < |nd|
    ensures var c := chains[e];
      Linked(NodeAfter(nd, LinkAt(c, k - 1), LinkAt(c, k + 1), e), it', s, chains[e := Cut(c, k)], at - {c[k]})
  {
    hide Once;
    var c := chains[e];
    assert ChainLinked(nd, it, e, c);
    ChainOnce(nd, it, e, c);
    forall x | x in chains ensures AllOn(it, x, chains[x]) {
      ChainMembers(nd, it, x, chains[x]);
    }
    hide ChainLinked;
    assert c[k] in c && c[k] in at;
    StopChains(nd, it, it', s, chains, e, k);
    StopAt(it, it', chains, at, e, k);
    StopList(nd, s, e, LinkAt(c, k - 1), LinkAt(c, k + 1));
    StepOk(State(s, at), Stop(c[k]));
    hide ListLinked, ChainsLinked, ItersAt, Unlinked, NodeAfter;
  }

  lemma StopList(nd: seq<Node>, s: seq<nat>, e: nat, p: int, n: int)
    requires ListLinked(nd, s) && e < |nd|
    ensures ListLinked(NodeAfter(nd, p, n, e), s)
  {
  }

  /** An iterator starts at the end. */
  lemma EndLinked(nd: seq<Node>, it: seq<Iterator>, s: seq<nat>, chains: map<nat, seq<nat>>, at: map<nat, Iter>, i: nat, dir: int)
    requires Linked(nd, it, s, chains, at) && i < |it| && (i in at ==> at[i].e == NULL) && (dir == 1 || dir == -1)
    ensures Linked(nd, it[i := it[i].(dir := dir, e := NULL)], s, chains, at[i := Iter(NULL, dir)])
  {
    hide Once;
    NotInChains(nd, it, s, chains, at, i);
    var it' := it[i := it[i].(dir := dir, e := NULL)];
    forall y | y in s ensures ChainLinked(nd, it', y, chains[y]) {
      assert ChainLinked(nd, it, y, chains[y]);
      hide ChainLinked;
      ChainElsewhere(nd, nd, it, it', y, chains[y]);
    }
    StepOk(State(s, at), Start(i, NULL, dir));
    hide ChainLinked, ListLinked;
  }

  // ---------------------------------------------------------------- what the methods read

  lemma AtIn(s: seq<nat>, j: int)
    ensures LinkAt(s, j) == NULL || (0 <= j < |s| && LinkAt(s, j) in s)
  {
  }

  lemma InArena(nd: seq<Node>, s: seq<nat>, j: int)
    requires ListLinked(nd, s)
    ensures LinkAt(s, j) == NULL || 0 <= LinkAt(s, j) < |nd|
  {
  }

  lemma AroundApart(s: seq<nat>, k: nat)
    requires Once(s) && k < |s|
    ensures LinkAt(s, k - 1) != s[k] && LinkAt(s, k + 1) != s[k] && (LinkAt(s, k - 1) == NULL || LinkAt(s, k - 1) != LinkAt(s, k + 1))
  {
  }

  /** The links of a node of the list. */
  ghost predicate NodeLinks(nd: seq<Node>, s: seq<nat>, x: nat, k: nat) {
    && k < |s| && s[k] == x && x < |nd| && nd[x].p == LinkAt(s, k - 1) && nd[x].n == LinkAt(s, k + 1)
    && (nd[x].p == NULL || (0 <= nd[x].p < |nd| && nd[x].p in s)) && (nd[x].n == NULL || (0 <= nd[x].n < |nd| && nd[x].n in s))
    && nd[x].p != x && nd[x].n != x && (nd[x].p == NULL || nd[x].p != nd[x].n)
  }

  lemma NodeLinksAt(nd: seq<Node>, s: seq<nat>, k: nat)
    requires ListLinked(nd, s) && k < |s|
    ensures NodeLinks(nd, s, s[k], k)
  {
    hide ListLinked, Once, LinkAt;
    NodeAt(nd, s, k);
    ListOnce(nd, s);
    AroundApart(s, k);
    AtIn(s, k - 1);
    AtIn(s, k + 1);
    InArena(nd, s, k - 1);
    InArena(nd, s, k + 1);
  }

  lemma LinksAt(nd: seq<Node>, it: seq<Iterator>, s: seq<nat>, chains: map<nat, seq<nat>>, at: map<nat, Iter>, x: nat)
    requires Linked(nd, it, s, chains, at) && x in s
    ensures NodeLinks(nd, s, x, Index(s, x)) && x in chains && nd[x].it == LinkAt(chains[x], 0)
  {
    assert ChainLinked(nd, it, x, chains[x]);
    hide Index, NodeLinks, Once, ItersAt, Ok, ListLinked;
    IndexIn(s, x);
    NodeLinksAt(nd, s, Index(s, x));
    assert x < |nd|;
  }

  lemma IterHere(nd: seq<Node>, it: seq<Iterator>, s: seq<nat>, chains: map<nat, seq<nat>>, at: map<nat, Iter>, i: nat)
    requires Linked(nd, it, s, chains, at) && i in at
    ensures i < |it| && at[i] == Iter(it[i].e, it[i].dir) && IterOk(s, at[i])
  {
  }

  /** An iterator at its end is in no chain. */
  lemma EndStop(nd: seq<Node>, it: seq<Iterator>, s: seq<nat>, chains: map<nat, seq<nat>>, at: map<nat, Iter>, i: nat)
    requires Linked(nd, it, s, chains, at) && i in at && at[i].e == NULL
    ensures Linked(nd, it, s, chains, at - {i})
  {
    NotInChains(nd, it, s, chains, at, i);
    hide ListLinked, ChainsLinked, Once;
  }

  lemma ChainApart(nd: seq<Node>, it: seq<Iterator>, s: seq<nat>, chains: map<nat, seq<nat>>, at: map<nat, Iter>, e: nat, k: nat)
    requires Linked(nd, it, s, chains, at) && e in s && e in chains && k < |chains[e]|
    ensures var c := chains[e]; Once(c) && (LinkAt(c, k - 1) == NULL || LinkAt(c, k - 1) != LinkAt(c, k + 1))
  {
    assert ChainLinked(nd, it, e, chains[e]);
  }

  /** The links an iterator follows. */
  lemma NextLinks(nd: seq<Node>, it: seq<Iterator>, s: seq<nat>, chains: map<nat, seq<nat>>, at: map<nat, Iter>, i: nat)
    requires Linked(nd, it, s, chains, at) && i in at
    ensures i < |it| && at[i] == Iter(it[i].e, it[i].dir)
    ensures var e := it[i].e; e != NULL ==>
      && 0 <= e < |nd| && e in s && (it[i].dir == 1 || it[i].dir == -1)
      && var n := (if it[i].dir == 1 then nd[e].n else nd[e].p);
        n == Neighbour(s, e, it[i].dir) && n != e && (n == NULL || n in s)
  {
    IterHere(nd, it, s, chains, at, i);
    if it[i].e != NULL {
      LinksAt(nd, it, s, chains, at, it[i].e);
    }
    hide Linked, Index;
  }

  // ---------------------------------------------------------------- lists side by side

  /** Only the entries in `s` may have been written to. */
  ghost predicate Outside<T(!new)>(a: seq<T>, b: seq<T>, s: set<nat>) {
    |b| == |a| && forall y :: 0 <= y < |a| && y !in s ==> b[y] == a[y]
  }

  function Members(s: seq<nat>): set<nat> {
    set x | x in s
  }

  lemma OutsideTrans<T(!new)>(a: seq<T>, b: seq<T>, c: seq<T>, s: set<nat>)
    requires Outside(a, b, s) && Outside(b, c, s)
    ensures Outside(a, c, s)
  {
  }

  /** A list stays what it is when another one, with other nodes and iterators, is worked on. */
  lemma OthersKept(nd: seq<Node>, nd': seq<Node>, it: seq<Iterator>, it': seq<Iterator>, ns: set<nat>, used: set<nat>,
                   s: seq<nat>, chains: map<nat, seq<nat>>, at: map<nat, Iter>)
    requires Linked(nd, it, s, chains, at) && Outside(nd, nd', ns) && Outside(it, it', used)
    requires Members(s) !! ns && at.Keys !! used
    ensures Linked(nd', it', s, chains, at)
  {
    forall x | x in s ensures x !in ns {
      assert x in Members(s);
    }
    forall i | i in at ensures i !in used && i < |it| && it'[i] == it[i] {
      assert i in at.Keys;
    }
    OtherNodes(nd, nd', s, ns);
    OtherChains(nd, nd', it, it', s, chains, at, ns, used);
    hide ListLinked, ChainsLinked, Outside, Members;
  }

  lemma OtherNodes(nd: seq<Node>, nd': seq<Node>, s: seq<nat>, ns: set<nat>)
    requires ListLinked(nd, s) && Outside(nd, nd', ns) && forall x :: x in s ==> x !in ns
    ensures ListLinked(nd', s)
  {
    hide Once;
  }

  lemma OtherChains(nd: seq<Node>, nd': seq<Node>, it: seq<Iterator>, it': seq<Iterator>, s: seq<nat>, chains: map<nat, seq<nat>>,
                    at: map<nat, Iter>, ns: set<nat>, used: set<nat>)
    requires ChainsLinked(nd, it, s, chains) && ItersAt(it, chains, at) && Outside(nd, nd', ns) && Outside(it, it', used)
    requires (forall x :: x in s ==> x !in ns) && forall i :: i in at ==> i !in used
    ensures ChainsLinked(nd', it', s, chains)
  {
    forall x | x in s ensures ChainLinked(nd', it', x, chains[x]) {
      assert ChainLinked(nd, it, x, chains[x]);
      ChainOnce(nd, it, x, chains[x]);
      hide ChainLinked;
      ChainElsewhere(nd, nd', it, it', x, chains[x]);
    }
    hide ChainLinked;
  }

  lemma OutsideSame(nd: seq<Node>, it: seq<Iterator>, s: seq<nat>, at: map<nat, Iter>)
    ensures Outside(nd, nd, Members(s)) && Outside(it, it, at.Keys)
  {
  }

  lemma LinkedInOutside(nd: seq<Node>, nd': seq<Node>, s: seq<nat>, k: nat, x: nat)
    requires LinkedIn(nd, nd', s, k, x)
    ensures Outside(nd, nd', Members(s) + {x})
  {
    forall y | 0 <= y < |nd| && y !in Members(s) + {x} ensures nd'[y] == nd[y] {
      AtIn(s, k - 1);
      AtIn(s, k);
    }
  }

  lemma LinkedOutOutside(nd: seq<Node>, nd': seq<Node>, s: seq<nat>, k: nat)
    requires LinkedOut(nd, nd', s, k)
    ensures Outside(nd, nd', Members(s))
  {
    forall y | 0 <= y < |nd| && y !in Members(s) ensures nd'[y] == nd[y] {
      AtIn(s, k - 1);
      AtIn(s, k + 1);
    }
  }

  lemma LinkingOutside(nd: seq<Node>, it: seq<Iterator>, s: seq<nat>, chains: map<nat, seq<nat>>, at: map<nat, Iter>,
                       i: nat, e: nat, dir: int)
    requires Linked(nd, it, s, chains, at) && i < |it| && e in s && e < |nd| && (nd[e].it == NULL || 0 <= nd[e].it < |it|)
    ensures Outside(it, Linking(nd, it, i, e, dir), at.Keys + {i})
    ensures Outside(nd, nd[e := nd[e].(it := i)], Members(s))
  {
    hide Once, ListLinked, Ok;
    assert ChainLinked(nd, it, e, chains[e]);
    AtIn(chains[e], 0);
  }

  lemma UnlinkedOutside(nd: seq<Node>, it: seq<Iterator>, it': seq<Iterator>, s: seq<nat>, chains: map<nat, seq<nat>>, at: map<nat, Iter>,
                        e: nat, k: nat)
    requires Linked(nd, it, s, chains, at) && e in s && e in chains && k < |chains[e]| && e < |nd|
    requires Unlinked(it, it', LinkAt(chains[e], k - 1), LinkAt(chains[e], k + 1))
    ensures Outside(it, it', at.Keys)
    ensures Outside(nd, NodeAfter(nd, LinkAt(chains[e], k - 1), LinkAt(chains[e], k + 1), e), Members(s))
  {
    hide Once, ListLinked, Ok, ChainsLinked;
    AtIn(chains[e], k - 1);
    AtIn(chains[e], k + 1);
  }

  // ---------------------------------------------------------------- the list, in place

  class LinkedList3 {
    const nodes: array<Node>
    const iters: array<Iterator>
    ghost var list: seq<nat>
    ghost var chains: map<nat, seq<nat>>
    ghost var at: map<nat, Iter>

    ghost predicate Valid()
      reads this, nodes, iters
    {
      Linked(nodes[..], iters[..], list, chains, at)
    }

    ghost function Value(): State
      reads this
    {
      State(list, at)
    }

    constructor (nodes: array<Node>, iters: array<Iterator>)
      ensures Valid() && Value() == State([], map[]) && this.nodes == nodes && this.iters == iters
    {
      this.nodes, this.iters, list, chains, at := nodes, iters, [], map[], map[];
    }

    /** LinkedList3Node_InitLonely: the first node of the list. */
    method InitLonely(x: nat)
      requires Valid() && list == [] && x < nodes.Length
      modifies this, nodes
      ensures Valid() && Value() == Step(old(Value()), Insert(0, x))
      ensures Outside(old(nodes[..]), nodes[..], old(Members(list)) + {x})
    {
      ghost var nd := nodes[..];
      nodes[x] := Node(NULL, NULL, NULL);
      assert LinkedIn(nd, nodes[..], list, 0, x);
      LinkedInOutside(nd, nodes[..], list, 0, x);
      InsertLinked(nd, nodes[..], iters[..], list, chains, at, 0, x);
      list, chains := Inserted(list, 0, x), chains[x := []];
    }

    /** LinkedList3Node_InitAfter */
    method InitAfter(x: nat, ref: nat)
      requires Valid() && ref in list && x !in list && x < nodes.Length
      modifies this, nodes
      ensures Valid() && Enabled(old(Value()), Insert(Index(old(list), ref) + 1, x))
      ensures Value() == Step(old(Value()), Insert(Index(old(list), ref) + 1, x))
      ensures Outside(old(nodes[..]), nodes[..], old(Members(list)) + {x})
    {
      hide Linked, Index, Inserted, LinkedIn, Outside;
      ghost var nd, k := nodes[..], Index(list, ref) + 1;
      LinksAt(nd, iters[..], list, chains, at, ref);
      WriteAfter(x, ref, k);
      LinkedInOutside(nd, nodes[..], list, k, x);
      InsertLinked(nd, nodes[..], iters[..], list, chains, at, k, x);
      list, chains := Inserted(list, k, x), chains[x := []];
    }

    method WriteAfter(x: nat, ref: nat, ghost k: int)
      requires x < nodes.Length && ref < nodes.Length && x != ref && 0 < k <= |list| && list[k - 1] == ref && x !in list
      requires nodes[ref].n == LinkAt(list, k) && (nodes[ref].n == NULL || 0 <= nodes[ref].n < nodes.Length) && nodes[ref].n != ref
      modifies nodes
      ensures LinkedIn(old(nodes[..]), nodes[..], list, k, x)
    {
      ghost var nd := nodes[..];
      AtIn(list, k);
      nodes[x] := Node(ref, nodes[ref].n, NULL);
      nodes[ref] := nodes[ref].(n := x);
      if nodes[x].n != NULL {
        nodes[nodes[x].n] := nodes[nodes[x].n].(p := x);
      }
      forall y | 0 <= y < |nd| ensures nodes[..][y] == LinkIn(nd, list, k, x, y) {
      }
    }

    /** LinkedList3Node_InitBefore */
    method InitBefore(x: nat, ref: nat)
      requires Valid() && ref in list && x !in list && x < nodes.Length
      modifies this, nodes
      ensures Valid() && Enabled(old(Value()), Insert(Index(old(list), ref), x))
      ensures Value() == Step(old(Value()), Insert(Index(old(list), ref), x))
      ensures Outside(old(nodes[..]), nodes[..], old(Members(list)) + {x})
    {
      hide Linked, Index, Inserted, LinkedIn, Outside;
      ghost var nd, k := nodes[..], Index(list, ref);
      LinksAt(nd, iters[..], list, chains, at, ref);
      WriteBefore(x, ref, k);
      LinkedInOutside(nd, nodes[..], list, k, x);
      InsertLinked(nd, nodes[..], iters[..], list, chains, at, k, x);
      list, chains := Inserted(list, k, x), chains[x := []];
    }

    method WriteBefore(x: nat, ref: nat, ghost k: int)
      requires x < nodes.Length && ref < nodes.Length && x != ref && 0 <= k < |list| && list[k] == ref && x !in list
      requires nodes[ref].p == LinkAt(list, k - 1) && (nodes[ref].p == NULL || 0 <= nodes[ref].p < nodes.Length) && nodes[ref].p != ref
      modifies nodes
      ensures LinkedIn(old(nodes[..]), nodes[..], list, k, x)
    {
      ghost var nd := nodes[..];
      AtIn(list, k - 1);
      nodes[x] := Node(nodes[ref].p, ref, NULL);
      nodes[ref] := nodes[ref].(p := x);
      if nodes[x].p != NULL {
        nodes[nodes[x].p] := nodes[nodes[x].p].(n := x);
      }
      forall y | 0 <= y < |nd| ensures nodes[..][y] == LinkIn(nd, list, k, x, y) {
      }
    }

    /** LinkedList3Iterator_Init */
    method IteratorInit(i: nat, e: int, dir: int)
      requires Valid() && Enabled(Value(), Start(i, e, dir)) && i < iters.Length
      modifies this, nodes, iters
      ensures Valid() && Value() == Step(old(Value()), Start(i, e, dir))
      ensures forall x :: x in old(chains) && x != e ==> x in chains && chains[x] == old(chains)[x]
      ensures Outside(old(nodes[..]), nodes[..], old(Members(list))) && Outside(old(iters[..]), iters[..], old(at.Keys) + {i})
    {
      hide Linked, Linking;
      if e == NULL {
        EndLinked(nodes[..], iters[..], list, chains, at, i, dir);
        iters[i] := iters[i].(dir := dir, e := e);
      } else {
        StartLinked(nodes[..], iters[..], list, chains, at, i, e, dir);
        LinkingOutside(nodes[..], iters[..], list, chains, at, i, e, dir);
        LinkIterator(i, e, dir);
        chains := chains[e := [i] + chains[e]];
      }
      at := at[i := Iter(e, dir)];
    }

    /** Puts iterator `i` in front of the chain of node `e`. */
    method LinkIterator(i: nat, e: nat, dir: int)
      requires i < iters.Length && e < nodes.Length && nodes[e].it != i
      requires nodes[e].it == NULL || 0 <= nodes[e].it < iters.Length
      modifies nodes, iters
      ensures nodes[..] == old(nodes[..])[e := old(nodes[e]).(it := i)]
      ensures iters[..] == Linking(old(nodes[..]), old(iters[..]), i, e, dir)
    {
      iters[i] := iters[i].(dir := dir, e := e);
      iters[i] := iters[i].(pi := NULL, ni := nodes[e].it);
      if nodes[e].it != NULL {
        iters[nodes[e].it] := iters[nodes[e].it].(pi := i);
      }
      nodes[e] := nodes[e].(it := i);
    }

    /** Takes iterator `i` out of the chain of its node. */
    method UnlinkIterator(i: nat)
      requires i < iters.Length && 0 <= iters[i].e < nodes.Length
      requires var p, n := iters[i].pi, iters[i].ni;
        && (p == NULL || (0 <= p < iters.Length && p != i && p != n)) && (n == NULL || 0 <= n < iters.Length)
      modifies nodes, iters
      ensures Unlinked(old(iters[..]), iters[..], old(iters[i].pi), old(iters[i].ni))
      ensures nodes[..] == NodeAfter(old(nodes[..]), old(iters[i].pi), old(iters[i].ni), old(iters[i].e))
    {
      ghost var nd, it := nodes[..], iters[..];
      var e, p, n := iters[i].e, iters[i].pi, iters[i].ni;
      if n != NULL {
        iters[n] := iters[n].(pi := p);
      }
      if p != NULL {
        iters[p] := iters[p].(ni := n);
      } else {
        nodes[e] := nodes[e].(it := n);
      }
      forall y | 0 <= y < |it| ensures iters[..][y] == Unlink(it, p, n, y) {
      }
    }

    /** LinkedList3Iterator_Free */
    method IteratorFree(i: nat)
      requires Valid() && i in at
      modifies this, nodes, iters
      ensures Valid() && Value() == Step(old(Value()), Stop(i)) && i < iters.Length
      ensures iters[i].dir == old(at)[i].dir
      ensures if old(at)[i].e == NULL then chains == old(chains) else Shortened(old(chains), chains, old(at)[i].e, i)
      ensures Outside(old(nodes[..]), nodes[..], old(Members(list))) && Outside(old(iters[..]), iters[..], old(at.Keys))
    {
      hide Linked, Once, Unlinked, NodeAfter, Cut;
      ghost var nd, it := nodes[..], iters[..];
      IterHere(nd, it, list, chains, at, i);
      if iters[i].e != NULL {
        ghost var k := IterPlace(nd, it, list, chains, at, i);
        ghost var e: nat := iters[i].e;
        ghost var c := chains[e];
        ghost var p, n := iters[i].pi, iters[i].ni;
        ChainApart(nd, it, list, chains, at, e, k);
        UnlinkIterator(i);
        UnlinkedKeeps(it, iters[..], p, n, i);
        UnlinkedOutside(nd, it, iters[..], list, chains, at, e, k);
        StopLinked(nd, it, iters[..], list, chains, at, e, k);
        CutMembers(c, k);
        CutLength(c, k);
        chains := chains[e := Cut(c, k)];
      } else {
        EndStop(nd, it, list, chains, at, i);
      }
      at := at - {i};
    }

    /** LinkedList3Iterator_Next */
    method IteratorNext(i: nat) returns (orig: int)
      requires Valid() && i in at
      modifies this, nodes, iters
      ensures Valid() && Value() == Step(old(Value()), Next(i)) && orig == old(at)[i].e
      ensures orig != NULL ==> orig in old(chains) && orig in chains && LessOne(old(chains)[orig], chains[orig], i)
      ensures Outside(old(nodes[..]), nodes[..], old(Members(list))) && Outside(old(iters[..]), iters[..], old(at.Keys))
    {
      hide Linked, Index, Neighbour, Outside;
      ghost var nd, it := nodes[..], iters[..];
      OutsideSame(nd, it, list, at);
      ghost var was := at;
      NextLinks(nodes[..], iters[..], list, chains, at, i);
      orig := iters[i].e;
      if orig != NULL {
        var next := if iters[i].dir == 1 then nodes[orig].n else nodes[orig].p;
        IteratorFree(i);
        ghost var nd1, it1 := nodes[..], iters[..];
        IteratorInit(i, next, iters[i].dir);
        OutsideTrans(nd, nd1, nodes[..], Members(list));
        assert at.Keys - {i} + {i} == was.Keys;
        OutsideTrans(it, it1, iters[..], was.Keys);
        assert at == was[i := Iter(next, was[i].dir)];
      } else {
        assert at == was[i := was[i]];
      }
    }

    /** LinkedList3Node_Free: the iterators on the node go on, each its way, and the node is taken
        out. */
    method Free(x: nat)
      requires Valid() && x in list
      modifies this, nodes, iters
      ensures Valid() && Value() == Step(old(Value()), IteratorRuns.Free(x))
      ensures Outside(old(nodes[..]), nodes[..], old(Members(list))) && Outside(old(iters[..]), iters[..], old(at.Keys))
    {
      hide Linked, Index, Without, Outside, LinkedOut;
      ghost var nd0, it0 := nodes[..], iters[..];
      OutsideSame(nd0, it0, list, at);
      ghost var was := at;
      LinksAt(nodes[..], iters[..], list, chains, at, x);
      FreeStart(nodes[..], iters[..], list, chains, at, x);
      while nodes[x].it != NULL
        invariant Valid() && list == old(list) && x < nodes.Length && x in chains && nodes[x].it == LinkAt(chains[x], 0)
        invariant FreeUntil(list, was, at, chains, x)
        invariant Outside(nd0, nodes[..], Members(list)) && Outside(it0, iters[..], was.Keys)
        decreases |chains[x]|
      {
        ghost var before, i := at, chains[x][0];
        assert i in chains[x];
        FreeHere(nodes[..], iters[..], list, chains, at, x, i);
        ghost var cs, nd1, it1 := chains, nodes[..], iters[..];
        var orig := IteratorNext(nodes[x].it);
        OutsideTrans(nd0, nd1, nodes[..], Members(list));
        OutsideTrans(it0, it1, iters[..], was.Keys);
        FreeNext(list, was, before, cs, at, chains, x, i);
        LinksAt(nodes[..], iters[..], list, chains, at, x);
      }
      ghost var nd, k := nodes[..], Index(list, x);
      LinksAt(nd, iters[..], list, chains, at, x);
      WriteOut(x, k);
      LinkedOutOutside(nd, nodes[..], list, k);
      OutsideTrans(nd0, nd, nodes[..], Members(list));
      RemoveLinked(nd, nodes[..], iters[..], list, chains, at, k);
      FreeEnd(list, was, at, chains, x);
      list, chains := Without(list, x), chains - {x};
    }

    /** Unlinks node `x` from its neighbours. */
    method WriteOut(x: nat, ghost k: nat)
      requires NodeLinks(nodes[..], list, x, k)
      modifies nodes
      ensures LinkedOut(old(nodes[..]), nodes[..], list, k)
    {
      ghost var nd := nodes[..];
      if nodes[x].p != NULL {
        nodes[nodes[x].p] := nodes[nodes[x].p].(n := nodes[x].n);
      }
      if nodes[x].n != NULL {
        nodes[nodes[x].n] := nodes[nodes[x].n].(p := nodes[x].p);
      }
      forall y | 0 <= y < |nd| ensures nodes[..][y] == LinkOut(nd, list, k, y) {
      }
    }
  }

  /** The chain of node `x` has lost iterator `i`, the others are as they were. */
  ghost predicate Shortened(chains: map<nat, seq<nat>>, chains': map<nat, seq<nat>>, x: int, i: nat) {
    && x in chains && chains'.Keys == chains.Keys && LessOne(chains[x], chains'[x], i)
    && (forall y :: y in chains && y != x ==> chains'[y] == chains[y])
  }

  ghost predicate LessOne(c: seq<nat>, c': seq<nat>, i: nat) {
    |c'| < |c| && forall j :: j in c' <==> j in c && j != i
  }

  lemma UnlinkedKeeps(it: seq<Iterator>, it': seq<Iterator>, p: int, n: int, i: nat)
    requires Unlinked(it, it', p, n) && i < |it|
    ensures it'[i].dir == it[i].dir && |it'| == |it|
  {
  }

  lemma CutLength(c: seq<nat>, k: nat)
    requires k < |c|
    ensures |Cut(c, k)| == |c| - 1
  {
  }

  /** While a node is being freed: the iterators that were on it and are not in its chain any more
      have gone on, the others are where they were. */
  ghost predicate FreeUntil(s: seq<nat>, was: map<nat, Iter>, at: map<nat, Iter>, chains: map<nat, seq<nat>>, x: nat) {
    && at.Keys == was.Keys && x in chains
    && (forall i :: i in chains[x] ==> i in was && was[i].e == x)
    && (forall i :: i in was ==> at[i] == if was[i].e == x && i !in chains[x] then Moved(s, was[i]) else was[i])
  }

  lemma FreeStart(nd: seq<Node>, it: seq<Iterator>, s: seq<nat>, chains: map<nat, seq<nat>>, at: map<nat, Iter>, x: nat)
    requires Linked(nd, it, s, chains, at) && x in s
    ensures FreeUntil(s, at, at, chains, x)
  {
    assert ChainLinked(nd, it, x, chains[x]);
    ChainMembers(nd, it, x, chains[x]);
    hide ChainLinked, ListLinked, ChainsLinked;
    forall i | i in chains[x] ensures i in at && at[i].e == x {
    }
  }

  lemma FreeHere(nd: seq<Node>, it: seq<Iterator>, s: seq<nat>, chains: map<nat, seq<nat>>, at: map<nat, Iter>, x: nat, i: nat)
    requires Linked(nd, it, s, chains, at) && x in s && x in chains && i in chains[x]
    ensures i in at && at[i].e == x
  {
    FreeStart(nd, it, s, chains, at, x);
  }

  lemma FreeNext(s: seq<nat>, was: map<nat, Iter>, before: map<nat, Iter>, cs: map<nat, seq<nat>>, at: map<nat, Iter>,
                 chains: map<nat, seq<nat>>, x: nat, i: nat)
    requires FreeUntil(s, was, before, cs, x) && i in cs[x] && i in before && x in chains
    requires at == before[i := Moved(s, before[i])] && LessOne(cs[x], chains[x], i)
    ensures FreeUntil(s, was, at, chains, x)
  {
    hide Moved;
  }

  lemma FreeEnd(s: seq<nat>, was: map<nat, Iter>, at: map<nat, Iter>, chains: map<nat, seq<nat>>, x: nat)
    requires FreeUntil(s, was, at, chains, x) && chains[x] == []
    ensures at == map i | i in was :: if was[i].e == x then Moved(s, was[i]) else was[i]
  {
    hide Moved;
  }
}
