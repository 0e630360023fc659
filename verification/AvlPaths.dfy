/** Walks along the path from a node to the root, on arenas as values: counts and aggregates are brought
    up to date one node at a time. */
module AvlPaths {
  import opened AvlTheory
  import opened Sequences
  import opened AvlRotation

  /** The path left, and the in-order sequence below it, after climbing `n` nodes. */
  function UpN(c: Ctx, n: nat): Ctx {
    if n == 0 || c.Top? then c else UpN(c.up, n - 1)
  }

  function SeqN(c: Ctx, s: seq<nat>, n: nat): seq<nat> {
    if n == 0 || c.Top? then s else SeqN(c.up, Around(c.side, s, c.id, c.sib), n - 1)
  }

  function Depth(c: Ctx): nat {
    if c.Top? then 0 else 1 + Depth(c.up)
  }

  /** The nodes on the path itself, without the subtrees hanging off it. */
  predicate OnPath(c: Ctx, i: nat) {
    c.Frame? && (c.id == i || OnPath(c.up, i))
  }

  /** The first `n` nodes above the hole have the counts and aggregates of a hole with sequence `s`. */
  ghost predicate AugN<A>(m: Monoid<A>, h: Heap<A>, c: Ctx, s: seq<nat>, n: nat)
    decreases c
  {
    n == 0 || c.Top? || (
      && c.id < |h| && NodeAug(m, h[c.id], Around(c.side, s, c.id, c.sib))
      && AugN(m, h, c.up, Around(c.side, s, c.id, c.sib), n - 1)
    )
  }

  /** The counts of the path above a hole of `n` nodes. */
  ghost predicate CtxCount<A>(h: Heap<A>, c: Ctx, n: int)
    decreases c
  {
    c.Top? || (
      && c.id < |h| && h[c.id].count == n + 1 + |InOrder(c.sib)|
      && CtxCount(h, c.up, n + 1 + |InOrder(c.sib)|)
    )
  }

  lemma {:induction false} CtxAugCount<A>(m: Monoid<A>, h: Heap<A>, c: Ctx, s: seq<nat>)
    requires CtxAug(m, h, c, s)
    ensures CtxCount(h, c, |s|)
    decreases c
  {
    if c.Frame? {
      CtxAugCount(m, h, c.up, Around(c.side, s, c.id, c.sib));
    }
  }

  /** `k` differs from `h` at most in the counts and aggregates of the nodes on the path. */
  ghost predicate PathAugOnly<A>(h: Heap<A>, k: Heap<A>, c: Ctx) {
    && |h| == |k|
    && (forall i :: 0 <= i < |h| ==> k[i] == h[i].(count := k[i].count, assoc := k[i].assoc))
    && (forall i :: 0 <= i < |h| && !OnPath(c, i) ==> k[i] == h[i])
  }

  lemma {:induction false} OnPathInCtx(c: Ctx, i: nat)
    requires OnPath(c, i)
    ensures InCtx(c, i)
    decreases c
  {
    FrameInCtx(c);
    if c.id != i {
      OnPathInCtx(c.up, i);
    }
  }

  lemma {:induction false} PathAugOnlyCtx<A>(m: Monoid<A>, h: Heap<A>, k: Heap<A>, root: Link, c: Ctx, d: Ctx, l: Link, p: Link, s: seq<nat>)
    requires CtxLinks(m, h, root, d, l, p) && Once(Pre(d) + s + Post(d))
    requires PathAugOnly(h, k, c) && (forall i: nat :: InCtx(d, i) && OnPath(c, i) ==> OnPath(d, i))
    ensures CtxLinks(m, k, root, d, l, p)
    decreases d
  {
    if d.Frame? {
      CtxParts(d, s);
      forall i | i in InOrder(d.sib) && i < |h| ensures h[i] == k[i] {
        if OnPath(c, i) {
          FrameInCtx(d);
          assert OnPath(d, i) && OnPath(d.up, i);
          OnPathInCtx(d.up, i);
        }
      }
      RepSame(m, h, k, h[d.id].Child(!d.side), d.id, d.sib);
      assert k[d.id] == h[d.id].(count := k[d.id].count, assoc := k[d.id].assoc);
      forall i: nat | InCtx(d.up, i) && OnPath(c, i) ensures OnPath(d.up, i) {
        FrameInCtx(d);
      }
      PathAugOnlyCtx(m, h, k, root, c, d.up, d.id, h[d.id].parent, Around(d.side, s, d.id, d.sib));
    }
  }

  lemma PathAugOnlyBal<A>(h: Heap<A>, k: Heap<A>, c: Ctx, d: Ctx, b: int)
    requires CtxBal(h, d, b) && PathAugOnly(h, k, c)
    ensures CtxBal(k, d, b)
  {
    forall i: nat | InCtx(d, i) && i < |h| ensures h[i].balance == k[i].balance {
      assert k[i] == h[i].(count := k[i].count, assoc := k[i].assoc);
    }
    CtxBalSame(h, k, d, b);
  }

  /** Subtrees without nodes of the path are not affected. */
  lemma PathAugOnlyRep<A>(m: Monoid<A>, h: Heap<A>, k: Heap<A>, c: Ctx, l: Link, p: Link, t: Tree)
    requires Rep(m, h, l, p, t) && PathAugOnly(h, k, c) && (forall i :: i in InOrder(t) ==> !InCtx(c, i))
    ensures Rep(m, k, l, p, t)
  {
    forall i | i in InOrder(t) && i < |h| ensures h[i] == k[i] {
      if OnPath(c, i) {
        OnPathInCtx(c, i);
      }
    }
    RepSame(m, h, k, l, p, t);
  }

  /** Climbing one node further. */
  lemma {:induction false} UpNStep(c: Ctx, s: seq<nat>, n: nat)
    requires UpN(c, n).Frame? && Once(Pre(c) + s + Post(c))
    ensures var u := UpN(c, n);
      && UpN(c, n + 1) == u.up && SeqN(c, s, n + 1) == Around(u.side, SeqN(c, s, n), u.id, u.sib)
      && Once(Pre(u) + SeqN(c, s, n) + Post(u))
      && OnPath(c, u.id) && InCtx(c, u.id)
      && (forall i: nat :: OnPath(u.up, i) ==> OnPath(c, i))
    ensures Depth(UpN(c, n)) == Depth(c) - n
    decreases n
  {
    assert c.Frame?;
    FrameInCtx(c);
    if n > 0 {
      CtxParts(c, s);
      UpNStep(c.up, Around(c.side, s, c.id, c.sib), n - 1);
    }
  }

  /** One more node has been brought up to date; those below it stay so. */
  lemma {:induction false} AugNStep<A>(m: Monoid<A>, h: Heap<A>, k: Heap<A>, c: Ctx, s: seq<nat>, n: nat)
    requires AugN(m, h, c, s, n) && UpN(c, n).Frame? && Once(Pre(c) + s + Post(c))
    requires var u := UpN(c, n);
      && u.id < |h| == |k| && (forall i :: 0 <= i < |h| && i != u.id ==> k[i] == h[i])
      && NodeAug(m, k[u.id], Around(u.side, SeqN(c, s, n), u.id, u.sib))
    ensures AugN(m, k, c, s, n + 1)
    decreases n
  {
    if n > 0 {
      CtxParts(c, s);
      UpNStep(c.up, Around(c.side, s, c.id, c.sib), n - 1);
      AugNStep(m, h, k, c.up, Around(c.side, s, c.id, c.sib), n - 1);
    }
  }

  lemma {:induction false} AugNAll<A>(m: Monoid<A>, h: Heap<A>, c: Ctx, s: seq<nat>, n: nat)
    requires AugN(m, h, c, s, n) && UpN(c, n).Top?
    ensures CtxAug(m, h, c, s)
    decreases n
  {
    if c.Frame? {
      AugNAll(m, h, c.up, Around(c.side, s, c.id, c.sib), n - 1);
    }
  }

  lemma {:induction false} CtxCountSame<A>(h: Heap<A>, k: Heap<A>, c: Ctx, n: int)
    requires CtxCount(h, c, n) && SameCtx(h, k, c)
    ensures CtxCount(k, c, n)
    decreases c
  {
    if c.Frame? {
      FrameInCtx(c);
      CtxCountSame(h, k, c.up, n + 1 + |InOrder(c.sib)|);
    }
  }

  /** The invariant of the loops that bring the ancestors up to date, after `n` of them. */
  ghost predicate Climbing<A>(m: Monoid<A>, h: Heap<A>, root: Link, c: Ctx, s: seq<nat>, n: nat, l: Link, p: Link, d: int) {
    var u := UpN(c, n);
    && CtxLinks(m, h, root, u, l, p)
    && AugLink(m, h, l, SeqN(c, s, n))
    && CtxCount(h, u, |SeqN(c, s, n)| - d)
    && AugN(m, h, c, s, n)
    && Once(Pre(c) + s + Post(c))
  }

  /** The invariant, opened at the node to be brought up to date. */
  lemma ClimbingOpen<A(!new)>(m: Monoid<A>, h: Heap<A>, root: Link, c: Ctx, s: seq<nat>, n: nat, l: Link, p: nat, d: int)
    requires Climbing(m, h, root, c, s, n, l, p, d)
    ensures var u := UpN(c, n); var w := SeqN(c, s, n);
      && u.Frame? && u.id == p && p < |h| && h[p].Child(u.side) == l && AugLink(m, h, l, w)
      && AugLink(m, h, h[p].Child(!u.side), InOrder(u.sib))
      && CtxLinks(m, h, root, u.up, p, h[p].parent)
      && h[p].count == |w| - d + 1 + |InOrder(u.sib)| && CtxCount(h, u.up, |w| - d + 1 + |InOrder(u.sib)|)
      && AugN(m, h, c, s, n) && Once(Pre(c) + s + Post(c))
  {
    hide UpN, SeqN, AugN, Once, Pre, Post;
    var u := UpN(c, n);
    assert u.Frame?;
    RepAug(m, h, h[p].Child(!u.side), p, u.sib);
  }

  /** One round of those loops. */
  lemma ClimbingStep<A(!new)>(m: Monoid<A>, h: Heap<A>, k: Heap<A>, root: Link, c: Ctx, s: seq<nat>, n: nat, l: Link, p: nat, d: int)
    requires Lawful(m) && Climbing(m, h, root, c, s, n, l, p, d)
    requires p < |h| && ValidLink(h, h[p].child0) && ValidLink(h, h[p].child1)
    requires k == h[p := h[p].(count := h[p].count + d, assoc := NodeAssoc(m, h, p))]
    ensures UpN(c, n).Frame? && UpN(c, n).id == p && OnPath(c, p)
    ensures Climbing(m, k, root, c, s, n + 1, p, k[p].parent, d)
    ensures Depth(UpN(c, n + 1)) < Depth(UpN(c, n))
  {
    var u := UpN(c, n);
    var w := SeqN(c, s, n);
    hide Pre, Post, InOrder, Once, Sum, Rep, AugN, SeqN, UpN, CtxLinks, CtxCount, NodeAssoc, OnPath, Lawful, Around, Climbing;
    ClimbingOpen(m, h, root, c, s, n, l, p, d);
    UpNStep(c, s, n);
    CtxParts(u, w);
    NodeAugFromChildren(m, h, p, u.side, w, u.sib);
    AroundLength(u.side, w, u.id, u.sib);
    AugNStep(m, h, k, c, s, n);
    CtxSame(m, h, k, root, u.up, p, h[p].parent);
    CtxCountSame(h, k, u.up, |w| - d + 1 + |InOrder(u.sib)|);
    ClimbingClose(m, k, root, c, s, n + 1, p, k[p].parent, d);
  }

  lemma ClimbingClose<A(!new)>(m: Monoid<A>, h: Heap<A>, root: Link, c: Ctx, s: seq<nat>, n: nat, l: Link, p: Link, d: int)
    requires var u := UpN(c, n);
      && CtxLinks(m, h, root, u, l, p) && AugLink(m, h, l, SeqN(c, s, n))
      && CtxCount(h, u, |SeqN(c, s, n)| - d) && AugN(m, h, c, s, n) && Once(Pre(c) + s + Post(c))
    ensures Climbing(m, h, root, c, s, n, l, p, d)
  {
    hide CtxLinks, CtxCount, AugN, SeqN, UpN, Pre, Post, Once;
  }

  /** The links read by a round are links of the arena. */
  lemma ClimbingLinks<A(!new)>(m: Monoid<A>, h: Heap<A>, root: Link, c: Ctx, s: seq<nat>, n: nat, l: Link, p: Link, d: int)
    requires Climbing(m, h, root, c, s, n, l, p, d)
    ensures p == NULL <==> UpN(c, n).Top?
    ensures p != NULL ==> 0 <= p < |h| && ValidLink(h, h[p].child0) && ValidLink(h, h[p].child1)
  {
    var u := UpN(c, n);
    if u.Frame? {
      RepLinkIn(m, h, h[u.id].Child(!u.side), u.id, u.sib);
    }
  }

  lemma {:induction false} SeqNSize(c: Ctx, s: seq<nat>, n: nat)
    ensures |s| <= |SeqN(c, s, n)| <= |Pre(c) + s + Post(c)|
    decreases n
  {
    if n > 0 && c.Frame? {
      AroundWhole(c, s);
      SeqNSize(c.up, Around(c.side, s, c.id, c.sib), n - 1);
    }
  }

  /** The counts of a round: nothing is taken that is not there, and no count gets greater than that of
      the whole tree. */
  lemma ClimbingBounds<A(!new)>(m: Monoid<A>, h: Heap<A>, root: Link, c: Ctx, s: seq<nat>, n: nat, l: Link, p: nat, d: int)
    requires Climbing(m, h, root, c, s, n, l, p, d)
    ensures p < |h| && |s| - d < h[p].count && h[p].count + d <= |Pre(c) + s + Post(c)|
  {
    hide Climbing, SeqN, UpN, Pre, Post, InOrder, Rep, CtxLinks, CtxCount, AugN, Once;
    ClimbingOpen(m, h, root, c, s, n, l, p, d);
    UpNStep(c, s, n);
    SeqNSize(c, s, n);
    SeqNSize(c, s, n + 1);
  }

  lemma ClimbingStart<A(!new)>(m: Monoid<A>, h: Heap<A>, root: Link, c: Ctx, s: seq<nat>, l: Link, p: Link, d: int)
    requires CtxLinks(m, h, root, c, l, p) && AugLink(m, h, l, s)
    requires CtxCount(h, c, |s| - d) && Once(Pre(c) + s + Post(c))
    ensures Climbing(m, h, root, c, s, 0, l, p, d)
  {
    hide Pre, Post, InOrder, Once, Sum, Rep, CtxLinks, CtxCount;
  }

  lemma ClimbingEnd<A(!new)>(m: Monoid<A>, h: Heap<A>, k: Heap<A>, root: Link, c: Ctx, s: seq<nat>, n: nat,
                             l0: Link, p0: Link, l: Link, d: int)
    requires CtxLinks(m, h, root, c, l0, p0) && Once(Pre(c) + s + Post(c))
    requires PathAugOnly(h, k, c) && Climbing(m, k, root, c, s, n, l, NULL, d)
    ensures CtxAug(m, k, c, s) && CtxLinks(m, k, root, c, l0, p0)
  {
    ClimbingLinks(m, k, root, c, s, n, l, NULL, d);
    AugNAll(m, k, c, s, n);
    PathAugOnlyCtx(m, h, k, root, c, c, l0, p0, s);
  }

  /** Counts and aggregates recomputed in either order. */
  lemma NodeAssocCount<A(!new)>(m: Monoid<A>, h: Heap<A>, i: nat, j: nat, n: int)
    requires i < |h| && j < |h| && ValidLink(h, h[i].child0) && ValidLink(h, h[i].child1)
    ensures var k := h[j := h[j].(count := n)];
      ValidLink(k, k[i].child0) && ValidLink(k, k[i].child1) && NodeAssoc(m, k, i) == NodeAssoc(m, h, i)
  {
  }

  // ---------------------------------------------------------------- attaching a leaf

  /** The entry a freshly attached node gets. */
  function LeafEntry<A>(m: Monoid<A>, p: Link, i: nat): Entry<A> {
    Entry(NULL, NULL, p, 0, 1, m.value(i))
  }

  /** A hole with nothing in it, and the sequence with a new node put there. */
  lemma EmptyHole<A(!new)>(m: Monoid<A>, h: Heap<A>, root: Link, d: Ctx, l: Link, p: Link, node: nat, s: seq<nat>)
    requires d.Frame? && CtxRep(m, h, root, d, l, p, Leaf) && Rep(m, h, l, p, Leaf)
    requires Pre(d) + InOrder(Leaf) + Post(d) == s && Once(s) && node !in s
    ensures p == d.id && l == NULL && d.id < |h| && d.id != node
    ensures Once(Pre(d) + [node] + Post(d)) && |Pre(d) + [node] + Post(d)| == |s| + 1
    ensures InOrder(Node(Leaf, node, Leaf)) == [node]
  {
    assert InOrder(Leaf) == [];
    assert s == Pre(d) + Post(d);
    DistinctInsert(Pre(d), node, Post(d));
    FrameInCtx(d);
  }

  lemma DistinctInsert(a: seq<nat>, x: nat, b: seq<nat>)
    requires Once(a + b) && x !in a + b
    ensures Once(a + [x] + b)
  {
    var s := a + [x] + b;
    forall i, j | 0 <= i < j < |s| ensures s[i] != s[j] {
      var i', j' := if i < |a| then i else i - 1, if j < |a| then j else j - 1;
      assert i != |a| ==> s[i] == (a + b)[i'];
      assert j != |a| ==> s[j] == (a + b)[j'];
    }
  }

  /** Writing a new node into an empty link leaves the path above right, but for counts and aggregates. */
  lemma Attached<A(!new)>(m: Monoid<A>, h: Heap<A>, k: Heap<A>, root: Link, d: Ctx, node: nat)
    requires Lawful(m) && d.Frame? && CtxRep(m, h, root, d, NULL, d.id, Leaf)
    requires node < |h| && Once(Pre(d) + [node] + Post(d))
    requires k == h[d.id := h[d.id].SetChild(d.side, node)][node := LeafEntry(m, d.id, node)]
    ensures CtxLinks(m, k, root, d, node, d.id) && AugLink(m, k, node, [node])
    ensures CtxCount(k, d, 0) && CtxBal(k, d, 0)
    ensures Rep(m, k, node, d.id, Node(Leaf, node, Leaf))
    ensures KeepsRest(h, k, Pre(d) + [node] + Post(d))
  {
    DistinctSplit3(Pre(d), [node], Post(d));
    assert node in [node];
    FrameInCtx(d);
    CtxNewHole(m, h, k, root, root, d, NULL, node, d.id, [node]);
    CtxAugCount(m, h, d, []);
    CtxCountWrite(h, k, d, 0);
    CtxBalSame(h, k, d, 0);
    SumSingle(m, node);
    LeafTree(node);
  }

  lemma {:induction false} CtxCountWrite<A>(h: Heap<A>, k: Heap<A>, c: Ctx, n: int)
    requires CtxCount(h, c, n) && |h| == |k| && forall i: nat :: InCtx(c, i) && i < |h| ==> h[i].count == k[i].count
    ensures CtxCount(k, c, n)
    decreases c
  {
    if c.Frame? {
      FrameInCtx(c);
      CtxCountWrite(h, k, c.up, n + 1 + |InOrder(c.sib)|);
    }
  }

  /** With the ancestors brought up to date, all that is left is to rebalance. */
  lemma AttachedPending<A(!new)>(m: Monoid<A>, k: Heap<A>, w: Heap<A>, root: Link, d: Ctx, node: nat)
    requires d.Frame? && node < |k| && Once(Pre(d) + [node] + Post(d))
    requires CtxLinks(m, k, root, d, node, d.id) && CtxBal(k, d, 0) && Rep(m, k, node, d.id, Node(Leaf, node, Leaf))
    requires PathAugOnly(k, w, d) && CtxAug(m, w, d, [node]) && CtxLinks(m, w, root, d, node, d.id)
    ensures Pending(m, w, root, d.id, d.side, 1, d.up, d.sib, Node(Leaf, node, Leaf))
    ensures KeepsRest(k, w, Pre(d) + [node] + Post(d))
    ensures Pre(d) + [node] + Post(d) == Pre(d.up) + Around(d.side, [node], d.id, d.sib) + Post(d.up)
  {
    var t := Node(Leaf, node, Leaf);
    LeafTree(node);
    hide Pre, Post, InOrder, Once, Height, Sum, Pending, CtxBal, CtxAug, CtxLinks, Rep, PathAugOnly;
    DistinctSplit3(Pre(d), [node], Post(d));
    assert forall i :: i in InOrder(t) ==> i == node;
    AroundWhole(d, [node]);
    assert node in [node];
    PathAugOnlyRep(m, k, w, d, node, d.id, t);
    PathAugOnlyBal(k, w, d, d, 0);
    HolePending(m, w, root, d, node, d.id, t, 0);
    PathReach(k, w, d, Pre(d) + [node] + Post(d));
  }

  /** Bringing the ancestors up to date writes only nodes on the path. */
  lemma PathReach<A>(k: Heap<A>, w: Heap<A>, e: Ctx, s: seq<nat>)
    requires PathAugOnly(k, w, e) && forall i: nat :: InCtx(e, i) ==> i in s
    ensures KeepsRest(k, w, s)
  {
    forall i | 0 <= i < |k| && i !in s ensures w[i] == k[i] {
      if OnPath(e, i) {
        OnPathInCtx(e, i);
      }
    }
  }
}
