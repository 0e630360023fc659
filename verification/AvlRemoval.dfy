/** Removing a node, on arenas as values: the swap with its predecessor, cutting it out, and the height
    change that is left to the nodes above. */
module AvlRemoval {
  import opened AvlTheory
  import opened Sequences
  import opened AvlRotation
  import opened AvlPaths
  import opened AvlSearch
  import opened AvlSwap

  /** The walk from the left child of `x` along right children. */
  ghost predicate MaxWalk<A>(m: Monoid<A>, h: Heap<A>, root: Link, c: Ctx, x: nat, t: Tree, e: Ctx, l: Link, u: Tree, s: seq<nat>) {
    && t.Node? && t.id == x && At(m, h, root, c, x, t, s) && At(m, h, root, e, l, u, s)
    && RightFrom(e, Frame(false, x, t.right, c))
    && (forall i :: i in InOrder(u) ==> i in InOrder(t.left))
    && (h[u.id].parent == x || h[u.id].parent in InOrder(t.left))
  }

  lemma MaxWalkStart<A>(m: Monoid<A>, h: Heap<A>, root: Link, c: Ctx, x: nat, t: Tree, s: seq<nat>)
    requires At(m, h, root, c, x, t, s) && x < |h| && h[x].child0 != NULL
    ensures 0 <= h[x].child0 < |h| && MaxWalk(m, h, root, c, x, t, Down(c, t, false), h[x].child0, t.left, s)
  {
    AtDown(m, h, root, c, x, t, s, false);
    AtLink(m, h, root, Down(c, t, false), h[x].child0, t.left, s);
  }

  lemma AtLink<A>(m: Monoid<A>, h: Heap<A>, root: Link, c: Ctx, l: Link, t: Tree, s: seq<nat>)
    requires At(m, h, root, c, l, t, s) && c.Frame?
    ensures 0 <= l < |h| && h[l].parent == c.id && l == t.id
  {
  }

  lemma MaxWalkStep<A>(m: Monoid<A>, h: Heap<A>, root: Link, c: Ctx, x: nat, t: Tree, e: Ctx, l: Link, u: Tree, s: seq<nat>)
    requires MaxWalk(m, h, root, c, x, t, e, l, u, s)
    ensures 0 <= l < |h|
    ensures h[l].child1 == NULL <==> u.right == Leaf
    ensures h[l].child1 != NULL ==> 0 <= h[l].child1
    ensures h[l].child1 != NULL ==>
      MaxWalk(m, h, root, c, x, t, Down(e, u, true), h[l].child1, u.right, s) && Size(u.right) < Size(u)
  {
    AtDown(m, h, root, e, l, u, s, true);
    if h[l].child1 != NULL {
      AtLink(m, h, root, Down(e, u, true), h[l].child1, u.right, s);
      forall i | i in InOrder(u.right) ensures i in InOrder(t.left) {
        assert i in InOrder(u);
      }
      assert u.id in InOrder(u);
    }
  }

  lemma AtDistinct<A>(m: Monoid<A>, h: Heap<A>, root: Link, c: Ctx, l: Link, t: Tree, s: seq<nat>)
    requires At(m, h, root, c, l, t, s) && Once(s)
    ensures h[t.id].parent !in InOrder(t) && ValidLink(h, h[t.id].parent)
    ensures forall i :: i in InOrder(t) ==> i in s
    ensures forall i: nat :: InCtx(c, i) ==> i in s && i !in InOrder(t)
    ensures Once(InOrder(t)) && l == t.id && t.id < |h| && t.id in InOrder(t) && t.id in s
  {
    HookedParent(m, h, root, c, l, h[t.id].parent, Height(t), InOrder(t));
    DistinctSplit3(Pre(c), InOrder(t), Post(c));
    assert s == Pre(c) + InOrder(t) + Post(c);
  }

  /** The children of a node of a subtree, and of its descendants, are in the subtree. */
  lemma KidsInside<A>(m: Monoid<A>, h: Heap<A>, l: Link, p: Link, t: Tree)
    requires Rep(m, h, l, p, t) && t.Node?
    ensures t.id in InOrder(t) && l == t.id && t.id < |h|
    ensures h[t.id].child0 != NULL ==> h[t.id].child0 in InOrder(t) && h[t.id].child0 in InOrder(t.left)
    ensures h[t.id].child1 != NULL ==> h[t.id].child1 in InOrder(t) && h[t.id].child1 in InOrder(t.right)
    ensures ValidLink(h, h[t.id].child0) && ValidLink(h, h[t.id].child1)
  {
    RepLinkIn(m, h, h[t.id].child0, t.id, t.left);
    RepLinkIn(m, h, h[t.id].child1, t.id, t.right);
  }

  /** The predecessor found by the walk can be swapped with `x`. */
  lemma SwapReady<A>(m: Monoid<A>, h: Heap<A>, root: Link, c: Ctx, x: nat, t: Tree, e: Ctx, y: nat, u: Tree, s: seq<nat>)
    requires MaxWalk(m, h, root, c, x, t, e, y, u, s) && Once(s) && Local(h, s, root)
    ensures x < |h| && y < |h| && x in s && y in s && x != y && y !in InOrder(t.right)
    ensures if h[y].parent == x then AdjacentApart(h, x, y) else NodesApart(h, x, y)
  {
    AtDistinct(m, h, root, c, x, t, s);
    AtDistinct(m, h, root, e, y, u, s);
    KidsInside(m, h, x, h[x].parent, t);
    KidsInside(m, h, y, h[y].parent, u);
    DistinctSplit3(InOrder(t.left), [x], InOrder(t.right));
    assert x in [x];
    assert forall i :: i in InOrder(t.left) ==> i in InOrder(t);
    LocalUse(h, s, root, x);
    LocalUse(h, s, root, y);
    WalkLinks(h, s, root, x, y);
  }

  lemma WalkLinks<A>(h: Heap<A>, s: seq<nat>, root: Link, x: nat, y: nat)
    requires LocalAt(h, s, x, root, NULL) && LocalAt(h, s, y, root, NULL)
    ensures h[x].parent != NULL ==> 0 <= h[x].parent < |h| && (h[h[x].parent].child0 == x || h[h[x].parent].child1 == x)
    ensures h[y].parent != NULL ==> 0 <= h[y].parent < |h| && (h[h[y].parent].child0 == y || h[h[y].parent].child1 == y)
  {
  }

  // ---------------------------------------------------------------- the node to cut out

  /** `x` has at most the one subtree `ch`, and all but the aggregates above it is right. */
  ghost predicate CutReady<A>(m: Monoid<A>, h: Heap<A>, root: Link, e: Ctx, x: nat, ch: Tree) {
    && x < |h|
    && CtxLinks(m, h, root, e, x, h[x].parent)
    && CtxBal(h, e, 1 + Height(ch))
    && CtxCount(h, e, 1 + |InOrder(ch)|)
    && ValidLink(h, h[x].child0) && ValidLink(h, h[x].child1)
    && (h[x].child0 == NULL || h[x].child1 == NULL)
    && Rep(m, h, OnlyChild(h[x]), x, ch)
    && h[x].count == 1 + |InOrder(ch)|
    && Once(Pre(e) + ([x] + InOrder(ch)) + Post(e))
  }

  function OnlyChild<A>(e: Entry<A>): Link {
    if e.child0 != NULL then e.child0 else e.child1
  }

  /** A node with an empty link needs no swap. */
  lemma CutDirect<A>(m: Monoid<A>, h: Heap<A>, root: Link, c: Ctx, x: nat, t: Tree, s: seq<nat>)
    requires At(m, h, root, c, x, t, s) && Once(s) && x < |h|
    requires h[x].child0 == NULL || h[x].child1 == NULL
    ensures var ch := if h[x].child0 != NULL then t.left else t.right;
      && CutReady(m, h, root, c, x, ch)
      && Pre(c) + InOrder(ch) + Post(c) == s[..|Pre(c)| + |InOrder(t.left)|] + s[|Pre(c)| + |InOrder(t.left)| + 1..]
    ensures |Pre(c)| + |InOrder(t.left)| < |s| && s[|Pre(c)| + |InOrder(t.left)|] == x
  {
    hide Rep, InOrder, Pre, Post, Once, CtxLinks, CtxBal, CtxAug, CtxCount, Height, Sum;
    CutDirectNode(m, h, x, t);
    CtxAugCount(m, h, c, InOrder(t));
    CutDirectSeq(Pre(c), t, Post(c), h[x].child0 != NULL);
  }

  lemma CutDirectNode<A>(m: Monoid<A>, h: Heap<A>, x: nat, t: Tree)
    requires x < |h| && t.Node? && t.id == x && Rep(m, h, x, h[x].parent, t)
    requires h[x].child0 == NULL || h[x].child1 == NULL
    ensures var ch := if h[x].child0 != NULL then t.left else t.right;
      && Rep(m, h, OnlyChild(h[x]), x, ch) && h[x].count == 1 + |InOrder(ch)| && Height(t) == 1 + Height(ch)
      && |InOrder(t)| == 1 + |InOrder(ch)|
    ensures ValidLink(h, h[x].child0) && ValidLink(h, h[x].child1)
    ensures if h[x].child0 != NULL then t.right == Leaf else t.left == Leaf
  {
    RepLinkIn(m, h, h[x].child0, x, t.left);
    RepLinkIn(m, h, h[x].child1, x, t.right);
  }

  lemma CutDirectSeq(a: seq<nat>, t: Tree, b: seq<nat>, left: bool)
    requires t.Node? && (if left then t.right == Leaf else t.left == Leaf) && Once(a + InOrder(t) + b)
    ensures var ch := if left then t.left else t.right; var s := a + InOrder(t) + b; var k := |a| + |InOrder(t.left)|;
      && Once(a + ([t.id] + InOrder(ch)) + b)
      && k < |s| && s[k] == t.id && a + InOrder(ch) + b == s[..k] + s[k + 1..]
  {
    var ch := if left then t.left else t.right;
    CutOut(a, InOrder(t.left), t.id, InOrder(t.right), b);
    assert InOrder(t) == InOrder(t.left) + [t.id] + InOrder(t.right);
    if left {
      assert InOrder(t) == InOrder(ch) + [t.id];
      assert InOrder(t.left) + InOrder(t.right) == InOrder(ch);
      DistinctMove(a, InOrder(ch), t.id, b);
    } else {
      assert InOrder(t) == [t.id] + InOrder(ch);
      assert InOrder(t.left) + InOrder(t.right) == InOrder(ch);
    }
  }

  lemma DistinctMove(a: seq<nat>, b: seq<nat>, x: nat, c: seq<nat>)
    requires Once(a + (b + [x]) + c)
    ensures Once(a + ([x] + b) + c)
  {
    var s, w := a + (b + [x]) + c, a + ([x] + b) + c;
    forall i, j | 0 <= i < j < |w| ensures w[i] != w[j] {
      assert w[i] == s[Moved(i, |a|, |b|)] && w[j] == s[Moved(j, |a|, |b|)];
    }
  }

  function Moved(i: nat, a: nat, b: nat): nat {
    if a < i <= a + b then i - 1 else if i == a then a + b else i
  }

  lemma CutOut(a: seq<nat>, l: seq<nat>, x: nat, r: seq<nat>, b: seq<nat>)
    ensures var s := a + (l + [x] + r) + b; var k := |a| + |l|;
      k < |s| && s[k] == x && s[..k] + s[k + 1..] == a + (l + r) + b
  {
    var s := a + (l + [x] + r) + b;
    assert s == (a + l) + [x] + (r + b);
    assert s[..|a| + |l|] == a + l && s[|a| + |l| + 1..] == r + b;
    assert a + (l + r) + b == (a + l) + (r + b);
  }

  /** What the walk ended at, and where everything stands in the sequence. */
  lemma WalkEnd<A>(m: Monoid<A>, h: Heap<A>, root: Link, c: Ctx, x: nat, t: Tree, e: Ctx, y: nat, u: Tree, s: seq<nat>)
    requires MaxWalk(m, h, root, c, x, t, e, y, u, s) && Once(s) && u.right == Leaf
    ensures var rest := InOrder(t.right) + Post(c);
      && s == Pre(e) + ((InOrder(u.left) + [y]) + [x]) + rest
      && Post(e) == [x] + rest
      && Pre(RenCtx(x, y, e)) == Pre(e) && Post(RenCtx(x, y, e)) == [y] + rest
    ensures NotHanging(e, x) && InCtx(e, x) && !InCtx(e, y) && x !in InOrder(u) && InOrder(u) == InOrder(u.left) + [y]
  {
    hide MaxWalk, Rep, InOrder, Pre, Post, At, RightFrom, RenCtx, InCtx, NotHanging, Once;
    WalkSeq(m, h, root, c, x, t, e, y, u, s);
    RenameRight(e, x, y, t.right, c, InOrder(u));
    RestSeq(Pre(e), InOrder(u.left), y, x, InOrder(t.right), Post(c));
  }

  lemma RestSeq(a: seq<nat>, l: seq<nat>, y: nat, x: nat, r: seq<nat>, b: seq<nat>)
    ensures a + (l + [y]) + ([x] + r + b) == a + ((l + [y]) + [x]) + (r + b)
    ensures [x] + r + b == [x] + (r + b) && [y] + r + b == [y] + (r + b)
  {
  }

  lemma WalkSeq<A>(m: Monoid<A>, h: Heap<A>, root: Link, c: Ctx, x: nat, t: Tree, e: Ctx, y: nat, u: Tree, s: seq<nat>)
    requires MaxWalk(m, h, root, c, x, t, e, y, u, s) && Once(s) && u.right == Leaf
    ensures u.Node? && t.Node? && u.id == y && t.id == x
    ensures s == Pre(e) + InOrder(u) + Post(e) && RightFrom(e, Frame(false, x, t.right, c))
    ensures InOrder(u) == InOrder(u.left) + [y] && x !in InOrder(u) && y in InOrder(u) && !InCtx(e, y)
  {
    AtDistinct(m, h, root, c, x, t, s);
    AtDistinct(m, h, root, e, y, u, s);
    DistinctSplit3(InOrder(t.left), [x], InOrder(t.right));
    assert x in [x];
  }

  /** Where the two sequences of a removal by swap meet. */
  lemma SwapSequence(a: seq<nat>, l: seq<nat>, y: nat, x: nat, r: seq<nat>)
    requires Once(a + ((l + [y]) + [x]) + r)
    ensures Once(a + ([x] + l) + ([y] + r))
    ensures var s := a + ((l + [y]) + [x]) + r; var k := |a| + |l| + 1;
      k < |s| && s[k] == x && s[..k] + s[k + 1..] == a + l + ([y] + r)
  {
    DistinctMove(a, l + [y], x, r);
    assert a + ([x] + (l + [y])) + r == a + ([x] + l) + ([y] + r);
    CutOut(a, l + [y], x, [], r);
    assert (l + [y]) + [x] + [] == (l + [y]) + [x];
    assert a + ((l + [y]) + []) + r == a + l + ([y] + r);
  }

  /** After the swap, `x` is at the end of the path and can be cut out. */
  lemma CutSwapped<A>(m: Monoid<A>, h: Heap<A>, k: Heap<A>, root: Link, c: Ctx, x: nat, t: Tree, e: Ctx, y: nat, u: Tree, s: seq<nat>)
    requires MaxWalk(m, h, root, c, x, t, e, y, u, s) && Once(s) && u.right == Leaf
    requires Swapped(h, k, x, y, s)
    ensures CutReady(m, k, Ren(x, y, root), RenCtx(x, y, e), x, u.left)
    ensures var j := |Pre(e)| + |InOrder(u.left)| + 1;
      && j < |s| && s[j] == x
      && Pre(RenCtx(x, y, e)) + InOrder(u.left) + Post(RenCtx(x, y, e)) == s[..j] + s[j + 1..]
  {
    var p := h[y].parent;
    WalkEnd(m, h, root, c, x, t, e, y, u, s);
    SwapSequence(Pre(e), InOrder(u.left), y, x, InOrder(t.right) + Post(c));
    AtDistinct(m, h, root, e, y, u, s);
    CtxAugCount(m, h, e, InOrder(u));
    SwappedCtx(m, h, k, x, y, s, root, e, y, p, InOrder(u));
    SwappedCtxData(h, k, x, y, s, e, Height(u), |InOrder(u)|);
    CutSwappedNode(m, h, k, x, y, u, s);
  }

  lemma CutSwappedNode<A>(m: Monoid<A>, h: Heap<A>, k: Heap<A>, x: nat, y: nat, u: Tree, s: seq<nat>)
    requires u.Node? && u.id == y && y < |h| && Rep(m, h, y, h[y].parent, u) && u.right == Leaf && Once(InOrder(u))
    requires Swapped(h, k, x, y, s) && x !in InOrder(u) && (forall i :: i in InOrder(u) ==> i in s)
    ensures x < |k| && k[x].parent == Ren(x, y, h[y].parent)
    ensures k[x].child1 == NULL && ValidLink(k, k[x].child0) && OnlyChild(k[x]) == k[x].child0
    ensures Rep(m, k, k[x].child0, x, u.left) && k[x].count == 1 + |InOrder(u.left)|
    ensures Height(u) == 1 + Height(u.left) && |InOrder(u)| == 1 + |InOrder(u.left)|
  {
    assert InOrder(u) == InOrder(u.left) + [y];
    assert y in InOrder(u) && MovedAt(h, k, x, y, y);
    DistinctSplit(InOrder(u.left), [y]);
    assert y in [y];
    RepLinkIn(m, h, h[y].child0, y, u.left);
    SwappedRep(m, h, k, x, y, s, h[y].child0, y, u.left);
  }

  // ---------------------------------------------------------------- cutting out

  /** The parent of `x` points past it, to its only child. */
  ghost predicate CutOff<A>(h: Heap<A>, k: Heap<A>, x: nat)
    requires x < |h|
  {
    var p, n := h[x].parent, OnlyChild(h[x]);
    && |k| == |h| && ValidLink(h, p) && ValidLink(h, n) && (p != NULL ==> p != n)
    && (p != NULL ==> k[p] == h[p].SetChild(x == h[p].child1, n))
    && (n != NULL ==> k[n] == h[n].(parent := p))
    && (forall i :: 0 <= i < |h| && i != p && i != n ==> k[i] == h[i])
  }

  lemma CutParts<A>(m: Monoid<A>, h: Heap<A>, root: Link, e: Ctx, x: nat, ch: Tree)
    requires CutReady(m, h, root, e, x, ch)
    ensures ValidLink(h, h[x].parent) && ValidLink(h, OnlyChild(h[x])) && (h[x].parent == NULL <==> e.Top?)
    ensures h[x].parent != NULL ==> h[x].parent != OnlyChild(h[x]) && h[x].parent != x && h[x].parent !in InOrder(ch)
    ensures OnlyChild(h[x]) != NULL ==> h[OnlyChild(h[x])].count == |InOrder(ch)|
    ensures OnlyChild(h[x]) == NULL ==> ch == Leaf && InOrder(ch) == []
    ensures e.Frame? ==> e.id == h[x].parent && (e.side <==> x == h[e.id].child1)
    ensures Once(InOrder(ch)) && x !in InOrder(ch) && (forall i :: i in InOrder(ch) ==> !InCtx(e, i)) && !InCtx(e, x)
  {
    var w := [x] + InOrder(ch);
    assert x in w;
    DistinctSplit3(Pre(e), w, Post(e));
    DistinctSplit([x], InOrder(ch));
    assert x in [x];
    forall i | i in InOrder(ch) ensures i in w {
    }
    RepLinkIn(m, h, OnlyChild(h[x]), x, ch);
    if e.Frame? {
      CtxParts(e, w);
      HoleSide(m, h, root, e, x, h[x].parent, w);
    }
  }

  lemma CutLinkedCtx<A>(m: Monoid<A>, h: Heap<A>, k: Heap<A>, root: Link, root': Link, e: Ctx, x: nat, ch: Tree)
    requires CutReady(m, h, root, e, x, ch) && CutOff(h, k, x)
    requires root' == if h[x].parent == NULL then OnlyChild(h[x]) else root
    ensures CtxLinks(m, k, root', e, OnlyChild(h[x]), h[x].parent)
  {
    CutParts(m, h, root, e, x, ch);
    if e.Frame? {
      FrameInCtx(e);
    }
    RepLinkIn(m, h, OnlyChild(h[x]), x, ch);
    hide Rep, InOrder, Pre, Post, Once, CtxLinks, CtxBal, CtxCount, InCtx, Sum, Height;
    CtxNewHole(m, h, k, root, root', e, x, OnlyChild(h[x]), h[x].parent, [x] + InOrder(ch));
  }

  lemma CutLinkedData<A>(m: Monoid<A>, h: Heap<A>, k: Heap<A>, root: Link, e: Ctx, x: nat, ch: Tree)
    requires CutReady(m, h, root, e, x, ch) && CutOff(h, k, x)
    ensures CtxBal(k, e, 1 + Height(ch)) && CtxCount(k, e, 1 + |InOrder(ch)|)
    ensures Rep(m, k, OnlyChild(h[x]), h[x].parent, ch)
  {
    CutParts(m, h, root, e, x, ch);
    if e.Frame? {
      FrameInCtx(e);
    }
    RepLinkIn(m, h, OnlyChild(h[x]), x, ch);
    hide Rep, InOrder, Pre, Post, Once, CtxLinks, CtxBal, CtxCount, InCtx, Sum, Height;
    CtxBalSame(h, k, e, 1 + Height(ch));
    CtxCountWrite(h, k, e, 1 + |InOrder(ch)|);
    RepReparent(m, h, k, OnlyChild(h[x]), x, h[x].parent, ch);
  }

  lemma CutLinked<A>(m: Monoid<A>, h: Heap<A>, k: Heap<A>, root: Link, root': Link, e: Ctx, x: nat, ch: Tree)
    requires CutReady(m, h, root, e, x, ch) && CutOff(h, k, x)
    requires root' == if h[x].parent == NULL then OnlyChild(h[x]) else root
    ensures CtxLinks(m, k, root', e, OnlyChild(h[x]), h[x].parent)
    ensures CtxBal(k, e, 1 + Height(ch)) && CtxCount(k, e, 1 + |InOrder(ch)|)
    ensures Rep(m, k, OnlyChild(h[x]), h[x].parent, ch)
    ensures AugLink(m, k, OnlyChild(h[x]), InOrder(ch))
    ensures Once(Pre(e) + InOrder(ch) + Post(e))
  {
    DistinctDrop(Pre(e), x, InOrder(ch), Post(e));
    hide Rep, InOrder, Pre, Post, Once, CtxLinks, CtxBal, CtxCount, InCtx, Sum, Height, CutOff, CutReady;
    CutLinkedCtx(m, h, k, root, root', e, x, ch);
    CutLinkedData(m, h, k, root, e, x, ch);
    RepAug(m, k, OnlyChild(h[x]), h[x].parent, ch);
  }

  lemma DistinctDrop(a: seq<nat>, x: nat, b: seq<nat>, c: seq<nat>)
    requires Once(a + ([x] + b) + c)
    ensures Once(a + b + c)
  {
    var s, w := a + ([x] + b) + c, a + b + c;
    forall i, j | 0 <= i < j < |w| ensures w[i] != w[j] {
      assert w[i] == s[if i < |a| then i else i + 1] && w[j] == s[if j < |a| then j else j + 1];
    }
  }

  /** With the ancestors brought up to date, the loss of one level is pending. */
  lemma CutPending<A(!new)>(m: Monoid<A>, k: Heap<A>, w: Heap<A>, root: Link, e: Ctx, n: Link, p: Link, ch: Tree)
    requires e.Frame? && CtxLinks(m, k, root, e, n, p) && CtxBal(k, e, 1 + Height(ch)) && Rep(m, k, n, p, ch)
    requires PathAugOnly(k, w, e) && CtxAug(m, w, e, InOrder(ch)) && CtxLinks(m, w, root, e, n, p)
    requires Once(Pre(e) + InOrder(ch) + Post(e))
    ensures Pending(m, w, root, e.id, e.side, -1, e.up, e.sib, ch)
    ensures Pre(e) + InOrder(ch) + Post(e) == Pre(e.up) + Around(e.side, InOrder(ch), e.id, e.sib) + Post(e.up)
  {
    hide PathAugOnly, Once, AugLink, InOrder, Pre, Post, InCtx, OnPath, CtxLinks, CtxBal, CtxAug, Rep, Pending, Height;
    CutKept(m, k, w, e, n, p, ch);
    PathAugOnlyBal(k, w, e, e, 1 + Height(ch));
    AroundWhole(e, InOrder(ch));
    HolePending(m, w, root, e, n, p, ch, 1 + Height(ch));
  }

  lemma CutKept<A(!new)>(m: Monoid<A>, k: Heap<A>, w: Heap<A>, e: Ctx, n: Link, p: Link, ch: Tree)
    requires Rep(m, k, n, p, ch) && PathAugOnly(k, w, e) && Once(Pre(e) + InOrder(ch) + Post(e))
    ensures Rep(m, w, n, p, ch)
  {
    DistinctSplit3(Pre(e), InOrder(ch), Post(e));
    PathAugOnlyRep(m, k, w, e, n, p, ch);
  }

  lemma CutTop<A(!new)>(m: Monoid<A>, k: Heap<A>, w: Heap<A>, root: Link, e: Ctx, n: Link, p: Link, ch: Tree)
    requires e.Top? && CtxLinks(m, k, root, e, n, p) && Rep(m, k, n, p, ch) && PathAugOnly(k, w, e)
    requires Once(Pre(e) + InOrder(ch) + Post(e))
    ensures Rep(m, w, root, NULL, ch) && Pre(e) + InOrder(ch) + Post(e) == InOrder(ch)
  {
    CutKept(m, k, w, e, n, p, ch);
  }

  lemma CutReach<A>(m: Monoid<A>, h: Heap<A>, k: Heap<A>, root: Link, e: Ctx, x: nat, ch: Tree, s: seq<nat>)
    requires CutReady(m, h, root, e, x, ch) && CutOff(h, k, x) && s == Pre(e) + ([x] + InOrder(ch)) + Post(e)
    ensures KeepsRest(h, k, s) && forall i: nat :: InCtx(e, i) ==> i in s
    ensures forall i :: i in Pre(e) + InOrder(ch) + Post(e) ==> i in s
  {
    RepLinkIn(m, h, OnlyChild(h[x]), x, ch);
    if e.Frame? {
      FrameInCtx(e);
    }
  }

  /** `x` was taken out of the sequence, at place `k`. */
  ghost predicate RemovedAt(s: seq<nat>, s': seq<nat>, k: int, x: nat) {
    0 <= k < |s| && s[k] == x && s' == s[..k] + s[k + 1..]
  }

  lemma RemovedDistinct(s: seq<nat>, s': seq<nat>, k: int, x: nat)
    requires RemovedAt(s, s', k, x) && Once(s)
    ensures Once(s') && |s'| == |s| - 1
  {
    forall i, j | 0 <= i < j < |s'| ensures s'[i] != s'[j] {
      assert s'[i] == s[if i < k then i else i + 1] && s'[j] == s[if j < k then j else j + 1];
    }
  }

  /** The sequence around the node to cut out is a rearrangement inside `s`. */
  lemma CutInside<A>(m: Monoid<A>, h: Heap<A>, root: Link, e: Ctx, x: nat, ch: Tree, s: seq<nat>, k: int)
    requires CutReady(m, h, root, e, x, ch) && RemovedAt(s, Pre(e) + InOrder(ch) + Post(e), k, x)
    ensures forall i :: i in Pre(e) + ([x] + InOrder(ch)) + Post(e) ==> i in s
  {
    var w := Pre(e) + InOrder(ch) + Post(e);
    forall i | i in Pre(e) + ([x] + InOrder(ch)) + Post(e) ensures i in s {
      if i != x {
        assert i in w;
      }
    }
  }

  /** The root follows the renaming of a swap. */
  lemma SwapRoot<A>(m: Monoid<A>, h: Heap<A>, root: Link, c: Ctx, x: nat, t: Tree, e: Ctx, y: nat, u: Tree, s: seq<nat>)
    requires MaxWalk(m, h, root, c, x, t, e, y, u, s) && Once(s) && Local(h, s, root)
    ensures x < |h| && Ren(x, y, root) == if h[x].parent == NULL then y else root
  {
    AtDistinct(m, h, root, c, x, t, s);
    AtDistinct(m, h, root, e, y, u, s);
    LocalUse(h, s, root, x);
    LocalUse(h, s, root, y);
    assert e.Frame?;
    AtLink(m, h, root, e, y, u, s);
  }

  lemma WalkUse<A>(m: Monoid<A>, h: Heap<A>, root: Link, c: Ctx, x: nat, t: Tree, e: Ctx, l: Link, u: Tree, s: seq<nat>)
    requires MaxWalk(m, h, root, c, x, t, e, l, u, s)
    ensures u.Node? && 0 <= l < |h| && l == u.id && u.id < |h|
  {
  }

  lemma RemovedIntro(s: seq<nat>, s': seq<nat>, k: nat, x: nat)
    requires k < |s| && s[k] == x && s' == s[..k] + s[k + 1..]
    ensures RemovedAt(s, s', k, x)
  {
  }

  lemma CutKeeps<A>(h: Heap<A>, h1: Heap<A>, h2: Heap<A>, s: seq<nat>, s': seq<nat>, w: seq<nat>, k: int, x: nat)
    requires KeepsRest(h, h1, w) && KeepsRest(h1, h2, s') && RemovedAt(s, s', k, x) && forall i :: i in w ==> i in s
    ensures KeepsRest(h, h2, s)
  {
  }

  lemma LocateTop<A>(m: Monoid<A>, h: Heap<A>, root: Link, t: Tree, x: nat) returns (c: Ctx, u: Tree)
    requires Rep(m, h, root, NULL, t) && x in InOrder(t)
    ensures At(m, h, root, c, x, u, InOrder(t))
  {
    c, u := Locate(m, h, root, Top, root, NULL, t, x);
    assert [] + InOrder(t) + [] == InOrder(t);
  }

  lemma AtLinks<A>(m: Monoid<A>, h: Heap<A>, root: Link, c: Ctx, l: Link, t: Tree, s: seq<nat>)
    requires At(m, h, root, c, l, t, s)
    ensures t.Node? && l == t.id && t.id < |h| && ValidLink(h, h[t.id].child0) && ValidLink(h, h[t.id].child1)
  {
    RepLinkIn(m, h, h[t.id].child0, t.id, t.left);
    RepLinkIn(m, h, h[t.id].child1, t.id, t.right);
  }
}
