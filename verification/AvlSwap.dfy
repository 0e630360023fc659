/** Swapping two nodes of the tree, links and all, when they are neighbours and when they are apart:
    every other subtree stays what it was. */
module AvlSwap {
  import opened AvlTheory
  import opened Sequences
  import opened AvlRotation
  import opened AvlPaths

  /** The renaming that exchanges `x` and `y`. */
  function Ren(x: nat, y: nat, l: Link): Link {
    if l == x then y else if l == y then x else l
  }

  function RenEntry<A>(x: nat, y: nat, e: Entry<A>): Entry<A> {
    Entry(Ren(x, y, e.child0), Ren(x, y, e.child1), Ren(x, y, e.parent), e.balance, e.count, e.assoc)
  }

  /** A node, its parent and its children agree on each other. */
  ghost predicate LocalAt<A>(h: Heap<A>, s: seq<nat>, i: nat, l: Link, p: Link) {
    && i < |h|
    && (h[i].child0 == NULL || (h[i].child0 in s && h[i].child0 < |h| && h[h[i].child0].parent == i))
    && (h[i].child1 == NULL || (h[i].child1 in s && h[i].child1 < |h| && h[h[i].child1].parent == i))
    && (h[i].child0 != NULL ==> h[i].child0 != h[i].child1)
    && h[i].child0 != i && h[i].child1 != i
    && if i == l then h[i].parent == p
       else h[i].parent in s && h[i].parent < |h| && (h[h[i].parent].child0 == i || h[h[i].parent].child1 == i)
  }

  ghost predicate LocalTo<A>(h: Heap<A>, s: seq<nat>, t: seq<nat>, l: Link, p: Link) {
    forall i :: i in t ==> LocalAt(h, s, i, l, p)
  }

  ghost predicate Local<A>(h: Heap<A>, s: seq<nat>, root: Link) {
    LocalTo(h, s, s, root, NULL)
  }

  lemma LocalUse<A>(h: Heap<A>, s: seq<nat>, root: Link, i: nat)
    requires Local(h, s, root) && i in s
    ensures LocalAt(h, s, i, root, NULL)
  {
  }

  /** Who refers to a node: its parent and its children, nobody else. */
  lemma Referrers<A>(h: Heap<A>, s: seq<nat>, root: Link, i: nat, x: nat)
    requires LocalAt(h, s, i, root, NULL) && LocalAt(h, s, x, root, NULL)
    ensures h[i].child0 == x || h[i].child1 == x ==> i == h[x].parent
    ensures i == h[x].parent ==> (h[i].child0 == x) != (h[i].child1 == x)
    ensures h[i].parent == x <==> i == h[x].child0 || i == h[x].child1
  {
  }

  /** A right tree is locally right everywhere. */
  lemma {:induction false} RepLocal<A>(m: Monoid<A>, h: Heap<A>, l: Link, p: Link, t: Tree)
    requires Rep(m, h, l, p, t) && Once(InOrder(t))
    ensures LocalTo(h, InOrder(t), InOrder(t), l, p)
    decreases t
  {
    if t.Node? {
      var s := InOrder(t);
      DistinctSplit3(InOrder(t.left), [t.id], InOrder(t.right));
      assert t.id in [t.id] && t.id in s;
      RepLocal(m, h, h[l].child0, l, t.left);
      RepLocal(m, h, h[l].child1, l, t.right);
      RepLinkIn(m, h, h[l].child0, l, t.left);
      RepLinkIn(m, h, h[l].child1, l, t.right);
      forall i | i in s ensures LocalAt(h, s, i, l, p) {
        if i in InOrder(t.left) {
          assert LocalAt(h, InOrder(t.left), i, h[l].child0, l);
        } else if i in InOrder(t.right) {
          assert LocalAt(h, InOrder(t.right), i, h[l].child1, l);
        }
      }
    }
  }

  /** The links of `x` and `y` are exchanged, everywhere in `s`; other fields stay where they are. */
  ghost predicate SwappedLinks<A>(h: Heap<A>, k: Heap<A>, x: nat, y: nat, s: seq<nat>) {
    |k| == |h| && forall i :: i in s ==> SwappedAt(h, k, x, y, i)
  }

  ghost predicate SwappedAt<A>(h: Heap<A>, k: Heap<A>, x: nat, y: nat, i: nat) {
    && i < |h| == |k| && 0 <= Ren(x, y, i) < |h|
    && var j := Ren(x, y, i);
      k[j] == RenEntry(x, y, h[i]).(balance := h[j].balance, count := h[j].count, assoc := h[j].assoc)
  }

  // ---------------------------------------------------------------- the writes

  /** `n` takes the child behind `l` at `side`. */
  ghost predicate Took<A>(h: Heap<A>, k: Heap<A>, n: nat, side: bool, l: Link) {
    && |k| == |h| && n < |h| && ValidLink(h, l) && l != n
    && k[n] == h[n].SetChild(side, l)
    && (l != NULL ==> k[l] == h[l].(parent := n))
    && (forall i :: 0 <= i < |h| && i != n && i != l ==> k[i] == h[i])
  }

  /** `p`, if there is one, has `to` for a child instead of `from`. */
  ghost predicate Linked<A>(h: Heap<A>, k: Heap<A>, p: Link, from: nat, to: nat) {
    && |k| == |h| && ValidLink(h, p) && (p != NULL ==> k[p] == h[p].SetChild(from == h[p].child1, to))
    && (forall i :: 0 <= i < |h| && i != p ==> k[i] == h[i])
  }

  // ---------------------------------------------------------------- directly connected nodes

  /** The nodes around `x` and its child `y` are all different. */
  ghost predicate AdjacentApart<A>(h: Heap<A>, x: nat, y: nat) {
    && x < |h| && y < |h| && x != y && h[y].parent == x && (h[x].child0 == y || h[x].child1 == y)
    && var np, side := h[x].parent, y == h[x].child1;
      && var c, el, er := h[x].Child(!side), h[y].child0, h[y].child1;
        && ValidLink(h, np) && ValidLink(h, c) && ValidLink(h, el) && ValidLink(h, er)
        && c != x && c != y && el != x && el != y && er != x && er != y && np != x && np != y
        && (el != NULL ==> el != er && el != c && el != np)
        && (er != NULL ==> er != c && er != np)
        && (c != NULL ==> c != np)
  }

  /** The arena once `x` has the children of `y`, and the parent of `x` points to `y`. */
  ghost predicate AdjacentHalf<A>(h: Heap<A>, k: Heap<A>, x: nat, y: nat)
    requires x < |h| && y < |h|
  {
    var np, el, er := h[x].parent, h[y].child0, h[y].child1;
    && |k| == |h|
    && k[x] == h[x].(child0 := el, child1 := er)
    && k[y] == h[y].(parent := np)
    && (el != NULL ==> 0 <= el < |h| && k[el] == h[el].(parent := x))
    && (er != NULL ==> 0 <= er < |h| && k[er] == h[er].(parent := x))
    && (np != NULL ==> 0 <= np < |h| && k[np] == h[np].SetChild(x == h[np].child1, y))
    && (forall i :: 0 <= i < |h| && i != x && i != y && i != el && i != er && i != np ==> k[i] == h[i])
  }

  ghost predicate AdjacentResult<A>(h: Heap<A>, k: Heap<A>, x: nat, y: nat)
    requires x < |h| && y < |h|
  {
    var np, side := h[x].parent, y == h[x].child1;
    var c, el, er := h[x].Child(!side), h[y].child0, h[y].child1;
    && |k| == |h|
    && k[x] == h[x].(child0 := el, child1 := er, parent := y)
    && k[y] == h[y].SetChild(side, x).SetChild(!side, c).(parent := np)
    && (el != NULL ==> 0 <= el < |h| && k[el] == h[el].(parent := x))
    && (er != NULL ==> 0 <= er < |h| && k[er] == h[er].(parent := x))
    && (c != NULL ==> 0 <= c < |h| && k[c] == h[c].(parent := y))
    && (np != NULL ==> 0 <= np < |h| && k[np] == h[np].SetChild(x == h[np].child1, y))
    && (forall i :: 0 <= i < |h| && i != x && i != y && i != el && i != er && i != c && i != np ==> k[i] == h[i])
  }

  lemma AdjacentFirst<A>(h: Heap<A>, h1: Heap<A>, h2: Heap<A>, h3: Heap<A>, k: Heap<A>, x: nat, y: nat)
    requires AdjacentApart(h, x, y)
    requires Took(h, h1, x, false, h[y].child0) && Took(h1, h2, x, true, h[y].child1)
    requires h3 == h2[y := h2[y].(parent := h[x].parent)] && Linked(h3, k, h[x].parent, x, y)
    ensures AdjacentHalf(h, k, x, y)
  {
  }

  lemma AdjacentSecond<A>(h: Heap<A>, h4: Heap<A>, h5: Heap<A>, k: Heap<A>, x: nat, y: nat)
    requires AdjacentApart(h, x, y) && AdjacentHalf(h, h4, x, y)
    requires var side := y == h[x].child1;
      Took(h4, h5, y, side, x) && Took(h5, k, y, !side, h[x].Child(!side))
    ensures AdjacentResult(h, k, x, y)
  {
  }

  lemma AdjacentSwappedSelf<A>(h: Heap<A>, k: Heap<A>, s: seq<nat>, root: Link, x: nat, y: nat, i: nat)
    requires LocalAt(h, s, x, root, NULL) && AdjacentApart(h, x, y) && AdjacentResult(h, k, x, y) && (i == x || i == y)
    ensures SwappedAt(h, k, x, y, i)
  {
  }

  lemma AdjacentSwappedOther<A>(h: Heap<A>, k: Heap<A>, s: seq<nat>, root: Link, x: nat, y: nat, i: nat)
    requires LocalAt(h, s, x, root, NULL) && LocalAt(h, s, y, root, NULL) && LocalAt(h, s, i, root, NULL)
    requires AdjacentApart(h, x, y) && AdjacentResult(h, k, x, y) && i != x && i != y
    ensures SwappedAt(h, k, x, y, i)
  {
    Referrers(h, s, root, i, x);
    Referrers(h, s, root, i, y);
    hide LocalAt;
  }

  lemma AdjacentSwapped<A>(h: Heap<A>, k: Heap<A>, s: seq<nat>, root: Link, x: nat, y: nat)
    requires Local(h, s, root) && x in s && y in s && AdjacentApart(h, x, y) && AdjacentResult(h, k, x, y)
    ensures SwappedLinks(h, k, x, y, s) && KeepsRest(h, k, s)
  {
    LocalUse(h, s, root, x);
    LocalUse(h, s, root, y);
    forall i | i in s ensures SwappedAt(h, k, x, y, i) {
      LocalUse(h, s, root, i);
      if i == x || i == y {
        AdjacentSwappedSelf(h, k, s, root, x, y, i);
      } else {
        AdjacentSwappedOther(h, k, s, root, x, y, i);
      }
    }
  }

  // ---------------------------------------------------------------- nodes that are not directly connected

  /** Neither node is a child of the other; only the parent of `y` may be a child of `x`. */
  ghost predicate NodesApart<A>(h: Heap<A>, x: nat, y: nat) {
    && x < |h| && y < |h| && x != y
    && var np, ep := h[x].parent, h[y].parent;
      && ValidLink(h, np) && 0 <= ep < |h| && ep != x && np != y && ep != np && np != x && ep != y
      && (h[ep].child0 == y || h[ep].child1 == y)
      && (np != NULL ==> (h[np].child0 == x || h[np].child1 == x))
      && var nl, nr, el, er := h[x].child0, h[x].child1, h[y].child0, h[y].child1;
        && ValidLink(h, nl) && ValidLink(h, nr) && ValidLink(h, el) && ValidLink(h, er)
        && nl != x && nl != y && nr != x && nr != y && el != x && el != y && er != x && er != y
        && (nl != NULL ==> nl != nr && nl != el && nl != er && nl != np)
        && (nr != NULL ==> nr != el && nr != er && nr != np)
        && (el != NULL ==> el != er && el != np && el != ep)
        && (er != NULL ==> er != np && er != ep)
  }

  /** The arena once the two nodes have exchanged parents. */
  ghost predicate ApartHalf<A>(h: Heap<A>, k: Heap<A>, x: nat, y: nat)
    requires x < |h| && y < |h|
  {
    var np, ep := h[x].parent, h[y].parent;
    && |k| == |h|
    && k[x] == h[x].(parent := ep) && k[y] == h[y].(parent := np)
    && 0 <= ep < |h| && k[ep] == h[ep].SetChild(y == h[ep].child1, x)
    && (np != NULL ==> 0 <= np < |h| && k[np] == h[np].SetChild(x == h[np].child1, y))
    && (forall i :: 0 <= i < |h| && i != x && i != y && i != np && i != ep ==> k[i] == h[i])
  }

  /** The entry of a bystander after the swap. */
  function ApartEntry<A>(h: Heap<A>, x: nat, y: nat, i: nat): Entry<A>
    requires x < |h| && y < |h| && i < |h|
  {
    var e0 := if i == h[y].parent then h[i].SetChild(y == h[i].child1, x) else h[i];
    var e1 := if i == h[x].parent then h[i].SetChild(x == h[i].child1, y) else e0;
    if i == h[y].child0 || i == h[y].child1 then e1.(parent := x)
    else if i == h[x].child0 || i == h[x].child1 then e1.(parent := y)
    else e1
  }

  ghost predicate ApartResult<A>(h: Heap<A>, k: Heap<A>, x: nat, y: nat)
    requires x < |h| && y < |h|
  {
    && |k| == |h|
    && k[x] == h[x].(child0 := h[y].child0, child1 := h[y].child1, parent := h[y].parent)
    && k[y] == h[y].(child0 := h[x].child0, child1 := h[x].child1, parent := h[x].parent)
    && (forall i :: 0 <= i < |h| && i != x && i != y ==> k[i] == ApartEntry(h, x, y, i))
  }

  lemma ApartFirst<A>(h: Heap<A>, h1: Heap<A>, h2: Heap<A>, h3: Heap<A>, k: Heap<A>, x: nat, y: nat)
    requires NodesApart(h, x, y)
    requires h1 == h[x := h[x].(parent := h[y].parent)] && Linked(h1, h2, h[y].parent, y, x)
    requires h3 == h2[y := h2[y].(parent := h[x].parent)] && Linked(h3, k, h[x].parent, x, y)
    ensures ApartHalf(h, k, x, y)
  {
  }

  /** The left children have changed hands, the right ones not yet. */
  ghost predicate ApartLeft<A>(h: Heap<A>, k: Heap<A>, x: nat, y: nat)
    requires x < |h| && y < |h|
  {
    && |k| == |h|
    && k[x] == h[x].(child0 := h[y].child0, parent := h[y].parent)
    && k[y] == h[y].(child0 := h[x].child0, parent := h[x].parent)
    && (forall i :: 0 <= i < |h| && i != x && i != y ==> k[i] == LeftEntry(h, x, y, i))
  }

  function LeftEntry<A>(h: Heap<A>, x: nat, y: nat, i: nat): Entry<A>
    requires x < |h| && y < |h| && i < |h|
  {
    var e0 := if i == h[y].parent then h[i].SetChild(y == h[i].child1, x) else h[i];
    var e1 := if i == h[x].parent then h[i].SetChild(x == h[i].child1, y) else e0;
    if i == h[y].child0 then e1.(parent := x)
    else if i == h[x].child0 then e1.(parent := y)
    else e1
  }

  lemma ApartSecond<A>(h: Heap<A>, h1: Heap<A>, h2: Heap<A>, k: Heap<A>, x: nat, y: nat)
    requires NodesApart(h, x, y) && ApartHalf(h, h1, x, y)
    requires Took(h1, h2, x, false, h[y].child0) && Took(h2, k, y, false, h[x].child0)
    ensures ApartLeft(h, k, x, y)
  {
  }

  lemma ApartThird<A>(h: Heap<A>, h1: Heap<A>, h2: Heap<A>, k: Heap<A>, x: nat, y: nat)
    requires NodesApart(h, x, y) && ApartLeft(h, h1, x, y)
    requires Took(h1, h2, x, true, h[y].child1) && Took(h2, k, y, true, h[x].child1)
    ensures ApartResult(h, k, x, y)
  {
    forall i | 0 <= i < |h| && i != x && i != y ensures k[i] == ApartEntry(h, x, y, i) {
      assert h1[i] == LeftEntry(h, x, y, i);
    }
  }

  lemma NodesApartUse<A>(h: Heap<A>, x: nat, y: nat)
    requires NodesApart(h, x, y)
    ensures x < |h| && y < |h|
  {
  }

  /** The children to change hands next are still those of the start. */
  lemma ApartChildren<A>(h: Heap<A>, k: Heap<A>, x: nat, y: nat, side: bool)
    requires NodesApart(h, x, y) && if side then ApartLeft(h, k, x, y) else ApartHalf(h, k, x, y)
    ensures x < |h| && y < |h| && |k| == |h| && x != y
    ensures k[x].Child(side) == h[x].Child(side) && k[y].Child(side) == h[y].Child(side)
    ensures ValidLink(k, h[x].Child(side)) && ValidLink(k, h[y].Child(side))
    ensures h[y].Child(side) != x && h[y].Child(side) != y && h[x].Child(side) != y && h[x].Child(side) != x
  {
  }

  lemma ApartSwappedSelf<A>(h: Heap<A>, k: Heap<A>, s: seq<nat>, root: Link, x: nat, y: nat, i: nat)
    requires NodesApart(h, x, y) && ApartResult(h, k, x, y) && (i == x || i == y)
    ensures SwappedAt(h, k, x, y, i)
  {
  }

  lemma ApartSwappedOther<A>(h: Heap<A>, k: Heap<A>, s: seq<nat>, root: Link, x: nat, y: nat, i: nat)
    requires LocalAt(h, s, x, root, NULL) && LocalAt(h, s, y, root, NULL) && LocalAt(h, s, i, root, NULL)
    requires NodesApart(h, x, y) && ApartResult(h, k, x, y) && i != x && i != y
    ensures SwappedAt(h, k, x, y, i)
  {
    Referrers(h, s, root, i, x);
    Referrers(h, s, root, i, y);
    hide LocalAt;
    assert k[i] == ApartEntry(h, x, y, i);
  }

  lemma ApartSwapped<A>(h: Heap<A>, k: Heap<A>, s: seq<nat>, root: Link, x: nat, y: nat)
    requires Local(h, s, root) && x in s && y in s && NodesApart(h, x, y) && ApartResult(h, k, x, y)
    ensures SwappedLinks(h, k, x, y, s) && KeepsRest(h, k, s)
  {
    LocalUse(h, s, root, x);
    LocalUse(h, s, root, y);
    forall i | i in s ensures SwappedAt(h, k, x, y, i) {
      LocalUse(h, s, root, i);
      if i == x || i == y {
        ApartSwappedSelf(h, k, s, root, x, y, i);
      } else {
        ApartSwappedOther(h, k, s, root, x, y, i);
      }
    }
    forall i | 0 <= i < |h| && i !in s ensures k[i] == h[i] {
      assert k[i] == ApartEntry(h, x, y, i);
    }
  }

  // ---------------------------------------------------------------- the swap as a renaming

  /** The two nodes have changed places in the tree: all fields but the aggregate move. */
  ghost predicate Swapped<A>(h: Heap<A>, k: Heap<A>, x: nat, y: nat, s: seq<nat>) {
    |k| == |h| && x != y && forall i :: i in s ==> MovedAt(h, k, x, y, i)
  }

  ghost predicate MovedAt<A>(h: Heap<A>, k: Heap<A>, x: nat, y: nat, i: nat) {
    && i < |h| == |k| && 0 <= Ren(x, y, i) < |h|
    && k[Ren(x, y, i)] == RenEntry(x, y, h[i]).(assoc := h[Ren(x, y, i)].assoc)
  }

  lemma SwapFields<A>(h: Heap<A>, g: Heap<A>, k: Heap<A>, x: nat, y: nat, s: seq<nat>)
    requires SwappedLinks(h, g, x, y, s) && x in s && y in s && x != y && x < |h| && y < |h|
    requires g[x].balance == h[x].balance && g[y].balance == h[y].balance && g[x].count == h[x].count && g[y].count == h[y].count
    requires k == g[x := g[x].(balance := g[y].balance, count := g[y].count)][y := g[y].(balance := g[x].balance, count := g[x].count)]
    ensures Swapped(h, k, x, y, s)
  {
    forall i | i in s ensures MovedAt(h, k, x, y, i) {
      assert SwappedAt(h, g, x, y, i);
    }
  }

  lemma SwappedLinksSelf<A>(h: Heap<A>, g: Heap<A>, x: nat, y: nat, s: seq<nat>)
    requires SwappedLinks(h, g, x, y, s) && x in s && y in s
    ensures x < |h| && y < |h| && |g| == |h|
    ensures g[x].balance == h[x].balance && g[y].balance == h[y].balance && g[x].count == h[x].count && g[y].count == h[y].count
  {
    assert SwappedAt(h, g, x, y, x) && SwappedAt(h, g, x, y, y);
  }

  function RenCtx(x: nat, y: nat, c: Ctx): Ctx {
    match c
    case Top => Top
    case Frame(side, id, sib, up) => Frame(side, if id == x then y else id, sib, RenCtx(x, y, up))
  }

  /** A subtree without the two nodes keeps its shape; only its parent may have a new name. */
  lemma {:induction false} SwappedRep<A>(m: Monoid<A>, h: Heap<A>, k: Heap<A>, x: nat, y: nat, s: seq<nat>, l: Link, p: Link, t: Tree)
    requires Swapped(h, k, x, y, s) && Rep(m, h, l, p, t)
    requires x !in InOrder(t) && y !in InOrder(t) && forall i :: i in InOrder(t) ==> i in s
    ensures Rep(m, k, l, Ren(x, y, p), t)
    decreases t
  {
    if t.Node? {
      assert t.id in InOrder(t) && MovedAt(h, k, x, y, t.id);
      RepLinkIn(m, h, h[l].child0, l, t.left);
      RepLinkIn(m, h, h[l].child1, l, t.right);
      SwappedRep(m, h, k, x, y, s, h[l].child0, l, t.left);
      SwappedRep(m, h, k, x, y, s, h[l].child1, l, t.right);
    }
  }

  /** The path keeps its shape, with `y` in the place of `x`. */
  lemma {:induction false} SwappedCtx<A>(m: Monoid<A>, h: Heap<A>, k: Heap<A>, x: nat, y: nat, s: seq<nat>, root: Link,
                                         c: Ctx, l: Link, p: Link, w: seq<nat>)
    requires Swapped(h, k, x, y, s) && CtxLinks(m, h, root, c, l, p)
    requires Once(Pre(c) + w + Post(c)) && (forall i: nat :: InCtx(c, i) ==> i in s)
    requires !InCtx(c, y) && NotHanging(c, x)
    ensures CtxLinks(m, k, Ren(x, y, root), RenCtx(x, y, c), Ren(x, y, l), Ren(x, y, p))
    decreases c
  {
    if c.Frame? {
      FrameInCtx(c);
      CtxParts(c, w);
      assert MovedAt(h, k, x, y, c.id);
      RepLinkIn(m, h, h[c.id].Child(!c.side), c.id, c.sib);
      SwappedRep(m, h, k, x, y, s, h[c.id].Child(!c.side), c.id, c.sib);
      SwappedCtx(m, h, k, x, y, s, root, c.up, c.id, h[c.id].parent, Around(c.side, w, c.id, c.sib));
      hide Rep, Once, InOrder, Pre, Post, Around;
    }
  }

  lemma {:induction false} SwappedCtxData<A>(h: Heap<A>, k: Heap<A>, x: nat, y: nat, s: seq<nat>, c: Ctx, b: int, n: int)
    requires Swapped(h, k, x, y, s) && CtxBal(h, c, b) && CtxCount(h, c, n)
    requires !InCtx(c, y) && (forall i: nat :: InCtx(c, i) ==> i in s)
    ensures CtxBal(k, RenCtx(x, y, c), b) && CtxCount(k, RenCtx(x, y, c), n)
    decreases c
  {
    if c.Frame? {
      FrameInCtx(c);
      assert MovedAt(h, k, x, y, c.id);
      SwappedCtxData(h, k, x, y, s, c.up, 1 + Max(b, Height(c.sib)), n + 1 + |InOrder(c.sib)|);
    }
  }

  /** `x` may be on the path, but not in a subtree hanging off it. */
  ghost predicate NotHanging(c: Ctx, x: nat) {
    c.Top? || (x !in InOrder(c.sib) && NotHanging(c.up, x))
  }

  lemma {:induction false} NotHangingOutside(c: Ctx, x: nat)
    requires !InCtx(c, x)
    ensures NotHanging(c, x)
  {
    if c.Frame? {
      FrameInCtx(c);
      NotHangingOutside(c.up, x);
    }
  }

  lemma {:induction false} RenCtxOutside(c: Ctx, x: nat, y: nat)
    requires !InCtx(c, x)
    ensures RenCtx(x, y, c) == c
  {
    if c.Frame? {
      FrameInCtx(c);
      RenCtxOutside(c.up, x, y);
    }
  }

  /** `e` goes on from `base` only along right children. */
  ghost predicate RightFrom(e: Ctx, base: Ctx) {
    e == base || (e.Frame? && e.side && RightFrom(e.up, base))
  }

  /** The path to the greatest node below the left child of `x`: what stands behind its hole
      starts with `x`, and after the renaming with `y`. */
  lemma {:induction false} RenameRight(e: Ctx, x: nat, y: nat, rt: Tree, c: Ctx, w: seq<nat>)
    requires RightFrom(e, Frame(false, x, rt, c)) && Once(Pre(e) + w + Post(e))
    ensures Post(e) == [x] + InOrder(rt) + Post(c)
    ensures Post(RenCtx(x, y, e)) == [y] + InOrder(rt) + Post(c) && Pre(RenCtx(x, y, e)) == Pre(e)
    ensures NotHanging(e, x) && InCtx(e, x)
    decreases e
  {
    CtxParts(e, w);
    if e == Frame(false, x, rt, c) {
      RenCtxOutside(c, x, y);
      NotHangingOutside(c, x);
    } else {
      RenameRight(e.up, x, y, rt, c, Around(e.side, w, e.id, e.sib));
      FrameInCtx(e);
      assert x in [x] && x in Post(e);
      assert e.id in Pre(e);
    }
  }
}
