/** The AVL tree engine, in place. */
module CAvl {
  // Over an arena of entries: links, balances, counts and aggregates.

  import opened AvlTheory
  import opened Sequences
  import opened AvlRotation
  import opened AvlPaths
  import opened AvlSearch
  import opened AvlSwap
  import opened AvlRemoval

  function OptNeg(x: int, neg: bool): int {
    if neg then -x else x
  }

  class CAvl<A(0, !new)> {
    const arena: array<Entry<A>>
    const m: Monoid<A>
    const countMax: nat
    var root: Link
    ghost var tree: Tree

    /** The links represent `tree` exactly, no node twice, and no count exceeds the largest
        value of the count type. */
    ghost predicate Valid()
      reads this, arena
    {
      && Lawful(m)
      && Rep(m, H(), root, NULL, tree)
      && Once(InOrder(tree))
      && |InOrder(tree)| <= countMax
    }

    /** The nodes of the tree, in order. */
    ghost function Contents(): seq<nat>
      reads this
    {
      InOrder(tree)
    }

    ghost function H(): Heap<A>
      reads arena
    {
      arena[..]
    }

    /** An empty tree over an arena of entries. */
    constructor (arena: array<Entry<A>>, m: Monoid<A>, countMax: nat)
      requires Lawful(m)
      ensures Valid() && Contents() == []
      ensures this.arena == arena && this.m == m && this.countMax == countMax
    {
      this.arena, this.m, this.countMax := arena, m, countMax;
      root, tree := NULL, Leaf;
    }

    // ------------------------------------------------------------ single field writes

    method SetParent(i: nat, p: Link)
      requires i < arena.Length
      modifies arena
      ensures H() == old(H())[i := old(arena[i]).(parent := p)]
    {
      arena[i] := arena[i].(parent := p);
    }

    method SetChild(i: nat, side: bool, l: Link)
      requires i < arena.Length
      modifies arena
      ensures H() == old(H())[i := old(arena[i]).SetChild(side, l)]
    {
      arena[i] := arena[i].SetChild(side, l);
    }

    method SetBalance(i: nat, b: int)
      requires i < arena.Length
      modifies arena
      ensures H() == old(H())[i := old(arena[i]).(balance := b)]
    {
      arena[i] := arena[i].(balance := b);
    }

    method SetAssoc(i: nat, a: A)
      requires i < arena.Length
      modifies arena
      ensures H() == old(H())[i := old(arena[i]).(assoc := a)]
    {
      arena[i] := arena[i].(assoc := a);
    }

    method SetCount(i: nat, n: int)
      requires i < arena.Length
      modifies arena
      ensures H() == old(H())[i := old(arena[i]).(count := n)]
    {
      arena[i] := arena[i].(count := n);
    }

    /** Makes `to` the child of `p` that `from` was, or the root when there is no parent. */
    method Relink(p: Link, from: nat, to: Link)
      requires p == NULL || 0 <= p < arena.Length
      modifies this, arena
      ensures p == NULL ==> H() == old(H()) && root == to
      ensures p != NULL ==> H() == old(H())[p := old(arena[p]).SetChild(from == old(arena[p]).child1, to)] && root == old(root)
    {
      if p != NULL {
        SetChild(p, from == arena[p].child1, to);
      } else {
        root := to;
      }
    }

    method ComputeNodeAssoc(i: nat) returns (a: A)
      requires i < arena.Length && ValidLink(H(), arena[i].child0) && ValidLink(H(), arena[i].child1)
      ensures a == NodeAssoc(m, H(), i)
    {
      a := m.value(i);
      if arena[i].child0 != NULL {
        a := m.oper(arena[arena[i].child0].assoc, a);
      }
      if arena[i].child1 != NULL {
        a := m.oper(a, arena[arena[i].child1].assoc);
      }
    }

    method UpdateCountFromChildren(i: nat)
      requires i < arena.Length && ValidLink(H(), arena[i].child0) && ValidLink(H(), arena[i].child1)
      modifies arena
      ensures H() == old(H())[i := old(arena[i]).(count := 1 + CountOf(old(H()), old(arena[i].child0)) + CountOf(old(H()), old(arena[i].child1)))]
    {
      var leftCount := if arena[i].child0 != NULL then arena[arena[i].child0].count else 0;
      var rightCount := if arena[i].child1 != NULL then arena[arena[i].child1].count else 0;
      SetCount(i, 1 + leftCount + rightCount);
    }

    /** The link changes of a rotation. */
    method RotateLinks(r: nat, dir: bool, rParent: Link)
      requires r < arena.Length && 0 <= arena[r].Child(!dir) < arena.Length && ValidLink(H(), rParent)
      requires var nr := arena[r].Child(!dir); var b := arena[nr].Child(dir);
        && ValidLink(H(), b) && r != nr && r != b && nr != b && rParent != r && rParent != nr
        && (b != NULL ==> rParent != b)
      modifies this, arena
      ensures Turned(old(H()), H(), r, dir, rParent)
      ensures root == if rParent == NULL then old(arena[r].Child(!dir)) else old(root)
    {
      var nr := arena[r].Child(!dir);
      SetChild(r, !dir, arena[nr].Child(dir));
      if arena[r].Child(!dir) != NULL {
        SetParent(arena[r].Child(!dir), r);
      }
      SetChild(nr, dir, r);
      SetParent(nr, rParent);
      Relink(rParent, r, nr);
      SetParent(r, nr);
    }

    /** The recomputed counts and aggregates of the two rotated nodes, lower one first. */
    method UpdateTwo(r: nat, nr: nat)
      requires r < arena.Length && nr < arena.Length && r != nr
      requires ValidLink(H(), arena[r].child0) && ValidLink(H(), arena[r].child1)
      requires ValidLink(H(), arena[nr].child0) && ValidLink(H(), arena[nr].child1)
      modifies arena
      ensures Recounted(m, old(H()), H(), r, nr)
    {
      UpdateCountFromChildren(r);
      UpdateCountFromChildren(nr);
      var ra := ComputeNodeAssoc(r);
      SetAssoc(r, ra);
      var na := ComputeNodeAssoc(nr);
      SetAssoc(nr, na);
    }

    method Rotate(r: nat, dir: bool, rParent: Link)
      requires Turnable(H(), r, dir, rParent) && rParent == H()[r].parent
      modifies this, arena
      ensures Rotated(m, old(H()), H(), r, dir, rParent)
      ensures root == if rParent == NULL then old(arena[r].Child(!dir)) else old(root)
    {
      var nr := arena[r].Child(!dir);
      RotateLinks(r, dir, rParent);
      ghost var k := H();
      UpdateTwo(r, nr);
      TurnedRecounted(m, old(H()), k, H(), r, dir, rParent);
    }

    /** The case of a taller child that does not lean the other way. */
    method RebalanceSingle(node: nat, child: nat, bside: bool, bn: int, bc: int,
                           ghost x: Tree, ghost y: Tree, ghost z: Tree, ghost c: Ctx, ghost was: int)
      requires Lawful(m) && Grip(m, H(), node, bside, x, y, z) && child == H()[node].Child(bside)
      requires Hooked(m, H(), root, c, node, H()[node].parent, was, InOrder(Mk(bside, Mk(bside, z, child, y), node, x)))
      requires -1 <= bn <= 1 && bn == if bside then Height(y) - Height(x) else Height(x) - Height(y)
      requires -1 <= bc <= 1 && bc == if bside then Height(z) - (1 + Max(Height(x), Height(y)))
                                               else (1 + Max(Height(x), Height(y))) - Height(z)
      modifies this, arena
      ensures Lifted(m, H(), root, child, c, Single(bside, x, y, z, node, child), was)
      ensures KeepsRest(old(H()), H(), Pre(c) + InOrder(Mk(bside, Mk(bside, z, child, y), node, x)) + Post(c))
    {
      hide Rep, CtxLinks, CtxBal, CtxAug, InOrder, Height, Once, Plug, Hooked, Lifted, Rotated, Turnable, Single, Mk, NodeAssoc;
      ghost var h, root0 := H(), root;
      var p := arena[node].parent;
      ghost var s := InOrder(Mk(bside, Mk(bside, z, child, y), node, x));
      HookedParent(m, h, root, c, node, p, was, s);
      InOrderMember(bside, x, y, z, node, child);
      TurnableSingle(m, h, node, p, bside, x, y, z);
      Rotate(node, !bside, p);
      ghost var k := H();
      SetBalance(node, bn);
      SetBalance(child, bc);
      SingleLifted(m, h, k, H(), root0, root, node, bside, x, y, z, c, was, bn, bc);
      RotatedReach(m, h, k, root0, node, !bside, c, was, s, y);
    }

    /** The two rotations of the case of a taller child that leans the other way. */
    method RotateTwice(node: nat, child: nat, g: nat, bside: bool,
                       ghost x: Tree, ghost y1: Tree, ghost y2: Tree, ghost z: Tree)
      returns (ghost h1: Heap<A>)
      requires Grip(m, H(), node, bside, x, Mk(bside, y2, g, y1), z) && child == H()[node].Child(bside)
      requires ValidLink(H(), H()[node].parent)
      requires H()[node].parent !in InOrder(Mk(bside, Mk(bside, z, child, Mk(bside, y2, g, y1)), node, x))
      modifies this, arena
      ensures Rotated(m, old(H()), h1, child, bside, node)
      ensures node < |h1| && g == h1[node].Child(bside) && g < |h1|
      ensures Rotated(m, h1, H(), node, !bside, old(H())[node].parent)
      ensures root == if old(H())[node].parent == NULL then g else old(root)
    {
      hide Rep, InOrder, Height, Once, Turnable, Rep, NodeAssoc;
      ghost var h := H();
      InOrderMember(bside, x, Mk(bside, y2, g, y1), z, node, child);
      FourFromGrip(m, h, node, bside, x, y1, g, y2, z);
      TurnableFirst(m, h, node, bside, x, y1, g, y2, z);
      Rotate(child, bside, node);
      h1 := H();
      DoubleFirst(m, h, h1, node, child, g, bside, x, y1, y2, z);
      TurnableSecond(m, h1, node, child, g, h[node].parent, bside, x, y1, y2, z);
      Rotate(node, !bside, arena[node].parent);
    }

    method SetThreeBalances(node: nat, child: nat, g: nat, bsidef: int)
      requires node < arena.Length && child < arena.Length && g < arena.Length
      requires node != child && node != g && child != g
      modifies arena
      ensures OnlyBal(old(H()), H(), node, child, g) && H()[g].balance == 0
      ensures H()[node].balance == -Max(0, old(H())[g].balance * bsidef) * bsidef
      ensures H()[child].balance == Max(0, -old(H())[g].balance * bsidef) * bsidef
    {
      SetBalance(node, -Max(0, arena[g].balance * bsidef) * bsidef);
      SetBalance(child, Max(0, -arena[g].balance * bsidef) * bsidef);
      SetBalance(g, 0);
    }

    method RebalanceDouble(node: nat, child: nat, g: nat, bside: bool, bsidef: int,
                           ghost x: Tree, ghost y1: Tree, ghost y2: Tree, ghost z: Tree, ghost c: Ctx, ghost was: int)
      requires Lawful(m) && Grip(m, H(), node, bside, x, Mk(bside, y2, g, y1), z) && child == H()[node].Child(bside)
      requires bsidef == (if bside then 1 else -1)
      requires Hooked(m, H(), root, c, node, H()[node].parent, was, InOrder(Mk(bside, Mk(bside, z, child, Mk(bside, y2, g, y1)), node, x)))
      requires Height(x) == Height(z) == Max(Height(y1), Height(y2))
      modifies this, arena
      ensures Lifted(m, H(), root, g, c, Double(bside, x, y1, y2, z, node, child, g), was)
      ensures KeepsRest(old(H()), H(), Pre(c) + InOrder(Mk(bside, Mk(bside, z, child, Mk(bside, y2, g, y1)), node, x)) + Post(c))
    {
      hide Rep, CtxLinks, CtxBal, CtxAug, InOrder, Rotated, Height, Once, NodeAssoc, Plug;
      ghost var h, root0 := H(), root;
      HookedParent(m, h, root, c, node, h[node].parent, was, InOrder(Mk(bside, Mk(bside, z, child, Mk(bside, y2, g, y1)), node, x)));
      ghost var h1 := RotateTwice(node, child, g, bside, x, y1, y2, z);
      ghost var k := H();
      DoubleBalances(m, h, h1, k, root0, node, child, g, bside, x, y1, y2, z, c, was);
      DoubleSigns(k[g].balance, bside, bsidef, Height(x), Height(y1), Height(y2), Height(z));
      SetThreeBalances(node, child, g, bsidef);
      DoubleLifted(m, h, h1, k, H(), root0, root, node, child, g, bside, x, y1, y2, z, c, was);
      assert KeepsRest(h, H(), Pre(c) + InOrder(Mk(bside, Mk(bside, z, child, Mk(bside, y2, g, y1)), node, x)) + Post(c)) by {
        DoubleReach(m, h, h1, k, root0, node, child, g, bside, x, y1, y2, z, c, was);
        InOrderMember(bside, x, Mk(bside, y2, g, y1), z, node, child);
        InOrderMk(bside, y2, g, y1);
      }
    }

    /** The transformations at a node whose balance factor is out of range. */
    method RebalanceTall(node: nat, side: bool, delta0: int, ghost c: Ctx, ghost sib: Tree, ghost t: Tree, ghost was: int)
      returns (top: nat, delta: int, ghost u: Tree)
      requires Lawful(m) && node < arena.Length && (H()[node].balance == 2 || H()[node].balance == -2)
      requires H()[node].balance == if side then Height(t) - Height(sib) else Height(sib) - Height(t)
      requires Hooked(m, H(), root, c, node, H()[node].parent, was, InOrder(Mk(side, t, node, sib)))
      requires Rep(m, H(), H()[node].Child(side), node, t) && Rep(m, H(), H()[node].Child(!side), node, sib)
      modifies this, arena
      ensures Lifted(m, H(), root, top, c, u, was)
      ensures delta - delta0 == Height(u) - Height(Mk(side, t, node, sib)) && -1 <= delta - delta0 <= 0
      ensures InOrder(u) == InOrder(Mk(side, t, node, sib))
      ensures KeepsRest(old(H()), H(), Pre(c) + InOrder(u) + Post(c))
    {
      hide Rep, CtxLinks, CtxBal, CtxAug, InOrder, Rotated, Height, Once, NodeAssoc, Plug, Lifted, Grip, Single, Double, Mk, Child;
      delta := delta0;
      var bside := arena[node].balance == 2;
      var bsidef := if bside then 1 else -1;
      InOrderMk(side, t, node, sib);
      TiltedGrip(m, H(), node, side, sib, t, c, bside);
      ghost var tall, x := if side == bside then t else sib, if side == bside then sib else t;
      ghost var y, z := Child(tall, !bside), Child(tall, bside);
      var child := arena[node].Child(bside);
      Lean(m, H(), node, child, tall, bside);
      RotatedHeights(bside, x, y, z, node, child);
      if arena[child].balance * bsidef == 1 {
        RebalanceSingle(node, child, bside, 0, 0, x, y, z, c, was);
        top, u := child, Single(bside, x, y, z, node, child);
        SingleInOrder(bside, x, y, z, node, child);
        delta := delta - 1;
      } else if arena[child].balance * bsidef == 0 {
        RebalanceSingle(node, child, bside, 1 * bsidef, -1 * bsidef, x, y, z, c, was);
        top, u := child, Single(bside, x, y, z, node, child);
        SingleInOrder(bside, x, y, z, node, child);
      } else {
        var g := arena[child].Child(!bside);
        ghost var y1, y2 := Child(y, !bside), Child(y, bside);
        RebalanceDouble(node, child, g, bside, bsidef, x, y1, y2, z, c, was);
        top, u := g, Double(bside, x, y1, y2, z, node, child, g);
        DoubleInOrder(bside, x, y1, y2, z, node, child, g);
        delta := delta - 1;
      }
    }

    /** The new balance factor of `node`, and the transformations there; `delta` is the height change
        of the subtree now in its place. */
    method RebalanceHere(node: nat, side: bool, deltac: int, ghost c: Ctx, ghost sib: Tree, ghost t: Tree)
      returns (top: nat, delta: int, ghost u: Tree)
      requires Lawful(m) && deltac != 0 && Pending(m, H(), root, node, side, deltac, c, sib, t)
      modifies this, arena
      ensures Lifted(m, H(), root, top, c, u, OldHeight(t, sib, deltac))
      ensures delta == Height(u) - OldHeight(t, sib, deltac) && -1 <= delta <= 1 && OldHeight(t, sib, deltac) >= 1
      ensures InOrder(u) == Around(side, InOrder(t), node, sib)
      ensures KeepsRest(old(H()), H(), Pre(c) + InOrder(u) + Post(c))
    {
      hide Rep, CtxLinks, CtxBal, CtxAug, InOrder, Rotated, Height, Once, NodeAssoc, Plug, Around, Hooked;
      ghost var was := OldHeight(t, sib, deltac);
      u := Mk(side, t, node, sib);
      DeltaExact(m, H(), root, node, side, deltac, c, sib, t);
      InOrderMk(side, t, node, sib);
      delta := Max(deltac, OptNeg(arena[node].balance, side)) - Max(0, OptNeg(arena[node].balance, side));
      ghost var h := H();
      SetBalance(node, arena[node].balance - OptNeg(deltac, side));
      ghost var h1 := H();
      Tilted(m, h, h1, root, node, side, deltac, c, sib, t);
      top := node;
      if arena[node].balance == 2 || arena[node].balance == -2 {
        top, delta, u := RebalanceTall(node, side, delta, c, sib, t, was);
      } else {
        NoRotation(m, H(), root, node, side, c, sib, t, was);
      }
      KeepsRestTrans(h, h1, H(), Pre(c) + InOrder(u) + Post(c));
    }

    /** Restores the balance of `node`, whose subtree at `side` has changed its height by
        `deltac`, and of everything above it. */
    method Rebalance(node: nat, side: bool, deltac: int, ghost c: Ctx, ghost sib: Tree, ghost t: Tree)
      returns (ghost w: Tree)
      requires Lawful(m) && Pending(m, H(), root, node, side, deltac, c, sib, t)
      modifies this, arena
      ensures Rep(m, H(), root, NULL, w)
      ensures InOrder(w) == Pre(c) + Around(side, InOrder(t), node, sib) + Post(c)
      ensures KeepsRest(old(H()), H(), InOrder(w))
      decreases c
    {
      hide Rep, CtxLinks, CtxBal, CtxAug, InOrder, Rotated, Height, Once, NodeAssoc, Plug, Around, Hooked;
      if deltac == 0 {
        PendingDone(m, H(), root, node, side, c, sib, t);
        w := Plug(c, Mk(side, t, node, sib));
        return;
      }
      ghost var h, was := H(), OldHeight(t, sib, deltac);
      var top, delta;
      ghost var u;
      top, delta, u := RebalanceHere(node, side, deltac, c, sib, t);
      if arena[top].parent != NULL {
        ghost var h2 := H();
        LiftedPending(m, H(), root, top, c, u, was);
        var parent := arena[top].parent;
        w := Rebalance(parent, top == arena[parent].child1, delta, c.up, c.sib, u);
        AroundWhole(c, InOrder(u));
        KeepsRestTrans(h, h2, H(), InOrder(w));
      } else {
        LiftedTop(m, H(), root, top, c, u, was);
        w := u;
      }
    }

    // ------------------------------------------------------------ insertion

    /** Brings counts and aggregates up to date from `p` to the root, after the subtree in the
        hole gained `add` and lost `sub` nodes. */
    method FixAncestors(l: Link, p: Link, sub: int, add: int, ghost c: Ctx, ghost s: seq<nat>)
      requires Lawful(m) && CtxLinks(m, H(), root, c, l, p) && AugLink(m, H(), l, s)
      requires CtxCount(H(), c, |s| - (add - sub)) && Once(Pre(c) + s + Post(c))
      requires add <= |s| && |Pre(c) + s + Post(c)| <= countMax
      modifies arena
      ensures PathAugOnly(old(H()), H(), c) && CtxAug(m, H(), c, s) && CtxLinks(m, H(), root, c, l, p)
    {
      hide Rep, CtxLinks, CtxAug, CtxCount, InOrder, Once, AugN, SeqN, Climbing, Around;
      ghost var h0 := H();
      ghost var n: nat := 0;
      ghost var cur := l;
      var q := p;
      ClimbingStart(m, h0, root, c, s, l, p, add - sub);
      while q != NULL
        invariant Climbing(m, H(), root, c, s, n, cur, q, add - sub)
        invariant PathAugOnly(h0, H(), c)
        decreases Depth(UpN(c, n))
      {
        ghost var h := H();
        ClimbingLinks(m, h, root, c, s, n, cur, q, add - sub);
        ClimbingBounds(m, h, root, c, s, n, cur, q, add - sub);
        assert arena[q].count >= sub;
        NodeAssocCount(m, h, q, q, h[q].count + (add - sub));
        SetCount(q, arena[q].count - sub);
        assert add <= countMax - arena[q].count;
        SetCount(q, arena[q].count + add);
        assert H() == h[q := h[q].(count := h[q].count + (add - sub))];
        var a := ComputeNodeAssoc(q);
        SetAssoc(q, a);
        assert H() == h[q := h[q].(count := h[q].count + (add - sub), assoc := NodeAssoc(m, h, q))];
        ClimbingStep(m, h, H(), root, c, s, n, cur, q, add - sub);
        n, cur, q := n + 1, q, arena[q].parent;
      }
      ClimbingEnd(m, h0, H(), root, c, s, n, l, p, cur, add - sub);
    }

    /** Writes the fields of a node that is to become a leaf. */
    method InitLeaf(node: nat, p: Link)
      requires node < arena.Length
      modifies arena
      ensures H() == old(H())[node := LeafEntry(m, p, node)]
    {
      arena[node] := Entry(NULL, NULL, p, 0, 1, m.value(node));
    }

    /** Inserting into the empty tree. */
    method InsertRoot(node: nat)
      requires Valid() && root == NULL && node < arena.Length && 0 < countMax
      modifies this, arena
      ensures Valid() && Contents() == [node]
      ensures KeepsRest(old(H()), H(), [node])
    {
      root := node;
      InitLeaf(node, NULL);
      tree := Node(Leaf, node, Leaf);
      SumSingle(m, node);
      assert InOrder(tree) == [node];
    }

    /** Makes `node` the child at `side` of `c`, whose link there is empty. */
    method AttachLeaf(c: nat, side: bool, node: nat, ghost up: Ctx, ghost t: Tree)
      requires Valid() && t.Node? && t.id == c && Child(t, side) == Leaf && c < arena.Length
      requires CtxRep(m, H(), root, up, c, H()[c].parent, t) && Rep(m, H(), c, H()[c].parent, t)
      requires Pre(up) + InOrder(t) + Post(up) == Contents()
      requires node < arena.Length && node !in Contents() && |Contents()| < countMax
      modifies this, arena
      ensures Valid()
      ensures Contents() == Pre(Down(up, t, side)) + [node] + Post(Down(up, t, side))
      ensures KeepsRest(old(H()), H(), Contents())
    {
      hide Rep, CtxLinks, CtxAug, CtxBal, CtxCount, InOrder, Pre, Post, Around, Once, Pending;
      ghost var h, d := H(), Down(up, t, side);
      ghost var s := Pre(d) + [node] + Post(d);
      StepDown(m, h, root, up, c, h[c].parent, t, side);
      EmptyHole(m, h, root, d, h[c].Child(side), c, node, Contents());
      SetChild(c, side, node);
      InitLeaf(node, c);
      ghost var k := H();
      Attached(m, h, k, root, d, node);
      FixAncestors(node, c, 0, 1, d, [node]);
      ghost var w := H();
      AttachedPending(m, k, w, root, d, node);
      tree := Rebalance(c, side, 1, up, d.sib, Node(Leaf, node, Leaf));
      KeepsRestTrans(h, k, w, s);
      KeepsRestTrans(h, w, H(), s);
    }

    /** Inserts `node` where `cmp` places it, unless an entry compares equal. The returned
        reference is that equal entry, or a neighbour of the inserted node; NULL if the
        tree was empty. */
    method Insert(cmp: (nat, nat) -> int, node: nat) returns (inserted: bool, ref: Link)
      requires Valid() && TotalOrder(cmp) && Sorted(cmp, Contents())
      requires node < arena.Length && node !in Contents() && |Contents()| < countMax
      modifies this, arena
      ensures Valid() && Sorted(cmp, Contents())
      ensures KeepsRest(old(H()), H(), Contents())
      ensures !inserted <==> exists x :: x in old(Contents()) && cmp(node, x) == 0
      ensures !inserted ==> H() == old(H()) && root == old(root) && Contents() == old(Contents())
      ensures !inserted ==> ref in Contents() && cmp(node, ref) == 0
      ensures inserted ==> exists k :: PlacedAt(cmp, old(Contents()), Contents(), k, node, ref)
    {
      hide Rep, CtxLinks, CtxAug, CtxBal, InOrder, Pre, Post, Once, At, Sorted, TotalOrder, Searchable, Narrowed, CtxRep;
      ghost var s, h := Contents(), H();
      ghost var kc := (y: nat) => cmp(node, y);
      SortedSearchable(cmp, s, node);
      if root == NULL {
        InsertRoot(node);
        EmptyPlaced(m, h, cmp, old(tree), node);
        return true, NULL;
      }
      AtRoot(m, h, root, tree);
      NarrowedTop(kc);
      var c, side := root, false;
      ghost var up, t := Top, tree;
      while true
        invariant H() == h && root == old(root) && tree == old(tree)
        invariant At(m, h, root, up, c, t, s) && Narrowed(kc, up)
        decreases Size(t)
      {
        AtFacts(m, h, root, up, c, t, s, kc);
        var comp := cmp(node, c);
        if comp == 0 {
          return false, c;
        }
        side := comp == 1;
        AtDown(m, h, root, up, c, t, s, side);
        NarrowedDown(kc, up, t, side);
        if arena[c].Child(side) == NULL {
          break;
        }
        c, up, t := arena[c].Child(side), Down(up, t, side), Child(t, side);
      }
      SearchEnd(kc, up, t, side);
      AttachAt(m, h, root, up, c, t, s);
      AttachLeaf(c, side, node, up, t);
      ghost var k := |Pre(Down(up, t, side))|;
      NotEqual(kc, s, k);
      SortedInsert(cmp, s, k, node);
      assert PlacedAt(cmp, s, Contents(), k, node, c);
      return true, c;
    }

    /** Inserts `node` at position `index` of the sequence. */
    method InsertAt(node: nat, index: nat)
      requires Valid() && node < arena.Length && node !in Contents()
      requires index <= |Contents()| < countMax
      modifies this, arena
      ensures Valid()
      ensures Contents() == old(Contents())[..index] + [node] + old(Contents())[index..]
      ensures KeepsRest(old(H()), H(), Contents())
    {
      hide Rep, CtxLinks, CtxAug, CtxBal, InOrder, Pre, Post, Once, At, CtxRep;
      ghost var s, h := Contents(), H();
      if root == NULL {
        EmptyTree(m, h, tree);
        InsertRoot(node);
        return;
      }
      var c, side;
      ghost var up, t;
      c, side, up, t := FindIndex(index);
      AttachAt(m, h, root, up, c, t, s);
      AttachLeaf(c, side, node, up, t);
      assert s[..index] == Pre(Down(up, t, side)) && s[index..] == Post(Down(up, t, side));
    }

    /** The descent to the empty link at position `index`. */
    method FindIndex(index: nat) returns (c: nat, side: bool, ghost up: Ctx, ghost t: Tree)
      requires Valid() && root != NULL && index <= |Contents()|
      ensures At(m, H(), root, up, c, t, Contents()) && t.Node? && c < arena.Length && arena[c].Child(side) == NULL
      ensures Child(t, side) == Leaf && |Pre(Down(up, t, side))| == index
      ensures Pre(Down(up, t, side)) + Post(Down(up, t, side)) == Contents()
    {
      hide Rep, InOrder, Pre, Post, Once, At;
      ghost var s := Contents();
      AtRoot(m, H(), root, tree);
      c, side := root, false;
      up, t := Top, tree;
      AtDown(m, H(), root, up, c, t, s, false);
      AtIndex(m, H(), root, up, c, t, s);
      TopPre();
      var cIdx := ChildCount(c, false);
      while true
        invariant At(m, H(), root, up, c, t, s)
        invariant t.Node? && cIdx == |Pre(up)| + |InOrder(t.left)|
        invariant |Pre(up)| <= index <= |Pre(up)| + |InOrder(t)|
        decreases Size(t)
      {
        AtIndex(m, H(), root, up, c, t, s);
        side := index > cIdx;
        AtDown(m, H(), root, up, c, t, s, side);
        DownIndex(up, t, side);
        if arena[c].Child(side) == NULL {
          break;
        }
        c, up, t := arena[c].Child(side), Down(up, t, side), Child(t, side);
        AtIndex(m, H(), root, up, c, t, s);
        AtDown(m, H(), root, up, c, t, s, !side);
        if !side {
          cIdx := cIdx - (1 + ChildCount(c, true));
        } else {
          cIdx := cIdx + (1 + ChildCount(c, false));
        }
      }
      EmptyLink(up, t, side);
      LeafInOrder();
      AttachAt(m, H(), root, up, c, t, s);
    }

    function ChildCount(n: nat, side: bool): int
      requires n < arena.Length && ValidLink(H(), arena[n].Child(side))
      reads arena
    {
      if arena[n].Child(side) != NULL then arena[arena[n].Child(side)].count else 0
    }

    // ------------------------------------------------------------ removal

    /** Writes the parent link of the entry behind a link that may be NULL. */
    method SetParentOf(l: Link, p: Link)
      requires ValidLink(H(), l)
      modifies arena
      ensures H() == if l == NULL then old(H()) else old(H())[l := old(H())[l].(parent := p)]
    {
      if l != NULL {
        SetParent(l, p);
      }
    }

    /** Gives `n` the child behind `l` at `side`. */
    method TakeChild(n: nat, side: bool, l: Link)
      requires n < arena.Length && ValidLink(H(), l) && l != n
      modifies arena
      ensures Took(old(H()), H(), n, side, l)
    {
      SetChild(n, side, l);
      SetParentOf(l, n);
    }

    /** The links of a swap when `enode` is a child of `node`: `node` takes its children and hands
        over its parent. */
    method SwapDown(node: nat, enode: nat)
      requires AdjacentApart(H(), node, enode)
      modifies this, arena
      ensures AdjacentHalf(old(H()), H(), node, enode)
      ensures root == if old(H())[node].parent == NULL then enode else old(root)
    {
      ghost var h := H();
      var nodeParent := arena[node].parent;
      TakeChild(node, false, arena[enode].child0);
      ghost var h1 := H();
      TakeChild(node, true, arena[enode].child1);
      ghost var h2 := H();
      SetParent(enode, arena[node].parent);
      ghost var h3 := H();
      Relink(nodeParent, node, enode);
      AdjacentFirst(h, h1, h2, h3, H(), node, enode);
    }

    method SwapAdjacent(node: nat, enode: nat)
      requires AdjacentApart(H(), node, enode)
      modifies this, arena
      ensures AdjacentResult(old(H()), H(), node, enode)
      ensures root == if old(H())[node].parent == NULL then enode else old(root)
    {
      ghost var h := H();
      var side := enode == arena[node].child1;
      var c := arena[node].Child(!side);
      SwapDown(node, enode);
      ghost var h4 := H();
      TakeChild(enode, side, node);
      ghost var h5 := H();
      TakeChild(enode, !side, c);
      AdjacentSecond(h, h4, h5, H(), node, enode);
    }

    /** The links of a swap when the two nodes are not directly connected: first the parents. */
    method SwapParents(node: nat, enode: nat)
      requires NodesApart(H(), node, enode)
      modifies this, arena
      ensures ApartHalf(old(H()), H(), node, enode)
      ensures root == if old(H())[node].parent == NULL then enode else old(root)
    {
      hide ApartHalf;
      ghost var h := H();
      var nodeParent, enodeParent := arena[node].parent, arena[enode].parent;
      SetParent(node, enodeParent);
      ghost var h1 := H();
      Relink(enodeParent, enode, node);
      ghost var h2 := H();
      SetParent(enode, nodeParent);
      ghost var h3 := H();
      Relink(nodeParent, node, enode);
      ApartFirst(h, h1, h2, h3, H(), node, enode);
    }

    /** The children behind one side change hands. */
    method SwapChildren(node: nat, enode: nat, side: bool, ghost h: Heap<A>)
      requires NodesApart(h, node, enode) && if side then ApartLeft(h, H(), node, enode) else ApartHalf(h, H(), node, enode)
      modifies arena
      ensures if side then ApartResult(h, H(), node, enode) else ApartLeft(h, H(), node, enode)
    {
      ghost var h1 := H();
      ApartChildren(h, h1, node, enode, side);
      hide NodesApart, ApartResult, ApartLeft, ApartHalf;
      var temp := arena[node].Child(side);
      TakeChild(node, side, arena[enode].Child(side));
      ghost var h2 := H();
      TakeChild(enode, side, temp);
      if side {
        ApartThird(h, h1, h2, H(), node, enode);
      } else {
        ApartSecond(h, h1, h2, H(), node, enode);
      }
    }

    method SwapApart(node: nat, enode: nat)
      requires NodesApart(H(), node, enode)
      modifies this, arena
      ensures ApartResult(old(H()), H(), node, enode)
      ensures root == if old(H())[node].parent == NULL then enode else old(root)
    {
      hide NodesApart, ApartResult, ApartLeft, ApartHalf;
      ghost var h := H();
      NodesApartUse(h, node, enode);
      SwapParents(node, enode);
      SwapChildren(node, enode, false, h);
      SwapChildren(node, enode, true, h);
    }

    /** Exchanges the places of `node` and of its predecessor `enode`. */
    method SwapForRemove(node: nat, enode: nat, ghost s: seq<nat>)
      requires Local(H(), s, root) && node in s && enode in s && node < arena.Length && enode < arena.Length && node != enode
      requires if H()[enode].parent == node then AdjacentApart(H(), node, enode) else NodesApart(H(), node, enode)
      modifies this, arena
      ensures Swapped(old(H()), H(), node, enode, s) && KeepsRest(old(H()), H(), s)
      ensures root == if old(H())[node].parent == NULL then enode else old(root)
    {
      hide Local, AdjacentApart, NodesApart, AdjacentResult, ApartResult, SwappedLinks, Swapped;
      ghost var h, root0 := H(), root;
      if arena[enode].parent == node {
        SwapAdjacent(node, enode);
        AdjacentSwapped(h, H(), s, root0, node, enode);
      } else {
        SwapApart(node, enode);
        ApartSwapped(h, H(), s, root0, node, enode);
      }
      ghost var g := H();
      SwappedLinksSelf(h, g, node, enode, s);
      var b := arena[node].balance;
      SetBalance(node, arena[enode].balance);
      SetBalance(enode, b);
      var c := arena[node].count;
      SetCount(node, arena[enode].count);
      SetCount(enode, c);
      SwapFields(h, g, H(), node, enode, s);
    }

    /** Puts the only child of `dest` in its place, and brings the ancestors up to date. */
    method ReplaceSubtreeFixAssoc(dest: nat, n: Link, destParent: Link, ghost e: Ctx, ghost ch: Tree)
      requires Lawful(m) && CutReady(m, H(), root, e, dest, ch)
      requires n == OnlyChild(H()[dest]) && destParent == H()[dest].parent
      requires |Pre(e) + InOrder(ch) + Post(e)| <= countMax
      modifies this, arena
      ensures e.Top? ==> Rep(m, H(), root, NULL, ch) && Pre(e) + InOrder(ch) + Post(e) == InOrder(ch)
      ensures e.Frame? ==> Pending(m, H(), root, e.id, e.side, -1, e.up, e.sib, ch)
      ensures e.Frame? ==>
        Pre(e) + InOrder(ch) + Post(e) == Pre(e.up) + Around(e.side, InOrder(ch), e.id, e.sib) + Post(e.up)
      ensures KeepsRest(old(H()), H(), Pre(e) + ([dest] + InOrder(ch)) + Post(e))
    {
      hide Rep, CtxLinks, CtxAug, CtxBal, CtxCount, InOrder, Pre, Post, Around, Once, Pending, InCtx, PathAugOnly, Sum, Height;
      ghost var h, root0 := H(), root;
      CutParts(m, h, root, e, dest, ch);
      Relink(destParent, dest, n);
      SetParentOf(n, arena[dest].parent);
      ghost var k := H();
      assert CutOff(h, k, dest);
      CutLinked(m, h, k, root0, root, e, dest, ch);
      CutReach(m, h, k, root0, e, dest, ch, Pre(e) + ([dest] + InOrder(ch)) + Post(e));
      FixAncestors(n, destParent, arena[dest].count, if n != NULL then arena[n].count else 0, e, InOrder(ch));
      PathReach(k, H(), e, Pre(e) + ([dest] + InOrder(ch)) + Post(e));
      if e.Frame? {
        CutPending(m, k, H(), root, e, n, destParent, ch);
      } else {
        CutTop(m, k, H(), root, e, n, destParent, ch);
      }
      KeepsRestTrans(h, k, H(), Pre(e) + ([dest] + InOrder(ch)) + Post(e));
    }

    /** Cuts out a node that has at most one child. */
    method CutNode(node: nat, ghost e: Ctx, ghost ch: Tree, ghost s: seq<nat>, ghost k: nat)
      requires Lawful(m) && CutReady(m, H(), root, e, node, ch)
      requires Once(s) && |s| <= countMax && RemovedAt(s, Pre(e) + InOrder(ch) + Post(e), k, node)
      modifies this, arena
      ensures Valid() && RemovedAt(s, Contents(), k, node) && KeepsRest(old(H()), H(), s)
    {
      ghost var h := H();
      ghost var s' := Pre(e) + InOrder(ch) + Post(e);
      CutParts(m, h, root, e, node, ch);
      CutInside(m, h, root, e, node, ch, s, k);
      RemovedDistinct(s, s', k, node);
      hide Rep, CtxLinks, CtxAug, CtxBal, CtxCount, InOrder, Pre, Post, Around, Once, Pending, InCtx, RemovedAt;
      var paren := arena[node].parent;
      var child := if arena[node].child0 != NULL then arena[node].child0 else arena[node].child1;
      if paren != NULL {
        var side := node == arena[paren].child1;
        ReplaceSubtreeFixAssoc(node, child, paren, e, ch);
        ghost var h1 := H();
        tree := Rebalance(paren, side, -1, e.up, e.sib, ch);
        CutKeeps(h, h1, H(), s, s', Pre(e) + ([node] + InOrder(ch)) + Post(e), k, node);
      } else {
        ReplaceSubtreeFixAssoc(node, child, paren, e, ch);
        tree := ch;
        CutKeeps(h, H(), H(), s, s', Pre(e) + ([node] + InOrder(ch)) + Post(e), k, node);
      }
    }

    /** The greatest node below the left child of `x`, where the walk starts. */
    method SubtreeMax(n: nat, ghost c: Ctx, ghost x: nat, ghost t: Tree, ghost s: seq<nat>)
      returns (max: nat, ghost e: Ctx, ghost u: Tree)
      requires At(m, H(), root, c, x, t, s) && x < arena.Length && n == arena[x].child0 && n < arena.Length
      ensures max < arena.Length && MaxWalk(m, H(), root, c, x, t, e, max, u, s) && u.Node? && u.right == Leaf
    {
      hide Rep, InOrder, Pre, Post, At, MaxWalk;
      MaxWalkStart(m, H(), root, c, x, t, s);
      max, e, u := n, Down(c, t, false), t.left;
      WalkUse(m, H(), root, c, x, t, e, max, u, s);
      while arena[max].child1 != NULL
        invariant max < arena.Length && MaxWalk(m, H(), root, c, x, t, e, max, u, s) && u.Node?
        decreases Size(u)
      {
        MaxWalkStep(m, H(), root, c, x, t, e, max, u, s);
        max, e, u := arena[max].child1, Down(e, u, true), u.right;
        WalkUse(m, H(), root, c, x, t, e, max, u, s);
      }
      MaxWalkStep(m, H(), root, c, x, t, e, max, u, s);
    }

    /** Moves a node with two children to the place of its predecessor, where it can be cut out. */
    method MoveDown(node: nat, ghost c: Ctx, ghost t: Tree, ghost s: seq<nat>)
      returns (ghost e: Ctx, ghost ch: Tree, ghost k: nat)
      requires At(m, H(), root, c, node, t, s) && Once(s) && Local(H(), s, root)
      requires node < arena.Length && 0 <= arena[node].child0 < arena.Length
      modifies this, arena
      ensures CutReady(m, H(), root, e, node, ch)
      ensures RemovedAt(s, Pre(e) + InOrder(ch) + Post(e), k, node)
      ensures KeepsRest(old(H()), H(), s)
    {
      hide Rep, InOrder, Pre, Post, At, MaxWalk, Local, CutReady, RenCtx, Swapped, Once, RemovedAt;
      ghost var h, root0 := H(), root;
      var max;
      ghost var d, u;
      max, d, u := SubtreeMax(arena[node].child0, c, node, t, s);
      SwapReady(m, h, root, c, node, t, d, max, u, s);
      SwapRoot(m, h, root, c, node, t, d, max, u, s);
      SwapForRemove(node, max, s);
      CutSwapped(m, h, H(), root0, c, node, t, d, max, u, s);
      e, ch, k := RenCtx(node, max, d), u.left, |Pre(d)| + |InOrder(u.left)| + 1;
      RemovedIntro(s, Pre(e) + InOrder(ch) + Post(e), k, node);
    }

    /** Removes `node`: the sequence loses exactly that position. */
    method Remove(node: nat) returns (ghost k: nat)
      requires Valid() && node in Contents()
      modifies this, arena
      ensures Valid() && RemovedAt(old(Contents()), Contents(), k, node)
      ensures KeepsRest(old(H()), H(), old(Contents()))
    {
      ghost var h, s := H(), Contents();
      ghost var c, t := LocateTop(m, h, root, tree, node);
      RepLocal(m, h, root, NULL, tree);
      hide Rep, InOrder, Pre, Post, Once, RemovedAt, Local, At, CutReady;
      AtLinks(m, h, root, c, node, t, s);
      if arena[node].child0 != NULL && arena[node].child1 != NULL {
        ghost var e, ch;
        e, ch, k := MoveDown(node, c, t, s);
        ghost var h1 := H();
        CutNode(node, e, ch, s, k);
        KeepsRestTrans(h, h1, H(), s);
      } else {
        k := CutHere(node, c, t, s);
      }
    }

    /** Removes a located node that has at most one child. */
    method CutHere(node: nat, ghost c: Ctx, ghost t: Tree, ghost s: seq<nat>) returns (ghost k: nat)
      requires Lawful(m) && At(m, H(), root, c, node, t, s) && Once(s) && |s| <= countMax && node < arena.Length
      requires arena[node].child0 == NULL || arena[node].child1 == NULL
      modifies this, arena
      ensures Valid() && RemovedAt(s, Contents(), k, node) && KeepsRest(old(H()), H(), s)
    {
      hide Rep, InOrder, Pre, Post, Once, RemovedAt, At, CutReady;
      ghost var h := H();
      AtFacts0(m, h, root, c, node, t, s);
      CutDirect(m, h, root, c, node, t, s);
      k := |Pre(c)| + |InOrder(t.left)|;
      ghost var ch := if h[node].child0 != NULL then t.left else t.right;
      RemovedIntro(s, Pre(c) + InOrder(ch) + Post(c), k, node);
      CutNode(node, c, ch, s, k);
    }

    // ------------------------------------------------------------ lookups

    /** `kc` compares the wanted key with an entry. */
    method Lookup(kc: nat -> int) returns (r: Link)
      requires Valid() && Searchable(kc, Contents())
      ensures LookedUp(kc, Contents(), r)
      ensures r == NULL <==> Contents() == []
      ensures (exists x :: x in Contents() && kc(x) == 0) <==> (r in Contents() && kc(r) == 0)
    {
      hide Rep, InOrder, Pre, Post, At, Searchable, Narrowed, Once, LookedUp;
      ghost var s := Contents();
      if root == NULL {
        EmptyTree(m, H(), tree);
        LookupEnd(kc, s, NULL);
        return NULL;
      }
      AtRoot(m, H(), root, tree);
      NarrowedTop(kc);
      var c := root;
      ghost var up, t := Top, tree;
      while true
        invariant At(m, H(), root, up, c, t, s) && Narrowed(kc, up)
        decreases Size(t)
      {
        AtFacts(m, H(), root, up, c, t, s, kc);
        var comp := kc(c);
        if comp == 0 {
          LookupEnd(kc, s, c);
          return c;
        }
        var side := comp == 1;
        AtDown(m, H(), root, up, c, t, s, side);
        NarrowedDown(kc, up, t, side);
        if arena[c].Child(side) == NULL {
          SearchEnd(kc, up, t, side);
          DividesIntro(kc, s, |Pre(Down(up, t, side))|, c);
          LookupEnd(kc, s, c);
          return c;
        }
        c, up, t := arena[c].Child(side), Down(up, t, side), Child(t, side);
      }
    }

    method LookupExact(kc: nat -> int) returns (r: Link)
      requires Valid() && Searchable(kc, Contents())
      ensures r == NULL <==> forall x :: x in Contents() ==> kc(x) != 0
      ensures r != NULL ==> r in Contents() && kc(r) == 0
    {
      hide Rep, InOrder, Pre, Post, At, Searchable, Narrowed, Once;
      ghost var s := Contents();
      if root == NULL {
        EmptyTree(m, H(), tree);
        return NULL;
      }
      AtRoot(m, H(), root, tree);
      NarrowedTop(kc);
      var c := root;
      ghost var up, t := Top, tree;
      while true
        invariant At(m, H(), root, up, c, t, s) && Narrowed(kc, up)
        decreases Size(t)
      {
        AtFacts(m, H(), root, up, c, t, s, kc);
        var comp := kc(c);
        if comp == 0 {
          return c;
        }
        var side := comp == 1;
        AtDown(m, H(), root, up, c, t, s, side);
        NarrowedDown(kc, up, t, side);
        if arena[c].Child(side) == NULL {
          SearchEnd(kc, up, t, side);
          NotEqual(kc, s, |Pre(Down(up, t, side))|);
          return NULL;
        }
        c, up, t := arena[c].Child(side), Down(up, t, side), Child(t, side);
      }
    }

    // ------------------------------------------------------------ neighbours

    /** The last node on the way from `n` along children at `side`. */
    method SubtreeEnd(n: nat, side: bool, ghost c: Ctx, ghost t: Tree, ghost s: seq<nat>)
      returns (r: nat, ghost d: Ctx, ghost u: Tree)
      requires At(m, H(), root, c, n, t, s)
      ensures r < arena.Length && At(m, H(), root, d, r, u, s) && Child(u, side) == Leaf
      ensures if side then Post(d) == Post(c) else Pre(d) == Pre(c)
    {
      hide Rep, InOrder, Pre, Post, At;
      r, d, u := n, c, t;
      AtDown(m, H(), root, d, r, u, s, side);
      while arena[r].Child(side) != NULL
        invariant r < arena.Length && At(m, H(), root, d, r, u, s)
        invariant u.Node? && (arena[r].Child(side) == NULL <==> Child(u, side) == Leaf)
        invariant if side then Post(d) == Post(c) else Pre(d) == Pre(c)
        decreases Size(u)
      {
        AtDown(m, H(), root, d, r, u, s, side);
        DownSame(d, u, side);
        r, d, u := arena[r].Child(side), Down(d, u, side), Child(u, side);
        AtDown(m, H(), root, d, r, u, s, side);
      }
    }

    method GetFirst() returns (r: Link)
      requires Valid()
      ensures r == LinkAt(Contents(), 0)
    {
      if root == NULL {
        EmptyTree(m, H(), tree);
        return NULL;
      }
      AtRoot(m, H(), root, tree);
      AtFacts0(m, H(), root, Top, root, tree, Contents());
      ghost var d, u;
      r, d, u := SubtreeEnd(root, false, Top, tree, Contents());
      AtIndex(m, H(), root, d, r, u, Contents());
    }

    method GetLast() returns (r: Link)
      requires Valid()
      ensures r == LinkAt(Contents(), |Contents()| - 1)
    {
      if root == NULL {
        EmptyTree(m, H(), tree);
        return NULL;
      }
      AtRoot(m, H(), root, tree);
      AtFacts0(m, H(), root, Top, root, tree, Contents());
      ghost var d, u;
      r, d, u := SubtreeEnd(root, true, Top, tree, Contents());
      AtIndex(m, H(), root, d, r, u, Contents());
    }

    method GetNext(node: nat) returns (r: Link)
      requires Valid() && node in Contents()
      ensures forall k :: 0 <= k < |Contents()| && Contents()[k] == node ==> r == LinkAt(Contents(), k + 1)
    {
      ghost var c, t := LocateTop(m, H(), root, tree, node);
      hide Rep, InOrder, Pre, Post, At, Once;
      AtFacts0(m, H(), root, c, node, t, Contents());
      AtIndex(m, H(), root, c, node, t, Contents());
      r := NextOf(node, c, t, Contents());
      OnlyPlace(Contents(), |Pre(c)| + |InOrder(t.left)|, node);
    }

    /** The node behind a located one. */
    method NextOf(node: nat, ghost c: Ctx, ghost t: Tree, ghost s: seq<nat>) returns (r: Link)
      requires At(m, H(), root, c, node, t, s) && Once(s) && node < arena.Length && t.Node?
      ensures r == LinkAt(s, |Pre(c)| + |InOrder(t.left)| + 1)
    {
      hide Rep, InOrder, Pre, Post, At, Once;
      AtIndex(m, H(), root, c, node, t, s);
      AtDown(m, H(), root, c, node, t, s, true);
      LeafInOrder();
      if arena[node].child1 != NULL {
        DownIndex(c, t, true);
        ghost var d, u;
        r, d, u := SubtreeEnd(arena[node].child1, false, Down(c, t, true), t.right, s);
        AtFacts0(m, H(), root, d, r, u, s);
        AtIndex(m, H(), root, d, r, u, s);
      } else {
        r := NextAbove(node, c, t, s);
      }
    }

    /** The first node behind the subtree of `node`: up as long as it is the right one. */
    method NextAbove(node: nat, ghost c0: Ctx, ghost t0: Tree, ghost s: seq<nat>) returns (r: Link)
      requires At(m, H(), root, c0, node, t0, s) && Once(s)
      ensures r == LinkAt(s, |Pre(c0)| + |InOrder(t0)|)
    {
      hide Rep, InOrder, Pre, Post, At, Once;
      var n := node;
      ghost var c, t := c0, t0;
      AtUp(m, H(), root, c, n, t, s);
      while true
        invariant n < arena.Length && At(m, H(), root, c, n, t, s) && |Pre(c)| + |InOrder(t)| == |Pre(c0)| + |InOrder(t0)|
        decreases Depth(c)
      {
        AtUp(m, H(), root, c, n, t, s);
        if arena[n].parent == NULL {
          break;
        }
        AtSide(m, H(), root, c, n, t, s);
        if !(n == arena[arena[n].parent].child1) {
          break;
        }
        UpIndex(c, t);
        n, c, t := arena[n].parent, c.up, Mk(c.side, t, c.id, c.sib);
      }
      AtNeighbour(m, H(), root, c, n, t, s);
      r := arena[n].parent;
    }

    method GetPrev(node: nat) returns (r: Link)
      requires Valid() && node in Contents()
      ensures forall k :: 0 <= k < |Contents()| && Contents()[k] == node ==> r == LinkAt(Contents(), k - 1)
    {
      ghost var c, t := LocateTop(m, H(), root, tree, node);
      hide Rep, InOrder, Pre, Post, At, Once;
      AtFacts0(m, H(), root, c, node, t, Contents());
      AtIndex(m, H(), root, c, node, t, Contents());
      r := PrevOf(node, c, t, Contents());
      OnlyPlace(Contents(), |Pre(c)| + |InOrder(t.left)|, node);
    }

    /** The node before a located one. */
    method PrevOf(node: nat, ghost c: Ctx, ghost t: Tree, ghost s: seq<nat>) returns (r: Link)
      requires At(m, H(), root, c, node, t, s) && Once(s) && node < arena.Length && t.Node?
      ensures r == LinkAt(s, |Pre(c)| + |InOrder(t.left)| - 1)
    {
      hide Rep, InOrder, Pre, Post, At, Once;
      AtIndex(m, H(), root, c, node, t, s);
      AtDown(m, H(), root, c, node, t, s, false);
      LeafInOrder();
      if arena[node].child0 != NULL {
        DownIndex(c, t, false);
        PostLength(c, t);
        ghost var d, u;
        r, d, u := SubtreeEnd(arena[node].child0, true, Down(c, t, false), t.left, s);
        AtFacts0(m, H(), root, d, r, u, s);
        AtIndex(m, H(), root, d, r, u, s);
      } else {
        r := PrevAbove(node, c, t, s);
      }
    }

    /** The last node before the subtree of `node`: up as long as it is the left one. */
    method PrevAbove(node: nat, ghost c0: Ctx, ghost t0: Tree, ghost s: seq<nat>) returns (r: Link)
      requires At(m, H(), root, c0, node, t0, s) && Once(s)
      ensures r == LinkAt(s, |Pre(c0)| - 1)
    {
      hide Rep, InOrder, Pre, Post, At, Once;
      var n := node;
      ghost var c, t := c0, t0;
      AtUp(m, H(), root, c, n, t, s);
      while true
        invariant n < arena.Length && At(m, H(), root, c, n, t, s) && |Pre(c)| == |Pre(c0)|
        decreases Depth(c)
      {
        AtUp(m, H(), root, c, n, t, s);
        if arena[n].parent == NULL {
          break;
        }
        AtSide(m, H(), root, c, n, t, s);
        if !(n == arena[arena[n].parent].child0) {
          break;
        }
        UpIndex(c, t);
        n, c, t := arena[n].parent, c.up, Mk(c.side, t, c.id, c.sib);
      }
      AtNeighbour(m, H(), root, c, n, t, s);
      AtIndex(m, H(), root, c, n, t, s);
      r := arena[n].parent;
    }

    method GetFirstGreater(kc: nat -> int) returns (r: Link)
      requires Valid() && Searchable(kc, Contents())
      ensures FirstBelow(kc, Contents(), 0, r)
    {
      hide Rep, InOrder, Searchable, Once;
      r := Lookup(kc);
      if r == NULL {
        EmptyBounds(kc);
        return;
      }
      ghost var j := PlaceOf(Contents(), r);
      BoundPlace(kc, Contents(), r, j, 0);
      ghost var k: int := if kc(r) >= 0 then j + 1 else j;
      if kc(r) >= 0 {
        r := GetNext(r);
      }
      assert r == LinkAt(Contents(), k);
      assert r != NULL ==> kc(r) < 0;
    }

    method GetLastLesser(kc: nat -> int) returns (r: Link)
      requires Valid() && Searchable(kc, Contents())
      ensures LastAtLeast(kc, Contents(), 1, r)
    {
      hide Rep, InOrder, Searchable, Once;
      r := Lookup(kc);
      if r == NULL {
        EmptyBounds(kc);
        return;
      }
      ghost var j := PlaceOf(Contents(), r);
      BoundPlace(kc, Contents(), r, j, 1);
      ghost var k: int := if kc(r) >= 1 then j as int else j as int - 1;
      if kc(r) <= 0 {
        r := GetPrev(r);
      }
      assert r == LinkAt(Contents(), k);
      assert r != NULL ==> kc(r) > 0;
    }

    method GetFirstGreaterEqual(kc: nat -> int) returns (r: Link)
      requires Valid() && Searchable(kc, Contents())
      ensures FirstBelow(kc, Contents(), 1, r)
    {
      hide Rep, InOrder, Searchable, Once;
      r := Lookup(kc);
      if r == NULL {
        EmptyBounds(kc);
        return;
      }
      ghost var j := PlaceOf(Contents(), r);
      BoundPlace(kc, Contents(), r, j, 1);
      ghost var k: int := if kc(r) >= 1 then j + 1 else j;
      if kc(r) > 0 {
        r := GetNext(r);
      }
      assert r == LinkAt(Contents(), k);
      assert r != NULL ==> kc(r) <= 0;
    }

    method GetLastLesserEqual(kc: nat -> int) returns (r: Link)
      requires Valid() && Searchable(kc, Contents())
      ensures LastAtLeast(kc, Contents(), 0, r)
    {
      hide Rep, InOrder, Searchable, Once;
      r := Lookup(kc);
      if r == NULL {
        EmptyBounds(kc);
        return;
      }
      ghost var j := PlaceOf(Contents(), r);
      BoundPlace(kc, Contents(), r, j, 0);
      ghost var k: int := if kc(r) >= 0 then j as int else j as int - 1;
      if kc(r) < 0 {
        r := GetPrev(r);
      }
      assert r == LinkAt(Contents(), k);
      assert r != NULL ==> kc(r) >= 0;
    }

    method IsEmpty() returns (b: bool)
      requires Valid()
      ensures b <==> Contents() == []
    {
      b := root == NULL;
    }

    // ------------------------------------------------------------ positions

    method Count() returns (n: int)
      requires Valid()
      ensures n == |Contents()| && 0 <= n <= countMax
    {
      n := if root != NULL then arena[root].count else 0;
    }

    method IndexOf(node: nat) returns (index: int)
      requires Valid() && node in Contents()
      ensures 0 <= index < |Contents()| && Contents()[index] == node
    {
      ghost var s := Contents();
      ghost var d, u := LocateTop(m, H(), root, tree, node);
      hide Rep, InOrder, Pre, Post, At, Once;
      AtFacts0(m, H(), root, d, node, u, s);
      AtIndex(m, H(), root, d, node, u, s);
      AtDown(m, H(), root, d, node, u, s, false);
      index := if arena[node].child0 != NULL then arena[arena[node].child0].count else 0;
      index := CountBefore(node, index, d, u, s);
    }

    /** Adds how many nodes stand before the subtree of `node`: the walk up to the root. */
    method CountBefore(node: nat, start: int, ghost d0: Ctx, ghost u0: Tree, ghost s: seq<nat>) returns (index: int)
      requires At(m, H(), root, d0, node, u0, s) && Once(s) && start + |Pre(d0)| <= countMax
      ensures index == start + |Pre(d0)|
    {
      hide Rep, InOrder, Pre, Post, At, Once;
      index := start;
      var c := node;
      ghost var d, u := d0, u0;
      AtUp(m, H(), root, d, c, u, s);
      var paren := arena[c].parent;
      while paren != NULL
        invariant c < arena.Length && At(m, H(), root, d, c, u, s)
        invariant index + |Pre(d)| == start + |Pre(d0)| && paren == arena[c].parent
        decreases Depth(d)
      {
        IndexStep(m, H(), root, d, c, u, s);
        if c == arena[paren].child1 {
          assert arena[paren].count > arena[c].count;
          assert arena[paren].count - arena[c].count <= countMax - index;
          index := index + (arena[paren].count - arena[c].count);
        }
        c, d, u := paren, d.up, Mk(d.side, u, d.id, d.sib);
        AtUp(m, H(), root, d, c, u, s);
        paren := arena[c].parent;
      }
      AtUp(m, H(), root, d, c, u, s);
      AtNeighbour(m, H(), root, d, c, u, s);
    }

    method GetAt(index: nat) returns (r: Link)
      requires Valid()
      ensures r == LinkAt(Contents(), index)
    {
      hide Rep, InOrder, Pre, Post, At;
      ghost var s := Contents();
      var n := Count();
      if index >= n {
        return NULL;
      }
      AtWhole(m, H(), root, tree);
      var c, left := root, index;
      ghost var d, u := Top, tree;
      while true
        invariant At(m, H(), root, d, c, u, s)
        invariant 0 <= left < |InOrder(u)| && |Pre(d)| + left == index
        decreases Size(u)
      {
        AtFacts0(m, H(), root, d, c, u, s);
        AtIndex(m, H(), root, d, c, u, s);
        AtDown(m, H(), root, d, c, u, s, false);
        AtDown(m, H(), root, d, c, u, s, true);
        LeafInOrder();
        AtCount(m, H(), root, d, c, u, s);
        assert left < arena[c].count;
        var leftCount := if arena[c].child0 != NULL then arena[arena[c].child0].count else 0;
        if left == leftCount {
          return c;
        }
        DownIndex(d, u, left > leftCount);
        if left < leftCount {
          c, d, u := arena[c].child0, Down(d, u, false), u.left;
        } else {
          c, d, u := arena[c].child1, Down(d, u, true), u.right;
          left := left - (leftCount + 1);
        }
      }
    }

    // ------------------------------------------------------------ aggregates

    method AssocSum() returns (a: A)
      requires Valid()
      ensures a == Sum(m, Contents())
    {
      a := if root == NULL then m.zero else arena[root].assoc;
    }

    /** The product of everything before `node`, in order. */
    method ExclusiveAssocPrefixSum(node: nat) returns (sum: A)
      requires Valid() && node in Contents()
      ensures forall k :: 0 <= k < |Contents()| && Contents()[k] == node ==> sum == Sum(m, Contents()[..k])
    {
      hide Rep, InOrder, Pre, Post, At, Lawful, Sum, Once;
      ghost var s := Contents();
      ghost var d, u := LocateTop(m, H(), root, tree, node);
      AtFacts0(m, H(), root, d, node, u, s);
      AtIndex(m, H(), root, d, node, u, s);
      AtPrefix(m, H(), root, d, node, u, s);
      ghost var j := |Pre(d)| + |InOrder(u.left)|;
      OnlyPlace(s, j, node);
      ghost var seen := InOrder(u.left);
      LinkSum(m, H(), arena[node].child0, seen);
      sum := if arena[node].child0 != NULL then arena[arena[node].child0].assoc else m.zero;
      var c := node;
      AtUp(m, H(), root, d, c, u, s);
      var paren := arena[c].parent;
      while paren != NULL
        invariant c < arena.Length && At(m, H(), root, d, c, u, s)
        invariant Pre(d) + seen == s[..j] && sum == Sum(m, seen) && paren == arena[c].parent
        decreases Depth(d)
      {
        AtUp(m, H(), root, d, c, u, s);
        AtSide(m, H(), root, d, c, u, s);
        if c == arena[paren].child1 {
          PrefixStep(m, H(), d, arena[paren].child0, seen, sum);
          var cVal := m.value(paren);
          sum := m.oper(cVal, sum);
          if arena[paren].child0 != NULL {
            sum := m.oper(arena[arena[paren].child0].assoc, sum);
          }
          seen := InOrder(d.sib) + [d.id] + seen;
        } else {
          PreLeft(d);
        }
        c, d, u := paren, d.up, Mk(d.side, u, d.id, d.sib);
        AtUp(m, H(), root, d, c, u, s);
        paren := arena[c].parent;
      }
      AtUp(m, H(), root, d, c, u, s);
      AtNeighbour(m, H(), root, d, c, u, s);
      assert [] + seen == seen;
    }

    /** The last node whose exclusive prefix is not beyond what `less` accepts; `less(p)` says
        that the wanted sum is less than `p`. */
    method FindLastExclusiveAssocPrefixSumLesserEqual(less: A -> bool) returns (result: Link)
      requires Valid() && PrefixMonotone(m, Contents(), less)
      ensures exists k :: LastPrefix(m, Contents(), less, k) && result == LinkAt(Contents(), k)
    {
      hide Rep, InOrder, Pre, Post, At, Lawful, Sum, PrefixMonotone, Searching;
      ghost var s := Contents();
      result := NULL;
      var c := root;
      var sumOffset := m.zero;
      ghost var d, u := Top, tree;
      SearchingStart(m, H(), root, tree, less);
      while c != NULL
        invariant Searching(m, H(), root, d, c, u, s, less) && sumOffset == Sum(m, Pre(d))
        invariant result == LinkAt(s, |Pre(d)| - 1)
        decreases Size(u)
      {
        SearchingStep(m, H(), root, d, c, u, s, less);
        var leftSum := if arena[c].child0 != NULL then arena[arena[c].child0].assoc else m.zero;
        var cPrefixSum := m.oper(sumOffset, leftSum);
        if less(cPrefixSum) {
          c, d, u := arena[c].child0, Down(d, u, false), u.left;
        } else {
          result := c;
          var cVal := m.value(c);
          sumOffset := m.oper(cPrefixSum, cVal);
          c, d, u := arena[c].child1, Down(d, u, true), u.right;
        }
      }
      SearchingEnd(m, H(), root, d, u, s, less);
      assert LastPrefix(m, Contents(), less, |Pre(d)| - 1);
    }
  }
}
