/** Rotations and the climb towards the root, on arenas as values: what a height change in one place
    does to the nodes above it. */
module AvlRotation {
  import opened AvlTheory
  import opened Sequences

  /** What a link contributes to the count and aggregate of the node above it. */
  ghost predicate AugLink<A>(m: Monoid<A>, h: Heap<A>, l: Link, s: seq<nat>) {
    if l == NULL then s == [] else 0 <= l < |h| && NodeAug(m, h[l], s)
  }

  predicate ValidLink<A>(h: Heap<A>, l: Link) {
    l == NULL || 0 <= l < |h|
  }

  function CountOf<A>(h: Heap<A>, l: Link): int
    requires ValidLink(h, l)
  {
    if l == NULL then 0 else h[l].count
  }

  /** The aggregate of a node computed from the stored aggregates of its children. */
  function NodeAssoc<A>(m: Monoid<A>, h: Heap<A>, i: nat): A
    requires i < |h| && ValidLink(h, h[i].child0) && ValidLink(h, h[i].child1)
  {
    var v := m.value(i);
    var v0 := if h[i].child0 == NULL then v else m.oper(h[h[i].child0].assoc, v);
    if h[i].child1 == NULL then v0 else m.oper(v0, h[h[i].child1].assoc)
  }

  /** The computed aggregate is the in-order product, whatever the operation. */
  lemma NodeAssocSum<A(!new)>(m: Monoid<A>, h: Heap<A>, i: nat, s0: seq<nat>, s1: seq<nat>)
    requires Lawful(m) && i < |h|
    requires AugLink(m, h, h[i].child0, s0) && AugLink(m, h, h[i].child1, s1)
    ensures NodeAssoc(m, h, i) == Sum(m, s0 + [i] + s1)
  {
    SumConcat(m, s0 + [i], s1);
    SumConcat(m, s0, [i]);
    SumSingle(m, i);
    assert UnitAt(m, m.value(i));
    assert UnitAt(m, Sum(m, s0 + [i]));
  }

  lemma RepAug<A>(m: Monoid<A>, h: Heap<A>, l: Link, p: Link, t: Tree)
    requires Rep(m, h, l, p, t)
    ensures AugLink(m, h, l, InOrder(t)) && ValidLink(h, l)
  {
  }

  /** The children of a node give it the count and aggregate of `Around`. */
  lemma NodeAugFromChildren<A(!new)>(m: Monoid<A>, h: Heap<A>, i: nat, side: bool, s: seq<nat>, sib: Tree)
    requires Lawful(m) && i < |h|
    requires AugLink(m, h, h[i].Child(side), s) && AugLink(m, h, h[i].Child(!side), InOrder(sib))
    ensures NodeAssoc(m, h, i) == Sum(m, Around(side, s, i, sib))
    ensures 1 + CountOf(h, h[i].child0) + CountOf(h, h[i].child1) == |Around(side, s, i, sib)|
  {
    if side {
      NodeAssocSum(m, h, i, InOrder(sib), s);
    } else {
      NodeAssocSum(m, h, i, s, InOrder(sib));
    }
  }

  /** The links a rotation follows are in the arena and lead to different nodes. */
  ghost predicate Turnable<A>(h: Heap<A>, r: nat, dir: bool, p: Link) {
    && r < |h| && 0 <= h[r].Child(!dir) < |h| && ValidLink(h, p)
    && var nr := h[r].Child(!dir);
      && var a, b, d := h[r].Child(dir), h[nr].Child(dir), h[nr].Child(!dir);
      && ValidLink(h, a) && ValidLink(h, b) && ValidLink(h, d)
      && r != nr && r != b && nr != b && p != r && p != nr
      && (b != NULL ==> p != b) && a != nr && a != r && d != nr && d != r
  }

  /** What one rotation does to the arena, entry by entry. */
  ghost predicate Rotated<A>(m: Monoid<A>, h: Heap<A>, g: Heap<A>, r: nat, dir: bool, p: Link)
    requires r < |h| && 0 <= h[r].Child(!dir) < |h|
  {
    var nr := h[r].Child(!dir);
    var a, b, d := h[r].Child(dir), h[nr].Child(dir), h[nr].Child(!dir);
    && |g| == |h|
    && ValidLink(h, a) && ValidLink(h, b) && ValidLink(h, d)
    && g[r].parent == nr && g[r].Child(dir) == a && g[r].Child(!dir) == b && g[r].balance == h[r].balance
    && ValidLink(g, a) && ValidLink(g, b)
    && g[r].count == 1 + CountOf(h, a) + CountOf(h, b) && g[r].assoc == NodeAssoc(m, g, r)
    && g[nr].parent == p && g[nr].Child(dir) == r && g[nr].Child(!dir) == d && g[nr].balance == h[nr].balance
    && g[nr].count == 1 + g[r].count + CountOf(h, d) && g[nr].assoc == NodeAssoc(m, g, nr)
    && (forall i :: 0 <= i < |h| && i != r && i != nr && i != b && i != p ==> g[i] == h[i])
    && (b != NULL ==> g[b] == h[b].(parent := r))
    && (p != NULL ==> 0 <= p < |h| && g[p] == h[p].SetChild(r == h[p].child1, nr))
  }

  /** The link changes alone. */
  ghost predicate Turned<A>(h: Heap<A>, k: Heap<A>, r: nat, dir: bool, p: Link)
    requires r < |h| && 0 <= h[r].Child(!dir) < |h|
  {
    var nr := h[r].Child(!dir);
    var b := h[nr].Child(dir);
    && |k| == |h| && ValidLink(h, b)
    && k[r] == h[r].SetChild(!dir, b).(parent := nr)
    && k[nr] == h[nr].SetChild(dir, r).(parent := p)
    && (forall i :: 0 <= i < |h| && i != r && i != nr && i != b && i != p ==> k[i] == h[i])
    && (b != NULL ==> k[b] == h[b].(parent := r))
    && (p != NULL ==> 0 <= p < |h| && k[p] == h[p].SetChild(r == h[p].child1, nr))
  }

  /** The counts and aggregates of two nodes are recomputed, first those of `r`. */
  ghost predicate Recounted<A>(m: Monoid<A>, k: Heap<A>, g: Heap<A>, r: nat, nr: nat) {
    && |g| == |k| && r < |k| && nr < |k| && r != nr
    && ValidLink(k, k[r].child0) && ValidLink(k, k[r].child1) && ValidLink(k, k[nr].child0) && ValidLink(k, k[nr].child1)
    && (forall i :: 0 <= i < |k| && i != r && i != nr ==> g[i] == k[i])
    && g[r] == k[r].(count := g[r].count, assoc := g[r].assoc)
    && g[nr] == k[nr].(count := g[nr].count, assoc := g[nr].assoc)
    && g[r].count == 1 + CountOf(k, k[r].child0) + CountOf(k, k[r].child1)
    && var k1 := k[r := k[r].(count := g[r].count)];
      && g[nr].count == 1 + CountOf(k1, k1[nr].child0) + CountOf(k1, k1[nr].child1)
      && var k2 := k1[nr := k1[nr].(count := g[nr].count)];
        && g[r].assoc == NodeAssoc(m, k2, r)
        && g[nr].assoc == NodeAssoc(m, k2[r := k2[r].(assoc := g[r].assoc)], nr)
  }

  lemma TurnedRecounted<A>(m: Monoid<A>, h: Heap<A>, k: Heap<A>, g: Heap<A>, r: nat, dir: bool, p: Link)
    requires r < |h| && 0 <= h[r].Child(!dir) < |h| && Turned(h, k, r, dir, p) && Recounted(m, k, g, r, h[r].Child(!dir))
    requires var nr := h[r].Child(!dir);
      && var a, b, d := h[r].Child(dir), h[nr].Child(dir), h[nr].Child(!dir);
      && r != b && nr != b && p != r && p != nr && (b != NULL ==> p != b) && a != nr && a != r && d != nr && d != r
    ensures Rotated(m, h, g, r, dir, p)
  {
  }

  /** The subtrees below a node and its child, before a rotation. */
  ghost predicate Grip<A>(m: Monoid<A>, h: Heap<A>, node: nat, bside: bool, x: Tree, y: Tree, z: Tree) {
    && node < |h| && 0 <= h[node].Child(bside) < |h|
    && var child := h[node].Child(bside);
      && h[child].parent == node
      && Rep(m, h, h[node].Child(!bside), node, x)
      && Rep(m, h, h[child].Child(!bside), child, y)
      && Rep(m, h, h[child].Child(bside), child, z)
      && Once(InOrder(Mk(bside, Mk(bside, z, child, y), node, x)))
  }

  function Single(bside: bool, x: Tree, y: Tree, z: Tree, node: nat, child: nat): Tree {
    Mk(bside, z, child, Mk(bside, y, node, x))
  }

  function Double(bside: bool, x: Tree, y1: Tree, y2: Tree, z: Tree, node: nat, child: nat, g: nat): Tree {
    Mk(bside, Mk(bside, z, child, y2), g, Mk(bside, y1, node, x))
  }

  lemma GripParts<A>(m: Monoid<A>, h: Heap<A>, node: nat, bside: bool, x: Tree, y: Tree, z: Tree)
    requires Grip(m, h, node, bside, x, y, z)
    ensures var child := h[node].Child(bside);
      && Once(InOrder(x)) && Once(InOrder(y)) && Once(InOrder(z))
      && child != node
      && node !in InOrder(x) && node !in InOrder(y) && node !in InOrder(z)
      && child !in InOrder(x) && child !in InOrder(y) && child !in InOrder(z)
      && (forall i :: i in InOrder(x) ==> i !in InOrder(y) && i !in InOrder(z))
      && (forall i :: i in InOrder(y) ==> i !in InOrder(z))
  {
    var child := h[node].Child(bside);
    var inner := Mk(bside, z, child, y);
    if bside {
      DistinctSplit3(InOrder(x), [node], InOrder(inner));
      DistinctSplit3(InOrder(y), [child], InOrder(z));
    } else {
      DistinctSplit3(InOrder(inner), [node], InOrder(x));
      DistinctSplit3(InOrder(z), [child], InOrder(y));
    }
    assert node in [node] && child in [child] && child in InOrder(inner);
    forall i | i in InOrder(y) || i in InOrder(z) ensures i in InOrder(inner) {
    }
  }

  lemma SingleInOrder(bside: bool, x: Tree, y: Tree, z: Tree, node: nat, child: nat)
    ensures InOrder(Single(bside, x, y, z, node, child)) == InOrder(Mk(bside, Mk(bside, z, child, y), node, x))
  {
    if bside {
      assert InOrder(x) + [node] + (InOrder(y) + [child] + InOrder(z)) == (InOrder(x) + [node] + InOrder(y)) + [child] + InOrder(z);
    } else {
      assert InOrder(z) + [child] + (InOrder(y) + [node] + InOrder(x)) == (InOrder(z) + [child] + InOrder(y)) + [node] + InOrder(x);
    }
  }

  lemma DoubleInOrder(bside: bool, x: Tree, y1: Tree, y2: Tree, z: Tree, node: nat, child: nat, g: nat)
    ensures InOrder(Double(bside, x, y1, y2, z, node, child, g))
         == InOrder(Mk(bside, Mk(bside, z, child, Mk(bside, y2, g, y1)), node, x))
  {
    InOrderMk(bside, z, child, y2);
    InOrderMk(bside, y1, node, x);
    InOrderMk(bside, Mk(bside, z, child, y2), g, Mk(bside, y1, node, x));
    InOrderMk(bside, y2, g, y1);
    InOrderMk(bside, z, child, Mk(bside, y2, g, y1));
    InOrderMk(bside, Mk(bside, z, child, Mk(bside, y2, g, y1)), node, x);
    if bside {
      FourWay(InOrder(x), node, InOrder(y1), g, InOrder(y2), child, InOrder(z));
    } else {
      FourWay(InOrder(z), child, InOrder(y2), g, InOrder(y1), node, InOrder(x));
    }
  }

  lemma FourWay(a: seq<nat>, i: nat, b: seq<nat>, j: nat, c: seq<nat>, k: nat, d: seq<nat>)
    ensures (a + [i] + b) + [j] + (c + [k] + d) == a + [i] + ((b + [j] + c) + [k] + d)
    ensures (a + [i] + b) + [j] + (c + [k] + d) == (a + [i] + (b + [j] + c)) + [k] + d
  {
  }

  /** Two arenas that differ on two nodes only in their balance factors. */
  ghost predicate Rebal<A>(k: Heap<A>, g: Heap<A>, i: nat, bi: int, j: nat, bj: int) {
    && |g| == |k| && i < |k| && j < |k| && i != j
    && g == k[i := k[i].(balance := bi)][j := k[j].(balance := bj)]
  }

  /** A rotation leaves alone every subtree without the four nodes it writes to. */
  lemma RotatedElsewhere<A(!new)>(m: Monoid<A>, h: Heap<A>, k: Heap<A>, node: nat, dir: bool, p: Link, l: Link, q: Link, t: Tree)
    requires node < |h| && 0 <= h[node].Child(!dir) < |h| && Rotated(m, h, k, node, dir, p)
    requires Rep(m, h, l, q, t)
    requires node !in InOrder(t) && h[node].Child(!dir) !in InOrder(t) && p !in InOrder(t)
    requires h[h[node].Child(!dir)].Child(dir) !in InOrder(t)
    ensures Rep(m, k, l, q, t)
  {
    assert Same(h, k, InOrder(t));
    RepSame(m, h, k, l, q, t);
  }

  /** The inner subtree changes hands. */
  lemma RotatedInner<A(!new)>(m: Monoid<A>, h: Heap<A>, k: Heap<A>, node: nat, dir: bool, p: Link, y: Tree)
    requires node < |h| && 0 <= h[node].Child(!dir) < |h| && Rotated(m, h, k, node, dir, p)
    requires Rep(m, h, h[h[node].Child(!dir)].Child(dir), h[node].Child(!dir), y) && Once(InOrder(y))
    requires node !in InOrder(y) && h[node].Child(!dir) !in InOrder(y) && p !in InOrder(y)
    ensures Rep(m, k, k[node].Child(!dir), node, y)
  {
    var b := h[h[node].Child(!dir)].Child(dir);
    RepLinkIn(m, h, b, h[node].Child(!dir), y);
    RepReparent(m, h, k, b, h[node].Child(!dir), node, y);
  }

  /** After a rotation the three subtrees are intact, under their new parents. */
  lemma RotatedSubtrees<A(!new)>(m: Monoid<A>, h: Heap<A>, k: Heap<A>, node: nat, p: Link, bside: bool,
                                 x: Tree, y: Tree, z: Tree)
    requires Grip(m, h, node, bside, x, y, z)
    requires Rotated(m, h, k, node, !bside, p)
    requires p !in InOrder(Mk(bside, Mk(bside, z, h[node].Child(bside), y), node, x))
    ensures var child := h[node].Child(bside);
      && child < |k| && node != child
      && Rep(m, k, k[node].Child(!bside), node, x)
      && Rep(m, k, k[node].Child(bside), node, y)
      && Rep(m, k, k[child].Child(bside), child, z)
  {
    var child := h[node].Child(bside);
    GripParts(m, h, node, bside, x, y, z);
    InOrderMember(bside, x, y, z, node, child);
    RepLinkIn(m, h, h[child].Child(!bside), child, y);
    RotatedElsewhere(m, h, k, node, !bside, p, h[node].Child(!bside), node, x);
    RotatedElsewhere(m, h, k, node, !bside, p, h[child].Child(bside), child, z);
    RotatedInner(m, h, k, node, !bside, p, y);
  }

  /** The root of a subtree is one of its nodes. */
  lemma RepLinkIn<A>(m: Monoid<A>, h: Heap<A>, l: Link, p: Link, t: Tree)
    requires Rep(m, h, l, p, t)
    ensures if t.Leaf? then l == NULL else 0 <= l < |h| && l == t.id && l in InOrder(t)
  {
  }

  /** A node whose children are right, and whose own fields are, heads a right subtree. */
  lemma MkRep<A(!new)>(m: Monoid<A>, g: Heap<A>, i: nat, p: Link, side: bool, t: Tree, sib: Tree)
    requires Lawful(m) && i < |g| && g[i].parent == p
    requires Rep(m, g, g[i].Child(side), i, t) && Rep(m, g, g[i].Child(!side), i, sib)
    requires if side then NodeBal(g[i], Height(sib), Height(t)) else NodeBal(g[i], Height(t), Height(sib))
    requires g[i].count == 1 + Weight(g, g[i].child0) + Weight(g, g[i].child1) && ValidLink(g, g[i].child0) && ValidLink(g, g[i].child1)
    requires g[i].assoc == NodeAssoc(m, g, i)
    ensures Rep(m, g, i, p, Mk(side, t, i, sib))
  {
    NodeAugFromChildren(m, g, i, side, InOrder(t), sib);
    InOrderMk(side, t, i, sib);
  }

  /** `CountOf`, defined on every link. */
  function Weight<A>(h: Heap<A>, l: Link): int {
    if 0 <= l < |h| then h[l].count else 0
  }

  /** Changing balance factors leaves every subtree without those nodes as it was. */
  lemma RebalSubtree<A>(m: Monoid<A>, k: Heap<A>, g: Heap<A>, i: nat, bi: int, j: nat, bj: int, l: Link, p: Link, t: Tree)
    requires Rebal(k, g, i, bi, j, bj) && Rep(m, k, l, p, t) && i !in InOrder(t) && j !in InOrder(t)
    ensures Rep(m, g, l, p, t)
  {
    RepSame(m, k, g, l, p, t);
  }

  /** A single rotation followed by setting the two balance factors. */
  lemma SingleRotation<A(!new)>(m: Monoid<A>, h: Heap<A>, k: Heap<A>, g: Heap<A>, node: nat, p: Link, bside: bool,
                                x: Tree, y: Tree, z: Tree, bn: int, bc: int)
    requires Lawful(m) && Grip(m, h, node, bside, x, y, z)
    requires Rotated(m, h, k, node, !bside, p)
    requires p !in InOrder(Mk(bside, Mk(bside, z, h[node].Child(bside), y), node, x))
    requires Rebal(k, g, node, bn, h[node].Child(bside), bc)
    requires -1 <= bn <= 1 && bn == if bside then Height(y) - Height(x) else Height(x) - Height(y)
    requires -1 <= bc <= 1 && bc == if bside then Height(z) - (1 + Max(Height(x), Height(y)))
                                             else (1 + Max(Height(x), Height(y))) - Height(z)
    ensures Rep(m, g, h[node].Child(bside), p, Single(bside, x, y, z, node, h[node].Child(bside)))
  {
    hide InOrder, Once, Height, Sum;
    var child := h[node].Child(bside);
    GripParts(m, h, node, bside, x, y, z);
    RotatedSubtrees(m, h, k, node, p, bside, x, y, z);
    RebalSubtree(m, k, g, node, bn, child, bc, k[node].Child(!bside), node, x);
    RebalSubtree(m, k, g, node, bn, child, bc, k[node].Child(bside), node, y);
    RebalSubtree(m, k, g, node, bn, child, bc, k[child].Child(bside), child, z);
    MkRep(m, g, node, child, bside, y, x);
    InOrderMk(bside, y, node, x);
    MkRep(m, g, child, p, bside, z, Mk(bside, y, node, x));
  }

  /** The four subtrees around a node, its child and its grandchild, with their links. */
  ghost predicate Four<A>(m: Monoid<A>, h: Heap<A>, node: nat, child: nat, g: nat, bside: bool,
                          x: Tree, y1: Tree, y2: Tree, z: Tree) {
    && node < |h| && child < |h| && g < |h| && node != child && node != g && child != g
    && var s := [node] + [child] + [g];
      && Once(InOrder(x)) && Once(InOrder(y1)) && Once(InOrder(y2)) && Once(InOrder(z))
      && Apart(InOrder(x), s) && Apart(InOrder(y1), s) && Apart(InOrder(y2), s) && Apart(InOrder(z), s)
      && Apart(InOrder(x), InOrder(y1)) && Apart(InOrder(x), InOrder(y2)) && Apart(InOrder(x), InOrder(z))
      && Apart(InOrder(y1), InOrder(y2)) && Apart(InOrder(y1), InOrder(z)) && Apart(InOrder(y2), InOrder(z))
  }

  ghost predicate Apart(a: seq<nat>, b: seq<nat>) {
    forall i :: i in a ==> i !in b
  }

  lemma RepSplit<A>(m: Monoid<A>, h: Heap<A>, l: Link, p: Link, side: bool, t: Tree, id: nat, sib: Tree)
    requires Rep(m, h, l, p, Mk(side, t, id, sib))
    ensures l == id && id < |h| && Rep(m, h, h[id].Child(side), id, t) && Rep(m, h, h[id].Child(!side), id, sib)
  {
  }

  /** The parts of a subtree without a node twice. */
  lemma MkParts(side: bool, t: Tree, id: nat, sib: Tree)
    requires Once(InOrder(Mk(side, t, id, sib)))
    ensures Once(InOrder(t)) && Once(InOrder(sib)) && id !in InOrder(t) && id !in InOrder(sib)
    ensures Apart(InOrder(sib), InOrder(t))
    ensures forall i :: i == id || i in InOrder(sib) || i in InOrder(t) ==> i in InOrder(Mk(side, t, id, sib))
  {
    hide Once;
    InOrderMk(side, t, id, sib);
    assert id in [id];
    if side {
      DistinctSplit3(InOrder(sib), [id], InOrder(t));
    } else {
      DistinctSplit3(InOrder(t), [id], InOrder(sib));
    }
    hide InOrder, Mk;
  }

  lemma FourFromGrip<A>(m: Monoid<A>, h: Heap<A>, node: nat, bside: bool, x: Tree, y1: Tree, g: nat, y2: Tree, z: Tree)
    requires Grip(m, h, node, bside, x, Mk(bside, y2, g, y1), z)
    ensures Four(m, h, node, h[node].Child(bside), g, bside, x, y1, y2, z)
    ensures Rep(m, h, h[g].Child(bside), g, y2) && Rep(m, h, h[g].Child(!bside), g, y1)
    ensures forall i :: i == g || i in InOrder(y1) || i in InOrder(y2) ==> i in InOrder(Mk(bside, y2, g, y1))
  {
    hide Rep, Once, InOrder, Mk;
    var child := h[node].Child(bside);
    RepSplit(m, h, h[child].Child(!bside), child, bside, y2, g, y1);
    GripParts(m, h, node, bside, x, Mk(bside, y2, g, y1), z);
    MkParts(bside, y2, g, y1);
    hide Grip;
    forall i | i in [node] + [child] + [g] ensures i !in InOrder(x) && i !in InOrder(y1) && i !in InOrder(y2) && i !in InOrder(z) {
    }
  }

  /** The links in the middle of a double rotation: the grandchild has replaced the child. */
  ghost predicate Middle<A>(m: Monoid<A>, k: Heap<A>, node: nat, child: nat, g: nat, bside: bool,
                            x: Tree, y1: Tree, y2: Tree, z: Tree)
    requires node < |k| && child < |k| && g < |k|
  {
    && k[node].Child(bside) == g && k[g].Child(bside) == child && k[child].parent == g
    && Rep(m, k, k[node].Child(!bside), node, x)
    && Rep(m, k, k[g].Child(!bside), g, y1)
    && Rep(m, k, k[child].Child(!bside), child, y2)
    && Rep(m, k, k[child].Child(bside), child, z)
    && k[child].count == 1 + Weight(k, k[child].child0) + Weight(k, k[child].child1)
    && ValidLink(k, k[child].child0) && ValidLink(k, k[child].child1)
    && k[child].assoc == NodeAssoc(m, k, child)
  }

  lemma DoubleFirst<A(!new)>(m: Monoid<A>, h: Heap<A>, k: Heap<A>, node: nat, child: nat, g: nat, bside: bool,
                             x: Tree, y1: Tree, y2: Tree, z: Tree)
    requires Grip(m, h, node, bside, x, Mk(bside, y2, g, y1), z) && child == h[node].Child(bside)
    requires Rotated(m, h, k, child, bside, node)
    ensures Four(m, h, node, child, g, bside, x, y1, y2, z) && |k| == |h| && Middle(m, k, node, child, g, bside, x, y1, y2, z)
  {
    FourFromGrip(m, h, node, bside, x, y1, g, y2, z);
    assert g in [g] && node in [node] && child in [child];
    RepLinkIn(m, h, h[g].Child(bside), g, y2);
    RepLinkIn(m, h, h[node].Child(!bside), node, x);
    RotatedElsewhere(m, h, k, child, bside, node, h[g].Child(!bside), g, y1);
    RotatedElsewhere(m, h, k, child, bside, node, h[child].Child(bside), child, z);
    RotatedInner(m, h, k, child, bside, node, y2);
    RepSameButParent(m, h, k, node, child, g, bside, x);
    RepAug(m, k, k[child].Child(!bside), child, y2);
    RepAug(m, k, k[child].Child(bside), child, z);
  }

  /** The first rotation of a double rotation writes only the inner child link of the node on top. */
  lemma RepSameButParent<A(!new)>(m: Monoid<A>, h: Heap<A>, k: Heap<A>, node: nat, child: nat, g: nat, bside: bool, x: Tree)
    requires node < |h| && child == h[node].Child(bside) && child < |h| && g == h[child].Child(!bside) && g < |h|
    requires Rotated(m, h, k, child, bside, node) && node != g && node != child
    requires Rep(m, h, h[node].Child(!bside), node, x)
    requires node !in InOrder(x) && child !in InOrder(x) && g !in InOrder(x) && h[g].Child(bside) !in InOrder(x)
    ensures k[node].Child(bside) == g && k[node].Child(!bside) == h[node].Child(!bside)
    ensures Rep(m, k, k[node].Child(!bside), node, x)
  {
    RepLinkIn(m, h, h[node].Child(!bside), node, x);
    RotatedElsewhere(m, h, k, child, bside, node, h[node].Child(!bside), node, x);
  }

  /** The links after both rotations. */
  ghost predicate Finished<A>(m: Monoid<A>, k: Heap<A>, node: nat, child: nat, g: nat, p: Link, bside: bool,
                              x: Tree, y1: Tree, y2: Tree, z: Tree)
    requires node < |k| && child < |k| && g < |k|
  {
    && k[g].parent == p && k[g].Child(bside) == child && k[g].Child(!bside) == node
    && k[node].parent == g && k[child].parent == g
    && Rep(m, k, k[node].Child(!bside), node, x)
    && Rep(m, k, k[node].Child(bside), node, y1)
    && Rep(m, k, k[child].Child(!bside), child, y2)
    && Rep(m, k, k[child].Child(bside), child, z)
    && OwnAug(m, k, node) && OwnAug(m, k, child) && OwnAug(m, k, g)
  }

  /** A node's count and aggregate are those computed from its children. */
  ghost predicate OwnAug<A>(m: Monoid<A>, k: Heap<A>, i: nat)
    requires i < |k|
  {
    && ValidLink(k, k[i].child0) && ValidLink(k, k[i].child1)
    && k[i].count == 1 + Weight(k, k[i].child0) + Weight(k, k[i].child1)
    && k[i].assoc == NodeAssoc(m, k, i)
  }

  lemma DoubleSecond<A(!new)>(m: Monoid<A>, h: Heap<A>, k: Heap<A>, node: nat, child: nat, g: nat, p: Link, bside: bool,
                              x: Tree, y1: Tree, y2: Tree, z: Tree)
    requires Four(m, h, node, child, g, bside, x, y1, y2, z) && Middle(m, h, node, child, g, bside, x, y1, y2, z)
    requires Rotated(m, h, k, node, !bside, p)
    requires p != node && p != child && p != g
    requires p !in InOrder(x) && p !in InOrder(y1) && p !in InOrder(y2) && p !in InOrder(z)
    ensures |k| == |h| && Finished(m, k, node, child, g, p, bside, x, y1, y2, z)
  {
    assert g in [g] && node in [node] && child in [child];
    RepLinkIn(m, h, h[g].Child(!bside), g, y1);
    RepLinkIn(m, h, h[node].Child(!bside), node, x);
    RepLinkIn(m, h, h[child].Child(!bside), child, y2);
    RepLinkIn(m, h, h[child].Child(bside), child, z);
    hide Rep, InOrder, Sum, Once;
    assert k[child] == h[child];
    RotatedElsewhere(m, h, k, node, !bside, p, h[node].Child(!bside), node, x);
    RotatedElsewhere(m, h, k, node, !bside, p, h[child].Child(!bside), child, y2);
    RotatedElsewhere(m, h, k, node, !bside, p, h[child].Child(bside), child, z);
    RotatedInner(m, h, k, node, !bside, p, y1);
    SameOwnAug(m, h, k, child);
    RotatedOwnAug(m, h, k, node, !bside, p, x, z);
  }

  /** The two rotated nodes carry the count and aggregate of their new children. */
  lemma RotatedOwnAug<A(!new)>(m: Monoid<A>, h: Heap<A>, k: Heap<A>, r: nat, dir: bool, p: Link, x: Tree, z: Tree)
    requires r < |h| && 0 <= h[r].Child(!dir) < |h| && Rotated(m, h, k, r, dir, p)
    requires var nr := h[r].Child(!dir);
      var a, b, d := h[r].Child(dir), h[nr].Child(dir), h[nr].Child(!dir);
      && a != r && a != nr && b != r && b != nr && d != r && d != nr && r != nr && p != r && p != nr
      && (a != NULL ==> a != p && a != b) && (b != NULL ==> b != p) && (d != NULL ==> d != p && d != b)
    ensures OwnAug(m, k, r) && OwnAug(m, k, h[r].Child(!dir))
  {
  }

  lemma SameOwnAug<A(!new)>(m: Monoid<A>, h: Heap<A>, k: Heap<A>, i: nat)
    requires i < |h| == |k| && OwnAug(m, h, i) && h[i].child0 == k[i].child0 && h[i].child1 == k[i].child1
    requires h[i].count == k[i].count && h[i].assoc == k[i].assoc
    requires forall l :: l == h[i].child0 || l == h[i].child1 ==> 0 <= l < |h| ==> h[l].count == k[l].count && h[l].assoc == k[l].assoc
    ensures OwnAug(m, k, i)
  {
  }

  /** Only balance factors differ, and only those of the three nodes. */
  ghost predicate OnlyBal<A>(k: Heap<A>, w: Heap<A>, node: nat, child: nat, g: nat) {
    && |w| == |k|
    && (forall i :: 0 <= i < |k| ==> w[i] == k[i].(balance := w[i].balance))
    && (forall i :: 0 <= i < |k| && i != node && i != child && i != g ==> w[i] == k[i])
  }

  lemma OnlyBalRep<A(!new)>(m: Monoid<A>, k: Heap<A>, w: Heap<A>, node: nat, child: nat, g: nat, l: Link, p: Link, t: Tree)
    requires OnlyBal(k, w, node, child, g) && Rep(m, k, l, p, t)
    requires node !in InOrder(t) && child !in InOrder(t) && g !in InOrder(t)
    ensures Rep(m, w, l, p, t)
  {
    RepSame(m, k, w, l, p, t);
  }

  lemma OnlyBalAug<A(!new)>(m: Monoid<A>, k: Heap<A>, w: Heap<A>, node: nat, child: nat, g: nat, i: nat)
    requires OnlyBal(k, w, node, child, g) && i < |k| && OwnAug(m, k, i)
    ensures OwnAug(m, w, i)
  {
    assert w[i] == k[i].(balance := w[i].balance);
    forall l | l == k[i].child0 || l == k[i].child1
      ensures 0 <= l < |k| ==> k[l].count == w[l].count && k[l].assoc == w[l].assoc
    {
      if 0 <= l < |k| {
        assert w[l] == k[l].(balance := w[l].balance);
      }
    }
  }

  /** Setting the balance factors keeps the links, counts and aggregates. */
  lemma FinishedRebal<A(!new)>(m: Monoid<A>, k: Heap<A>, w: Heap<A>, node: nat, child: nat, g: nat, p: Link, bside: bool,
                               x: Tree, y1: Tree, y2: Tree, z: Tree)
    requires Four(m, k, node, child, g, bside, x, y1, y2, z) && Finished(m, k, node, child, g, p, bside, x, y1, y2, z)
    requires OnlyBal(k, w, node, child, g)
    ensures Finished(m, w, node, child, g, p, bside, x, y1, y2, z)
  {
    assert g in [g] && node in [node] && child in [child];
    assert w[node] == k[node].(balance := w[node].balance);
    assert w[child] == k[child].(balance := w[child].balance);
    assert w[g] == k[g].(balance := w[g].balance);
    OnlyBalRep(m, k, w, node, child, g, k[node].Child(!bside), node, x);
    OnlyBalRep(m, k, w, node, child, g, k[node].Child(bside), node, y1);
    OnlyBalRep(m, k, w, node, child, g, k[child].Child(!bside), child, y2);
    OnlyBalRep(m, k, w, node, child, g, k[child].Child(bside), child, z);
    OnlyBalAug(m, k, w, node, child, g, node);
    OnlyBalAug(m, k, w, node, child, g, child);
    OnlyBalAug(m, k, w, node, child, g, g);
  }

  /** Two rotations followed by setting the three balance factors. */
  lemma DoubleRotation<A(!new)>(m: Monoid<A>, w: Heap<A>, node: nat, child: nat, g: nat, p: Link, bside: bool,
                                x: Tree, y1: Tree, y2: Tree, z: Tree)
    requires Lawful(m) && node < |w| && child < |w| && g < |w| && Finished(m, w, node, child, g, p, bside, x, y1, y2, z)
    requires var bn, bc := w[node].balance, w[child].balance;
      && -1 <= bn <= 1 && bn == (if bside then Height(y1) - Height(x) else Height(x) - Height(y1))
      && -1 <= bc <= 1 && bc == (if bside then Height(z) - Height(y2) else Height(y2) - Height(z))
    requires w[g].balance == 0 && Max(Height(x), Height(y1)) == Max(Height(z), Height(y2))
    ensures Rep(m, w, g, p, Double(bside, x, y1, y2, z, node, child, g))
  {
    MkRep(m, w, node, g, bside, y1, x);
    MkRep(m, w, child, g, bside, z, y2);
    InOrderMk(bside, y1, node, x);
    InOrderMk(bside, z, child, y2);
    MkRep(m, w, g, p, bside, Mk(bside, z, child, y2), Mk(bside, y1, node, x));
  }

  /** A rotation at the top of a hole keeps the path above it, apart from the link into the hole. */
  lemma RotatedCtx<A(!new)>(m: Monoid<A>, h: Heap<A>, k: Heap<A>, root: Link, root': Link, node: nat, dir: bool, p: Link, c: Ctx, s: seq<nat>)
    requires node < |h| && 0 <= h[node].Child(!dir) < |h| && Rotated(m, h, k, node, dir, p)
    requires CtxLinks(m, h, root, c, node, p) && Once(Pre(c) + s + Post(c))
    requires var nr := h[node].Child(!dir);
      && node in s && nr in s && (h[nr].Child(dir) != NULL ==> h[nr].Child(dir) in s)
      && root' == (if p == NULL then nr else root)
    ensures CtxLinks(m, k, root', c, h[node].Child(!dir), p)
    ensures SameBal(h, k, c) && SameAug(h, k, c)
  {
    DistinctSplit3(Pre(c), s, Post(c));
    if c.Frame? {
      CtxParts(c, s);
      HoleSide(m, h, root, c, node, p, s);
    }
    CtxNewHole(m, h, k, root, root', c, node, h[node].Child(!dir), p, s);
  }

  /** The C code finds the side of a hole by comparing with link[1]. */
  lemma HoleSide<A>(m: Monoid<A>, h: Heap<A>, root: Link, c: Ctx, l: nat, p: Link, s: seq<nat>)
    requires c.Frame? && CtxLinks(m, h, root, c, l, p) && Once(Pre(c) + s + Post(c)) && l in s
    ensures c.side <==> l == h[c.id].child1
  {
    CtxParts(c, s);
    RepLinkIn(m, h, h[c.id].Child(!c.side), c.id, c.sib);
  }

  /** Writing nodes outside a path leaves it as it was, in every respect. */
  lemma CtxUntouched<A(!new)>(m: Monoid<A>, h: Heap<A>, k: Heap<A>, root: Link, c: Ctx, l: Link, p: Link, hb: int, s: seq<nat>)
    requires SameCtx(h, k, c)
    ensures CtxLinks(m, h, root, c, l, p) ==> CtxLinks(m, k, root, c, l, p)
    ensures CtxBal(h, c, hb) ==> CtxBal(k, c, hb)
    ensures CtxAug(m, h, c, s) ==> CtxAug(m, k, c, s)
  {
    if CtxLinks(m, h, root, c, l, p) {
      CtxSame(m, h, k, root, c, l, p);
    }
    if CtxBal(h, c, hb) {
      CtxBalSame(h, k, c, hb);
    }
    if CtxAug(m, h, c, s) {
      CtxAugSame(m, h, k, c, s);
    }
  }

  // ---------------------------------------------------------------- the climb

  /** The state `CAvl_rebalance` is called in: the subtree `t` at `side` of `node` is right,
      and its height has changed by `delta` since the balance factors above it were right. */
  ghost predicate Pending<A>(m: Monoid<A>, h: Heap<A>, root: Link, node: nat, side: bool, delta: int, c: Ctx, sib: Tree, t: Tree) {
    var k := Height(t) - delta;
    var s := Around(side, InOrder(t), node, sib);
    && node < |h| && -1 <= delta <= 1 && 0 <= k
    && CtxLinks(m, h, root, c, node, h[node].parent)
    && CtxBal(h, c, 1 + Max(k, Height(sib)))
    && CtxAug(m, h, c, s)
    && Rep(m, h, h[node].Child(side), node, t)
    && Rep(m, h, h[node].Child(!side), node, sib)
    && NodeAug(m, h[node], s)
    && (if side then NodeBal(h[node], Height(sib), k) else NodeBal(h[node], k, Height(sib)))
    && Once(Pre(c) + s + Post(c))
  }

  /** Nothing is pending once the height has not changed. */
  lemma PendingDone<A(!new)>(m: Monoid<A>, h: Heap<A>, root: Link, node: nat, side: bool, c: Ctx, sib: Tree, t: Tree)
    requires Pending(m, h, root, node, side, 0, c, sib, t)
    ensures var w := Plug(c, Mk(side, t, node, sib));
      Rep(m, h, root, NULL, w) && InOrder(w) == Pre(c) + Around(side, InOrder(t), node, sib) + Post(c)
  {
    var u := Mk(side, t, node, sib);
    InOrderMk(side, t, node, sib);
    assert Rep(m, h, node, h[node].parent, u);
    PlugRep(m, h, root, c, node, h[node].parent, u);
    InOrderPlug(c, u);
  }

  /** A subtree `u` of a new height under a path that still expects the old height `k`. */
  ghost predicate Lifted<A>(m: Monoid<A>, h: Heap<A>, root: Link, l: nat, c: Ctx, u: Tree, k: int) {
    && l < |h|
    && Rep(m, h, l, h[l].parent, u)
    && CtxLinks(m, h, root, c, l, h[l].parent)
    && CtxBal(h, c, k)
    && CtxAug(m, h, c, InOrder(u))
    && Once(Pre(c) + InOrder(u) + Post(c))
  }

  /** The node nearest the hole, seen from a path that is right. */
  lemma CtxOpen<A>(m: Monoid<A>, h: Heap<A>, root: Link, c: Ctx, l: Link, p: Link, k: int, s: seq<nat>)
    requires c.Frame? && CtxLinks(m, h, root, c, l, p) && CtxBal(h, c, k) && CtxAug(m, h, c, s)
    ensures p == c.id && c.id < |h| && h[c.id].Child(c.side) == l
    ensures Rep(m, h, h[c.id].Child(!c.side), c.id, c.sib) && CtxLinks(m, h, root, c.up, c.id, h[c.id].parent)
    ensures if c.side then NodeBal(h[c.id], Height(c.sib), k) else NodeBal(h[c.id], k, Height(c.sib))
    ensures CtxBal(h, c.up, 1 + Max(k, Height(c.sib)))
    ensures NodeAug(m, h[c.id], Around(c.side, s, c.id, c.sib)) && CtxAug(m, h, c.up, Around(c.side, s, c.id, c.sib))
  {
  }

  /** The subtree in the hole has height `k + delta` where the path expects `k`: the node above
      the hole is to be told `delta`. */
  lemma HolePending<A(!new)>(m: Monoid<A>, h: Heap<A>, root: Link, c: Ctx, l: Link, p: Link, u: Tree, k: int)
    requires c.Frame? && CtxLinks(m, h, root, c, l, p) && CtxBal(h, c, k) && CtxAug(m, h, c, InOrder(u))
    requires Rep(m, h, l, p, u) && Once(Pre(c) + InOrder(u) + Post(c))
    requires -1 <= Height(u) - k <= 1 && 0 <= k
    ensures Pending(m, h, root, c.id, c.side, Height(u) - k, c.up, c.sib, u) && p == c.id
  {
    hide Pre, Post, InOrder, Once, Height, Sum, CtxLinks, CtxBal, CtxAug, Rep, Around, NodeAug, NodeBal;
    CtxOpen(m, h, root, c, l, p, k, InOrder(u));
    AroundWhole(c, InOrder(u));
    assert Height(u) - (Height(u) - k) == k;
  }

  /** One step of the climb: the height change of the subtree is what the node above is told. */
  lemma LiftedPending<A(!new)>(m: Monoid<A>, h: Heap<A>, root: Link, l: nat, c: Ctx, u: Tree, k: int)
    requires Lifted(m, h, root, l, c, u, k) && h[l].parent != NULL && -1 <= Height(u) - k <= 1 && 0 <= k
    ensures c.Frame? && Pending(m, h, root, c.id, c.side, Height(u) - k, c.up, c.sib, u)
    ensures h[l].parent == c.id && (c.side <==> l == h[c.id].child1)
  {
    assert c.Frame?;
    RepLinkIn(m, h, l, h[l].parent, u);
    hide Pre, Post, InOrder, Once, Height, Sum, Pending, CtxBal, CtxAug, CtxLinks, Rep;
    HolePending(m, h, root, c, l, h[l].parent, u, k);
    HoleSide(m, h, root, c, l, h[l].parent, InOrder(u));
  }

  lemma LiftedTop<A(!new)>(m: Monoid<A>, h: Heap<A>, root: Link, l: nat, c: Ctx, u: Tree, k: int)
    requires Lifted(m, h, root, l, c, u, k) && h[l].parent == NULL
    ensures c.Top? && Rep(m, h, root, NULL, u) && InOrder(u) == Pre(c) + InOrder(u) + Post(c)
  {
  }

  // ---------------------------------------------------------------- one level of rebalancing

  /** The path above `l` is right for a subtree of height `k` with in-order sequence `s`. */
  ghost predicate Hooked<A>(m: Monoid<A>, h: Heap<A>, root: Link, c: Ctx, l: Link, p: Link, k: int, s: seq<nat>) {
    CtxLinks(m, h, root, c, l, p) && CtxBal(h, c, k) && CtxAug(m, h, c, s) && Once(Pre(c) + s + Post(c))
  }

  /** The parent of a hole is not in the hole. */
  lemma HookedParent<A>(m: Monoid<A>, h: Heap<A>, root: Link, c: Ctx, l: Link, p: Link, k: int, s: seq<nat>)
    requires Hooked(m, h, root, c, l, p, k, s)
    ensures p !in s && ValidLink(h, p) && (p == NULL <==> c.Top?)
    ensures forall i :: i in s ==> !InCtx(c, i)
  {
    DistinctSplit3(Pre(c), s, Post(c));
    if c.Frame? {
      CtxParts(c, s);
    }
  }

  /** The height `node` had before its subtree changed by `delta`. */
  function OldHeight(t: Tree, sib: Tree, delta: int): int {
    1 + Max(Height(t) - delta, Height(sib))
  }

  /** The C expression for the height change of a node before any rotation is exact. */
  lemma DeltaExact<A>(m: Monoid<A>, h: Heap<A>, root: Link, node: nat, side: bool, deltac: int, c: Ctx, sib: Tree, t: Tree)
    requires Pending(m, h, root, node, side, deltac, c, sib, t)
    ensures var b := if side then -h[node].balance else h[node].balance;
      Max(deltac, b) - Max(0, b) == Height(Mk(side, t, node, sib)) - OldHeight(t, sib, deltac)
    ensures h[node].balance - (if side then -deltac else deltac)
         == if side then Height(t) - Height(sib) else Height(sib) - Height(t)
    ensures var d := Height(Mk(side, t, node, sib)) - OldHeight(t, sib, deltac);
      -1 <= d <= 1 && (Height(t) - Height(sib) == 2 || Height(sib) - Height(t) == 2 ==> 0 <= d)
    ensures OldHeight(t, sib, deltac) >= 1
  {
  }

  /** The subtrees and the path after the balance factor of `node` alone was rewritten. */
  lemma Tilted<A(!new)>(m: Monoid<A>, h: Heap<A>, k: Heap<A>, root: Link, node: nat, side: bool, deltac: int, c: Ctx, sib: Tree, t: Tree)
    requires Pending(m, h, root, node, side, deltac, c, sib, t)
    requires k == h[node := h[node].(balance := if side then Height(t) - Height(sib) else Height(sib) - Height(t))]
    ensures Hooked(m, k, root, c, node, k[node].parent, OldHeight(t, sib, deltac), Around(side, InOrder(t), node, sib))
    ensures Rep(m, k, k[node].Child(side), node, t) && Rep(m, k, k[node].Child(!side), node, sib)
    ensures NodeAug(m, k[node], Around(side, InOrder(t), node, sib))
    ensures KeepsRest(h, k, Pre(c) + Around(side, InOrder(t), node, sib) + Post(c))
  {
    var s := Around(side, InOrder(t), node, sib);
    assert node in s;
    HookedParent(m, h, root, c, node, h[node].parent, OldHeight(t, sib, deltac), s);
    CtxUntouched(m, h, k, root, c, node, h[node].parent, OldHeight(t, sib, deltac), s);
    TopApart(side, t, node, sib, c);
    RepSame(m, h, k, h[node].Child(side), node, t);
    RepSame(m, h, k, h[node].Child(!side), node, sib);
  }

  lemma TopApart(side: bool, t: Tree, node: nat, sib: Tree, c: Ctx)
    requires Once(Pre(c) + Around(side, InOrder(t), node, sib) + Post(c))
    ensures node !in InOrder(t) && node !in InOrder(sib)
    ensures Once(InOrder(t)) && Once(InOrder(sib)) && Once(Around(side, InOrder(t), node, sib))
  {
    DistinctSplit3(Pre(c), Around(side, InOrder(t), node, sib), Post(c));
    if side {
      DistinctSplit3(InOrder(sib), [node], InOrder(t));
    } else {
      DistinctSplit3(InOrder(t), [node], InOrder(sib));
    }
    assert node in [node];
  }

  /** No rotation is needed when the rewritten balance factor is in range. */
  lemma NoRotation<A(!new)>(m: Monoid<A>, k: Heap<A>, root: Link, node: nat, side: bool, c: Ctx, sib: Tree, t: Tree, was: int)
    requires node < |k| && -1 <= k[node].balance <= 1
    requires k[node].balance == if side then Height(t) - Height(sib) else Height(sib) - Height(t)
    requires Hooked(m, k, root, c, node, k[node].parent, was, Around(side, InOrder(t), node, sib))
    requires Rep(m, k, k[node].Child(side), node, t) && Rep(m, k, k[node].Child(!side), node, sib)
    requires NodeAug(m, k[node], Around(side, InOrder(t), node, sib))
    ensures Lifted(m, k, root, node, c, Mk(side, t, node, sib), was)
  {
    InOrderMk(side, t, node, sib);
  }

  /** When it is out of range, the taller child is a node that can be gripped. */
  lemma TiltedGrip<A(!new)>(m: Monoid<A>, k: Heap<A>, node: nat, side: bool, sib: Tree, t: Tree, c: Ctx, bside: bool)
    requires node < |k| && k[node].balance == (if bside then 2 else -2)
    requires k[node].balance == if side then Height(t) - Height(sib) else Height(sib) - Height(t)
    requires Once(Pre(c) + Around(side, InOrder(t), node, sib) + Post(c))
    requires Rep(m, k, k[node].Child(side), node, t) && Rep(m, k, k[node].Child(!side), node, sib)
    ensures var tall, x := if side == bside then t else sib, if side == bside then sib else t;
      && tall.Node? && tall.id == k[node].Child(bside) && tall.id < |k| && Height(tall) == Height(x) + 2
      && Grip(m, k, node, bside, x, Child(tall, !bside), Child(tall, bside))
      && tall == Mk(bside, Child(tall, bside), tall.id, Child(tall, !bside))
      && Rep(m, k, k[node].Child(bside), node, tall)
      && Mk(side, t, node, sib) == Mk(bside, tall, node, x)
  {
    TopApart(side, t, node, sib, c);
    InOrderMk(side, t, node, sib);
  }

  /** Which way the taller child leans, and what that says of the heights below it. */
  lemma Lean<A(!new)>(m: Monoid<A>, k: Heap<A>, p: Link, l: Link, tall: Tree, bside: bool)
    requires tall.Node? && Rep(m, k, l, p, tall)
    ensures var y, z := Child(tall, !bside), Child(tall, bside);
      && 0 <= l < |k|
      && var lean := k[l].balance * (if bside then 1 else -1);
        && -1 <= lean <= 1 && lean == Height(z) - Height(y) && Height(tall) == 1 + Max(Height(y), Height(z))
        && (lean == -1 ==>
          && y.Node? && y.id == k[l].Child(!bside) && y.id < |k|
          && y == Mk(bside, Child(y, bside), y.id, Child(y, !bside))
          && Height(y) == 1 + Max(Height(Child(y, !bside)), Height(Child(y, bside))))
  {
  }

  lemma RotatedHeights(bside: bool, x: Tree, y: Tree, z: Tree, node: nat, child: nat)
    ensures Height(Mk(bside, Mk(bside, z, child, y), node, x)) == 1 + Max(Height(x), 1 + Max(Height(y), Height(z)))
    ensures Height(Single(bside, x, y, z, node, child)) == 1 + Max(Height(z), 1 + Max(Height(x), Height(y)))
    ensures y.Node? ==>
      Height(Double(bside, x, Child(y, !bside), Child(y, bside), z, node, child, y.id))
      == 1 + Max(1 + Max(Height(z), Height(Child(y, bside))), 1 + Max(Height(x), Height(Child(y, !bside))))
  {
    hide InOrder, Rep, Height, Mk;
    MkHeight(bside, z, child, y);
    MkHeight(bside, Mk(bside, z, child, y), node, x);
    MkHeight(bside, y, node, x);
    MkHeight(bside, z, child, Mk(bside, y, node, x));
    if y.Node? {
      var y1, y2 := Child(y, !bside), Child(y, bside);
      MkHeight(bside, z, child, y2);
      MkHeight(bside, y1, node, x);
      MkHeight(bside, Mk(bside, z, child, y2), y.id, Mk(bside, y1, node, x));
    }
  }

  lemma MkHeight(side: bool, t: Tree, id: nat, sib: Tree)
    ensures Height(Mk(side, t, id, sib)) == 1 + Max(Height(t), Height(sib))
  {
  }

  lemma TurnableSingle<A(!new)>(m: Monoid<A>, h: Heap<A>, node: nat, p: Link, bside: bool, x: Tree, y: Tree, z: Tree)
    requires Grip(m, h, node, bside, x, y, z) && ValidLink(h, p)
    requires p !in InOrder(Mk(bside, Mk(bside, z, h[node].Child(bside), y), node, x))
    ensures Turnable(h, node, !bside, p)
  {
    var child := h[node].Child(bside);
    GripParts(m, h, node, bside, x, y, z);
    InOrderMember(bside, x, y, z, node, child);
    RepLinkIn(m, h, h[node].Child(!bside), node, x);
    RepLinkIn(m, h, h[child].Child(!bside), child, y);
    RepLinkIn(m, h, h[child].Child(bside), child, z);
  }

  lemma TurnableFirst<A(!new)>(m: Monoid<A>, h: Heap<A>, node: nat, bside: bool, x: Tree, y1: Tree, g: nat, y2: Tree, z: Tree)
    requires Grip(m, h, node, bside, x, Mk(bside, y2, g, y1), z)
    ensures Turnable(h, h[node].Child(bside), bside, node) && h[h[node].Child(bside)].Child(!bside) == g
  {
    var child := h[node].Child(bside);
    FourFromGrip(m, h, node, bside, x, y1, g, y2, z);
    assert g in [g] && node in [node] && child in [child];
    RepLinkIn(m, h, h[child].Child(bside), child, z);
    RepLinkIn(m, h, h[g].Child(bside), g, y2);
    RepLinkIn(m, h, h[g].Child(!bside), g, y1);
  }

  lemma TurnableSecond<A(!new)>(m: Monoid<A>, k: Heap<A>, node: nat, child: nat, g: nat, p: Link, bside: bool,
                                x: Tree, y1: Tree, y2: Tree, z: Tree)
    requires Four(m, k, node, child, g, bside, x, y1, y2, z) && Middle(m, k, node, child, g, bside, x, y1, y2, z)
    requires ValidLink(k, p) && p != node && p != g && p !in InOrder(y1)
    ensures Turnable(k, node, !bside, p)
  {
    assert g in [g] && node in [node] && child in [child];
    RepLinkIn(m, k, k[node].Child(!bside), node, x);
    RepLinkIn(m, k, k[g].Child(!bside), g, y1);
  }

  /** A rotation at the top of a hole writes only nodes of the tree. */
  lemma RotatedReach<A(!new)>(m: Monoid<A>, h: Heap<A>, k: Heap<A>, root: Link, node: nat, dir: bool, c: Ctx, was: int, s: seq<nat>, y: Tree)
    requires node < |h| && 0 <= h[node].Child(!dir) < |h| && Rotated(m, h, k, node, dir, h[node].parent)
    requires Hooked(m, h, root, c, node, h[node].parent, was, s)
    requires node in s && h[node].Child(!dir) in s
    requires Rep(m, h, h[h[node].Child(!dir)].Child(dir), h[node].Child(!dir), y) && (forall i :: i in InOrder(y) ==> i in s)
    ensures forall i :: 0 <= i < |h| && i !in Pre(c) + s + Post(c) ==> k[i] == h[i]
  {
    RepLinkIn(m, h, h[h[node].Child(!dir)].Child(dir), h[node].Child(!dir), y);
    if c.Frame? {
      FrameInCtx(c);
    }
  }

  lemma SingleLifted<A(!new)>(m: Monoid<A>, h: Heap<A>, k: Heap<A>, w: Heap<A>, root: Link, root': Link, node: nat, bside: bool,
                              x: Tree, y: Tree, z: Tree, c: Ctx, was: int, bn: int, bc: int)
    requires Lawful(m) && Grip(m, h, node, bside, x, y, z)
    requires Hooked(m, h, root, c, node, h[node].parent, was, InOrder(Mk(bside, Mk(bside, z, h[node].Child(bside), y), node, x)))
    requires Rotated(m, h, k, node, !bside, h[node].parent)
    requires root' == if h[node].parent == NULL then h[node].Child(bside) else root
    requires Rebal(k, w, node, bn, h[node].Child(bside), bc)
    requires -1 <= bn <= 1 && bn == if bside then Height(y) - Height(x) else Height(x) - Height(y)
    requires -1 <= bc <= 1 && bc == if bside then Height(z) - (1 + Max(Height(x), Height(y)))
                                             else (1 + Max(Height(x), Height(y))) - Height(z)
    ensures Lifted(m, w, root', h[node].Child(bside), c, Single(bside, x, y, z, node, h[node].Child(bside)), was)
  {
    hide Rep, InOrder, CtxLinks, CtxBal, CtxAug, Once, Height, Pre, Post, Sum;
    var child, p := h[node].Child(bside), h[node].parent;
    var s := InOrder(Mk(bside, Mk(bside, z, child, y), node, x));
    HookedParent(m, h, root, c, node, p, was, s);
    InOrderMember(bside, x, y, z, node, child);
    RepLinkIn(m, h, h[child].Child(!bside), child, y);
    RotatedCtx(m, h, k, root, root', node, !bside, p, c, s);
    CtxBalSame(h, k, c, was);
    CtxAugSame(m, h, k, c, s);
    CtxUntouched(m, k, w, root', c, child, p, was, s);
    SingleRotation(m, h, k, w, node, p, bside, x, y, z, bn, bc);
    SingleInOrder(bside, x, y, z, node, child);
  }

  /** The path above, and the subtrees, after the two rotations. */
  lemma DoubleTurned<A(!new)>(m: Monoid<A>, h: Heap<A>, h1: Heap<A>, k: Heap<A>, root: Link, root': Link,
                              node: nat, child: nat, g: nat, bside: bool, x: Tree, y1: Tree, y2: Tree, z: Tree, c: Ctx, was: int, s: seq<nat>)
    requires Grip(m, h, node, bside, x, Mk(bside, y2, g, y1), z) && child == h[node].Child(bside)
    requires s == InOrder(Mk(bside, Mk(bside, z, child, Mk(bside, y2, g, y1)), node, x))
    requires Hooked(m, h, root, c, node, h[node].parent, was, s)
    requires Rotated(m, h, h1, child, bside, node)
    requires node < |h1| && g == h1[node].Child(bside) && g < |h1| && Rotated(m, h1, k, node, !bside, h[node].parent)
    requires root' == if h[node].parent == NULL then g else root
    ensures Four(m, h, node, child, g, bside, x, y1, y2, z) && |k| == |h|
    ensures Finished(m, k, node, child, g, h[node].parent, bside, x, y1, y2, z)
    ensures Hooked(m, k, root', c, g, h[node].parent, was, s)
  {
    hide Rep, InOrder, CtxLinks, CtxBal, CtxAug, Once, Height, Pre, Post, Sum, Mk;
    var p, y := h[node].parent, Mk(bside, y2, g, y1);
    HookedParent(m, h, root, c, node, p, was, s);
    InOrderMember(bside, x, y, z, node, child);
    InOrderMk(bside, y2, g, y1);
    FourFromGrip(m, h, node, bside, x, y1, g, y2, z);
    RepLinkIn(m, h, h[g].Child(bside), g, y2);
    DoubleFirst(m, h, h1, node, child, g, bside, x, y1, y2, z);
    CtxUntouched(m, h, h1, root, c, node, p, was, s);
    RepLinkIn(m, h1, h1[g].Child(!bside), g, y1);
    hide Grip;
    DoubleSecond(m, h1, k, node, child, g, p, bside, x, y1, y2, z);
    RotatedCtx(m, h1, k, root, root', node, !bside, p, c, s);
    hide Rotated, Finished, Middle;
    CtxBalSame(h1, k, c, was);
    CtxAugSame(m, h1, k, c, s);
  }

  lemma DoubleLifted<A(!new)>(m: Monoid<A>, h: Heap<A>, h1: Heap<A>, k: Heap<A>, w: Heap<A>, root: Link, root': Link,
                              node: nat, child: nat, g: nat, bside: bool, x: Tree, y1: Tree, y2: Tree, z: Tree, c: Ctx, was: int)
    requires Lawful(m) && Grip(m, h, node, bside, x, Mk(bside, y2, g, y1), z) && child == h[node].Child(bside)
    requires Hooked(m, h, root, c, node, h[node].parent, was, InOrder(Mk(bside, Mk(bside, z, child, Mk(bside, y2, g, y1)), node, x)))
    requires Rotated(m, h, h1, child, bside, node)
    requires node < |h1| && g == h1[node].Child(bside) && g < |h1| && Rotated(m, h1, k, node, !bside, h[node].parent)
    requires root' == if h[node].parent == NULL then g else root
    requires OnlyBal(k, w, node, child, g)
    requires child < |w| && node < |w| && g < |w| && w[g].balance == 0 && Max(Height(x), Height(y1)) == Max(Height(z), Height(y2))
    requires var bn, bc := w[node].balance, w[child].balance;
      && -1 <= bn <= 1 && bn == (if bside then Height(y1) - Height(x) else Height(x) - Height(y1))
      && -1 <= bc <= 1 && bc == (if bside then Height(z) - Height(y2) else Height(y2) - Height(z))
    ensures Lifted(m, w, root', g, c, Double(bside, x, y1, y2, z, node, child, g), was)
  {
    hide Rep, InOrder, CtxLinks, CtxBal, CtxAug, Once, Height, Pre, Post, Sum, Mk, Double, Rotated;
    var p := h[node].parent;
    var s := InOrder(Mk(bside, Mk(bside, z, child, Mk(bside, y2, g, y1)), node, x));
    DoubleTurned(m, h, h1, k, root, root', node, child, g, bside, x, y1, y2, z, c, was, s);
    FinishedRebal(m, k, w, node, child, g, p, bside, x, y1, y2, z);
    HookedParent(m, k, root', c, g, p, was, s);
    InOrderMember(bside, x, Mk(bside, y2, g, y1), z, node, child);
    InOrderMk(bside, y2, g, y1);
    CtxUntouched(m, k, w, root', c, g, p, was, s);
    DoubleRotation(m, w, node, child, g, p, bside, x, y1, y2, z);
    DoubleInOrder(bside, x, y1, y2, z, node, child, g);
  }

  /** Both rotations of a double rotation write only nodes of the tree. */
  lemma DoubleReach<A(!new)>(m: Monoid<A>, h: Heap<A>, h1: Heap<A>, k: Heap<A>, root: Link, node: nat, child: nat, g: nat, bside: bool,
                             x: Tree, y1: Tree, y2: Tree, z: Tree, c: Ctx, was: int)
    requires Grip(m, h, node, bside, x, Mk(bside, y2, g, y1), z) && child == h[node].Child(bside)
    requires Hooked(m, h, root, c, node, h[node].parent, was, InOrder(Mk(bside, Mk(bside, z, child, Mk(bside, y2, g, y1)), node, x)))
    requires Rotated(m, h, h1, child, bside, node)
    requires node < |h1| && g == h1[node].Child(bside) && g < |h1| && Rotated(m, h1, k, node, !bside, h[node].parent)
    ensures forall i :: 0 <= i < |h| && i !in Pre(c) + InOrder(Mk(bside, Mk(bside, z, child, Mk(bside, y2, g, y1)), node, x)) + Post(c) ==> k[i] == h[i]
  {
    var y := Mk(bside, y2, g, y1);
    InOrderMember(bside, x, y, z, node, child);
    FourFromGrip(m, h, node, bside, x, y1, g, y2, z);
    RepLinkIn(m, h, h[g].Child(bside), g, y2);
    DoubleFirst(m, h, h1, node, child, g, bside, x, y1, y2, z);
    RepLinkIn(m, h1, h1[g].Child(!bside), g, y1);
    if c.Frame? {
      FrameInCtx(c);
    }
  }

  /** The grandchild's balance factor survives both rotations and splits its two subtrees' heights. */
  lemma DoubleBalances<A(!new)>(m: Monoid<A>, h: Heap<A>, h1: Heap<A>, k: Heap<A>, root: Link, node: nat, child: nat, g: nat, bside: bool,
                                x: Tree, y1: Tree, y2: Tree, z: Tree, c: Ctx, was: int)
    requires Grip(m, h, node, bside, x, Mk(bside, y2, g, y1), z) && child == h[node].Child(bside)
    requires Hooked(m, h, root, c, node, h[node].parent, was, InOrder(Mk(bside, Mk(bside, z, child, Mk(bside, y2, g, y1)), node, x)))
    requires Rotated(m, h, h1, child, bside, node)
    requires node < |h1| && g == h1[node].Child(bside) && g < |h1| && Rotated(m, h1, k, node, !bside, h[node].parent)
    ensures g < |k| && node < |k| && child < |k| && node != child && g != node && g != child
    ensures -1 <= k[g].balance <= 1
    ensures k[g].balance == if bside then Height(y2) - Height(y1) else Height(y1) - Height(y2)
  {
    var y := Mk(bside, y2, g, y1);
    FourFromGrip(m, h, node, bside, x, y1, g, y2, z);
    InOrderMk(bside, y2, g, y1);
  }

  /** The signs the C code gives the two outer balance factors of a double rotation. */
  lemma DoubleSigns(b: int, bside: bool, bsidef: int, hx: int, h1: int, h2: int, hz: int)
    requires bsidef == (if bside then 1 else -1)
    requires -1 <= b <= 1 && b == (if bside then h2 - h1 else h1 - h2) && hx == hz == Max(h1, h2)
    ensures var bn := -Max(0, b * bsidef) * bsidef;
      -1 <= bn <= 1 && bn == (if bside then h1 - hx else hx - h1)
    ensures var bc := Max(0, -b * bsidef) * bsidef;
      -1 <= bc <= 1 && bc == (if bside then hz - h2 else h2 - hz)
  {
    if bside {
      assert b * bsidef == b && -b * bsidef == -b;
    } else {
      assert b * bsidef == -b && -b * bsidef == b;
    }
  }

  /** The nodes of the three subtrees and the two nodes themselves are nodes of the whole. */
  lemma InOrderMember(bside: bool, x: Tree, y: Tree, z: Tree, node: nat, child: nat)
    ensures var s := InOrder(Mk(bside, Mk(bside, z, child, y), node, x));
      && node in s && child in s
      && (forall i :: i in InOrder(x) || i in InOrder(y) || i in InOrder(z) ==> i in s)
  {
    var inner := Mk(bside, z, child, y);
    InOrderMk(bside, z, child, y);
    InOrderMk(bside, inner, node, x);
    assert child in InOrder(inner);
    forall i | i in InOrder(y) || i in InOrder(z) ensures i in InOrder(inner) {
    }
  }
}
