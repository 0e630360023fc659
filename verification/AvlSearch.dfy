/** Sorted sequences, the descents that search them, and the prefix products on the way. */
module AvlSearch {
  import opened AvlTheory
  import opened Sequences
  import opened AvlRotation

  /** The comparator: -1, 0 or 1, antisymmetric and transitive. Entries may compare equal. */
  ghost predicate CmpAt(cmp: (nat, nat) -> int, a: nat, b: nat) {
    -1 <= cmp(a, b) <= 1 && cmp(a, b) == -cmp(b, a)
  }

  ghost predicate TransAt(cmp: (nat, nat) -> int, a: nat, b: nat, c: nat) {
    && (cmp(a, b) <= 0 && cmp(b, c) < 0 ==> cmp(a, c) < 0)
    && (cmp(a, b) < 0 && cmp(b, c) <= 0 ==> cmp(a, c) < 0)
  }

  ghost predicate TotalOrder(cmp: (nat, nat) -> int) {
    (forall a, b :: CmpAt(cmp, a, b)) && (forall a, b, c :: TransAt(cmp, a, b, c))
  }

  /** Strictly sorted: every node before every later one, not only parents against children. */
  ghost predicate Sorted(cmp: (nat, nat) -> int, s: seq<nat>) {
    forall i, j :: 0 <= i < j < |s| ==> cmp(s[i], s[j]) == -1
  }

  /** `kc(x)` compares a wanted key with entry `x`: the entries of `s` go from lesser ones
      (1), over at most one equal one (0), to greater ones (-1). */
  ghost predicate Searchable(kc: nat -> int, s: seq<nat>) {
    && (forall i :: 0 <= i < |s| ==> -1 <= kc(s[i]) <= 1)
    && (forall i, j :: 0 <= i < j < |s| ==> (kc(s[j]) >= 0 ==> kc(s[i]) == 1) && (kc(s[i]) <= 0 ==> kc(s[j]) == -1))
  }

  lemma SortedSearchable(cmp: (nat, nat) -> int, s: seq<nat>, x: nat)
    requires TotalOrder(cmp) && Sorted(cmp, s)
    ensures Searchable((y: nat) => cmp(x, y), s)
  {
    forall i | 0 <= i < |s| ensures -1 <= cmp(x, s[i]) <= 1 {
      assert CmpAt(cmp, x, s[i]);
    }
    forall i, j | 0 <= i < j < |s|
      ensures (cmp(x, s[j]) >= 0 ==> cmp(x, s[i]) == 1) && (cmp(x, s[i]) <= 0 ==> cmp(x, s[j]) == -1)
    {
      assert CmpAt(cmp, x, s[i]) && CmpAt(cmp, x, s[j]) && CmpAt(cmp, s[i], s[j]);
      assert TransAt(cmp, s[i], s[j], x) && TransAt(cmp, x, s[i], s[j]);
    }
  }

  /** Putting a new node between the lesser and the greater ones keeps the order. */
  lemma SortedInsert(cmp: (nat, nat) -> int, s: seq<nat>, k: nat, x: nat)
    requires TotalOrder(cmp) && Sorted(cmp, s) && k <= |s|
    requires forall i :: 0 <= i < k ==> cmp(x, s[i]) == 1
    requires forall i :: k <= i < |s| ==> cmp(x, s[i]) == -1
    ensures Sorted(cmp, s[..k] + [x] + s[k..])
  {
    forall i | 0 <= i < k ensures cmp(s[i], x) == -1 {
      assert CmpAt(cmp, x, s[i]);
    }
  }

  lemma SortedRemove(cmp: (nat, nat) -> int, s: seq<nat>, k: nat)
    requires Sorted(cmp, s) && k < |s|
    ensures Sorted(cmp, s[..k] + s[k + 1..])
  {
  }

  lemma SortedDistinct(cmp: (nat, nat) -> int, s: seq<nat>)
    requires TotalOrder(cmp) && Sorted(cmp, s)
    ensures Once(s)
  {
    forall i, j | 0 <= i < j < |s| ensures s[i] != s[j] {
      assert CmpAt(cmp, s[i], s[j]);
    }
  }

  /** The invariant of a search: what was left behind on the left is lesser, on the right greater. */
  ghost predicate Narrowed(kc: nat -> int, c: Ctx) {
    (forall i :: i in Pre(c) ==> kc(i) == 1) && (forall i :: i in Post(c) ==> kc(i) == -1)
  }

  lemma SearchableAt(kc: nat -> int, a: seq<nat>, x: nat, b: seq<nat>)
    requires Searchable(kc, a + [x] + b)
    ensures -1 <= kc(x) <= 1
    ensures kc(x) >= 0 ==> forall i :: i in a ==> kc(i) == 1
    ensures kc(x) <= 0 ==> forall i :: i in b ==> kc(i) == -1
  {
    var s := a + [x] + b;
    assert s[|a|] == x;
    forall i | 0 <= i < |a| ensures kc(x) >= 0 ==> kc(a[i]) == 1 {
      assert s[i] == a[i];
    }
    forall i | 0 <= i < |b| ensures kc(x) <= 0 ==> kc(b[i]) == -1 {
      assert s[|a| + 1 + i] == b[i];
    }
  }

  /** Descending to the side the comparison points to. */
  lemma NarrowedDown(kc: nat -> int, c: Ctx, t: Tree, side: bool)
    requires t.Node? && Narrowed(kc, c) && Searchable(kc, Pre(c) + InOrder(t) + Post(c))
    requires kc(t.id) == if side then 1 else -1
    ensures Narrowed(kc, Down(c, t, side))
  {
    NodeParts(c, t);
    SearchableAt(kc, Pre(c) + InOrder(t.left), t.id, InOrder(t.right) + Post(c));
    var d := Down(c, t, side);
    if side {
      forall i | i in Pre(d) ensures kc(i) == 1 {
        assert i in Pre(c) || i in InOrder(t.left) || i == t.id;
        if i in InOrder(t.left) {
          assert i in Pre(c) + InOrder(t.left);
        }
      }
    } else {
      forall i | i in Post(d) ensures kc(i) == -1 {
        assert i in Post(c) || i in InOrder(t.right) || i == t.id;
        if i in InOrder(t.right) {
          assert i in InOrder(t.right) + Post(c);
        }
      }
    }
  }

  lemma NodeParts(c: Ctx, t: Tree)
    requires t.Node?
    ensures Pre(c) + InOrder(t) + Post(c) == (Pre(c) + InOrder(t.left)) + [t.id] + (InOrder(t.right) + Post(c))
  {
    RegroupNode(Pre(c), InOrder(t.left), t.id, InOrder(t.right), Post(c));
  }

  /** An empty link divides the sequence next to the node it belongs to. */
  lemma EmptyLink(c: Ctx, t: Tree, side: bool)
    requires t.Node? && Child(t, side) == Leaf
    ensures var d := Down(c, t, side); var k := |Pre(d)|;
      && Pre(c) + InOrder(t) + Post(c) == Pre(d) + Post(d)
      && (if side then 0 < k && Pre(d)[k - 1] == t.id else 0 < |Post(d)| && Post(d)[0] == t.id)
  {
    var d := Down(c, t, side);
    AroundWhole(d, []);
    assert Pre(d) + [] + Post(d) == Pre(d) + Post(d);
    assert InOrder(t) == Around(side, [], t.id, d.sib);
    if side {
      assert Pre(d) == (Pre(c) + InOrder(d.sib)) + [t.id];
    } else {
      assert Post(d) == [t.id] + (InOrder(d.sib) + Post(c));
    }
  }

  /** What an unsuccessful search knows at the empty link it ends at: the place of the
      missing entry, next to the last node looked at. */
  lemma SearchEnd(kc: nat -> int, c: Ctx, t: Tree, side: bool)
    requires t.Node? && Narrowed(kc, Down(c, t, side)) && Child(t, side) == Leaf
    ensures var s := Pre(c) + InOrder(t) + Post(c); var k := |Pre(Down(c, t, side))|;
      && k <= |s| && s[..k] == Pre(Down(c, t, side)) && s[k..] == Post(Down(c, t, side))
      && (if side then 0 < k && s[k - 1] == t.id else k < |s| && s[k] == t.id)
      && (forall i :: 0 <= i < k ==> kc(s[i]) == 1) && (forall i :: k <= i < |s| ==> kc(s[i]) == -1)
  {
    EmptyLink(c, t, side);
    hide InOrder, Pre, Post;
    var d := Down(c, t, side);
    var s := Pre(c) + InOrder(t) + Post(c);
    forall i | 0 <= i < |Pre(d)| ensures kc(s[i]) == 1 {
      assert s[i] == Pre(d)[i];
    }
    forall i | |Pre(d)| <= i < |s| ensures kc(s[i]) == -1 {
      assert s[i] == Post(d)[i - |Pre(d)|];
    }
  }

  /** The invariant of every descent from the root: the node looked at heads `t`, below the path `c`. */
  ghost predicate At<A>(m: Monoid<A>, h: Heap<A>, root: Link, c: Ctx, l: Link, t: Tree, s: seq<nat>) {
    && t.Node? && l == t.id && t.id < |h|
    && CtxRep(m, h, root, c, l, h[t.id].parent, t) && Rep(m, h, l, h[t.id].parent, t)
    && Pre(c) + InOrder(t) + Post(c) == s
  }

  lemma AtRoot<A>(m: Monoid<A>, h: Heap<A>, root: Link, t: Tree)
    requires Rep(m, h, root, NULL, t) && root != NULL
    ensures At(m, h, root, Top, root, t, InOrder(t))
  {
    assert [] + InOrder(t) + [] == InOrder(t);
  }

  lemma AtDown<A>(m: Monoid<A>, h: Heap<A>, root: Link, c: Ctx, l: Link, t: Tree, s: seq<nat>, side: bool)
    requires At(m, h, root, c, l, t, s)
    ensures 0 <= l < |h|
    ensures h[l].Child(side) == NULL <==> Child(t, side) == Leaf
    ensures h[l].Child(side) != NULL ==> At(m, h, root, Down(c, t, side), h[l].Child(side), Child(t, side), s)
    ensures ValidLink(h, h[l].Child(side)) && CountOf(h, h[l].Child(side)) == |InOrder(Child(t, side))|
    ensures Size(Child(t, side)) < Size(t)
  {
    StepDown(m, h, root, c, l, h[t.id].parent, t, side);
  }

  function Size(t: Tree): nat {
    if t.Leaf? then 0 else 1 + Size(t.left) + Size(t.right)
  }

  /** Where a node stands, relative to the path above it. */
  lemma AtIndex<A>(m: Monoid<A>, h: Heap<A>, root: Link, c: Ctx, l: Link, t: Tree, s: seq<nat>)
    requires At(m, h, root, c, l, t, s)
    ensures var k := |Pre(c)| + |InOrder(t.left)|; k < |s| && s[k] == t.id && |InOrder(t)| == |InOrder(t.left)| + 1 + |InOrder(t.right)|
    ensures |s| == |Pre(c)| + |InOrder(t)| + |Post(c)|
  {
    NodeParts(c, t);
    assert s[|Pre(c) + InOrder(t.left)|] == t.id;
  }

  lemma DownIndex(c: Ctx, t: Tree, side: bool)
    requires t.Node?
    ensures |Pre(Down(c, t, side))| == if side then |Pre(c)| + |InOrder(t.left)| + 1 else |Pre(c)|
  {
  }

  /** `x` was put at place `k`, with `ref` next to it. */
  ghost predicate PlacedAt(cmp: (nat, nat) -> int, s: seq<nat>, s': seq<nat>, k: int, x: nat, ref: Link) {
    && 0 <= k <= |s| && s' == s[..k] + [x] + s[k..]
    && (if s == [] then ref == NULL else (0 < k && ref == s[k - 1]) || (k < |s| && ref == s[k]))
    && (forall i :: 0 <= i < k ==> cmp(x, s[i]) == 1) && (forall i :: k <= i < |s| ==> cmp(x, s[i]) == -1)
  }

  lemma EmptyTree<A>(m: Monoid<A>, h: Heap<A>, t: Tree)
    requires Rep(m, h, NULL, NULL, t)
    ensures t == Leaf && InOrder(t) == []
  {
  }

  lemma EmptyPlaced<A>(m: Monoid<A>, h: Heap<A>, cmp: (nat, nat) -> int, t: Tree, x: nat)
    requires Rep(m, h, NULL, NULL, t)
    ensures PlacedAt(cmp, InOrder(t), [x], 0, x, NULL) && Sorted(cmp, [x]) && InOrder(t) == []
  {
  }

  lemma NarrowedTop(kc: nat -> int)
    ensures Narrowed(kc, Top)
  {
  }

  lemma TopPre()
    ensures Pre(Top) == []
  {
  }

  lemma LeafInOrder()
    ensures InOrder(Leaf) == []
  {
  }

  /** The entry looked at compares with the key as -1, 0 or 1, and is one of the sequence. */
  lemma AtFacts<A>(m: Monoid<A>, h: Heap<A>, root: Link, c: Ctx, l: Link, t: Tree, s: seq<nat>, kc: nat -> int)
    requires At(m, h, root, c, l, t, s) && Searchable(kc, s)
    ensures 0 <= l < |h| && l == t.id && l in s && -1 <= kc(l) <= 1 && t.Node?
    ensures Pre(c) + InOrder(t) + Post(c) == s
  {
    AtIndex(m, h, root, c, l, t, s);
  }

  lemma AttachAt<A>(m: Monoid<A>, h: Heap<A>, root: Link, c: Ctx, l: Link, t: Tree, s: seq<nat>)
    requires At(m, h, root, c, l, t, s)
    ensures t.Node? && l == t.id && t.id < |h| && Pre(c) + InOrder(t) + Post(c) == s
    ensures CtxRep(m, h, root, c, l, h[t.id].parent, t) && Rep(m, h, l, h[t.id].parent, t)
  {
  }

  /** Nothing compares equal when everything is lesser or greater. */
  lemma NotEqual(kc: nat -> int, s: seq<nat>, k: nat)
    requires k <= |s| && (forall i :: 0 <= i < k ==> kc(s[i]) == 1) && (forall i :: k <= i < |s| ==> kc(s[i]) == -1)
    ensures forall x :: x in s ==> kc(x) != 0
  {
  }

  // ---------------------------------------------------------------- reading the tree

  lemma AtUp<A>(m: Monoid<A>, h: Heap<A>, root: Link, c: Ctx, l: Link, t: Tree, s: seq<nat>)
    requires At(m, h, root, c, l, t, s)
    ensures 0 <= l < |h| && (h[l].parent == NULL <==> c.Top?)
    ensures c.Frame? ==>
      && h[l].parent == c.id && c.id < |h| && ValidLink(h, h[c.id].child0) && ValidLink(h, h[c.id].child1)
      && At(m, h, root, c.up, c.id, Mk(c.side, t, c.id, c.sib), s)
      && h[c.id].Child(c.side) == l && CountOf(h, h[c.id].Child(!c.side)) == |InOrder(c.sib)|
      && AugLink(m, h, h[c.id].Child(!c.side), InOrder(c.sib))
      && InOrder(Mk(c.side, t, c.id, c.sib)) == Around(c.side, InOrder(t), c.id, c.sib)
  {
    if c.Frame? {
      StepUp(m, h, root, c, l, c.id, t);
      RepAug(m, h, h[c.id].Child(!c.side), c.id, c.sib);
      InOrderMk(c.side, t, c.id, c.sib);
    }
  }

  /** With no node twice, a hole is found on its own side only. */
  lemma AtSide<A>(m: Monoid<A>, h: Heap<A>, root: Link, c: Ctx, l: Link, t: Tree, s: seq<nat>)
    requires At(m, h, root, c, l, t, s) && Once(s) && c.Frame? && c.id < |h|
    ensures l == h[c.id].child1 <==> c.side
    ensures l == h[c.id].child0 <==> !c.side
  {
    HoleSide(m, h, root, c, l, h[t.id].parent, InOrder(t));
    CtxParts(c, InOrder(t));
    RepLinkIn(m, h, h[c.id].Child(!c.side), c.id, c.sib);
  }

  /** The first node behind a hole on the left, and the last one before a hole on the right. */
  lemma AtNeighbour<A>(m: Monoid<A>, h: Heap<A>, root: Link, c: Ctx, l: Link, t: Tree, s: seq<nat>)
    requires At(m, h, root, c, l, t, s)
    ensures c.Top? ==> Pre(c) == [] && Post(c) == [] && |s| == |InOrder(t)|
    ensures c.Frame? && !c.side ==> |Pre(c)| + |InOrder(t)| < |s| && s[|Pre(c)| + |InOrder(t)|] == c.id
    ensures c.Frame? && c.side ==> 0 < |Pre(c)| && s[|Pre(c)| - 1] == c.id
  {
    if c.Frame? && !c.side {
      assert Post(c)[0] == c.id;
      assert s[|Pre(c) + InOrder(t)|] == Post(c)[0];
    } else if c.Frame? {
      assert Pre(c)[|Pre(c)| - 1] == c.id;
      assert s[|Pre(c)| - 1] == Pre(c)[|Pre(c)| - 1];
    }
  }

  lemma UpIndex(c: Ctx, t: Tree)
    requires c.Frame?
    ensures |Pre(c)| == if c.side then |Pre(c.up)| + |InOrder(c.sib)| + 1 else |Pre(c.up)|
    ensures |InOrder(Mk(c.side, t, c.id, c.sib))| == |InOrder(t)| + 1 + |InOrder(c.sib)|
  {
    InOrderMk(c.side, t, c.id, c.sib);
  }

  /** The documented result of a lookup: the equal entry if there is one, otherwise a
      neighbour of the place where it would be. */
  ghost predicate LookedUp(kc: nat -> int, s: seq<nat>, r: Link) {
    if s == [] then r == NULL
    else r in s && (kc(r) == 0 || exists k :: Divides(kc, s, k) && NextTo(s, k, r))
  }

  /** Entries before `k` are lesser than the key, the others greater. */
  ghost predicate Divides(kc: nat -> int, s: seq<nat>, k: int) {
    && 0 <= k <= |s|
    && (forall i :: 0 <= i < k ==> kc(s[i]) == 1) && (forall i :: k <= i < |s| ==> kc(s[i]) == -1)
  }

  predicate NextTo(s: seq<nat>, k: int, r: Link) {
    (0 < k <= |s| && r == s[k - 1]) || (0 <= k < |s| && r == s[k])
  }

  lemma LookedUpEqual(kc: nat -> int, s: seq<nat>, r: Link)
    requires LookedUp(kc, s, r)
    ensures (exists x :: x in s && kc(x) == 0) <==> (r in s && kc(r) == 0)
  {
    if s != [] && kc(r) != 0 {
      var k :| Divides(kc, s, k) && NextTo(s, k, r);
      NotEqual(kc, s, k);
    }
  }

  /** `r` is the first entry for which `kc` is below `bound`, NULL if there is none. */
  ghost predicate FirstBelow(kc: nat -> int, s: seq<nat>, bound: int, r: Link) {
    exists k :: 0 <= k <= |s| && r == LinkAt(s, k)
      && (forall i :: 0 <= i < k ==> kc(s[i]) >= bound) && (forall i :: k <= i < |s| ==> kc(s[i]) < bound)
  }

  /** `r` is the last entry for which `kc` is at least `bound`, NULL if there is none. */
  ghost predicate LastAtLeast(kc: nat -> int, s: seq<nat>, bound: int, r: Link) {
    exists k :: -1 <= k < |s| && r == LinkAt(s, k)
      && (forall i :: 0 <= i <= k ==> kc(s[i]) >= bound) && (forall i :: k < i < |s| ==> kc(s[i]) < bound)
  }

  /** The searched sequence falls through a bound at one place. */
  lemma BoundPlace(kc: nat -> int, s: seq<nat>, r: Link, j: nat, bound: int)
    requires Searchable(kc, s) && LookedUp(kc, s, r) && j < |s| && s[j] == r && Once(s) && 0 <= bound <= 1
    ensures var k := if kc(r) >= bound then j + 1 else j;
      (forall i :: 0 <= i < k ==> kc(s[i]) >= bound) && (forall i :: k <= i < |s| ==> kc(s[i]) < bound)
  {
    if kc(r) != 0 {
      var d :| Divides(kc, s, d) && NextTo(s, d, r);
      assert j == d || j == d - 1 by {
        if r == LinkAt(s, d) {
          assert s[d] == s[j];
        } else {
          assert s[d - 1] == s[j];
        }
      }
    }
  }

  lemma LookupEnd(kc: nat -> int, s: seq<nat>, r: Link)
    requires if s == [] then r == NULL else r in s && (kc(r) == 0 || exists k :: Divides(kc, s, k) && NextTo(s, k, r))
    ensures LookedUp(kc, s, r) && (r == NULL <==> s == [])
    ensures (exists x :: x in s && kc(x) == 0) <==> (r in s && kc(r) == 0)
  {
    LookedUpEqual(kc, s, r);
  }

  lemma DividesIntro(kc: nat -> int, s: seq<nat>, k: nat, r: nat)
    requires k <= |s| && (forall i :: 0 <= i < k ==> kc(s[i]) == 1) && (forall i :: k <= i < |s| ==> kc(s[i]) == -1)
    requires (0 < k && s[k - 1] == r) || (k < |s| && s[k] == r)
    ensures Divides(kc, s, k) && NextTo(s, k, r) && s != []
  {
  }

  /** Going down one side leaves the other end where it was. */
  lemma DownSame(c: Ctx, t: Tree, side: bool)
    requires t.Node?
    ensures if side then Post(Down(c, t, side)) == Post(c) else Pre(Down(c, t, side)) == Pre(c)
  {
  }

  lemma AtFacts0<A>(m: Monoid<A>, h: Heap<A>, root: Link, c: Ctx, l: Link, t: Tree, s: seq<nat>)
    requires At(m, h, root, c, l, t, s)
    ensures 0 <= l < |h| && l == t.id && t.Node? && ValidLink(h, h[l].child0) && ValidLink(h, h[l].child1)
  {
    AtDown(m, h, root, c, l, t, s, false);
    AtDown(m, h, root, c, l, t, s, true);
  }

  lemma OnlyPlace(s: seq<nat>, j: nat, x: nat)
    requires Once(s) && j < |s| && s[j] == x
    ensures forall k :: 0 <= k < |s| && s[k] == x ==> k == j
  {
  }

  lemma PostLength(c: Ctx, t: Tree)
    requires t.Node?
    ensures |Post(Down(c, t, false))| == 1 + |InOrder(t.right)| + |Post(c)|
    ensures |InOrder(t)| == |InOrder(t.left)| + 1 + |InOrder(t.right)|
  {
  }

  lemma AtCount<A>(m: Monoid<A>, h: Heap<A>, root: Link, c: Ctx, l: Link, t: Tree, s: seq<nat>)
    requires At(m, h, root, c, l, t, s)
    ensures 0 <= l < |h| && h[l].count == |InOrder(t)|
  {
  }

  /** One step up: what stands before the subtree there is counted by the difference of the counts. */
  lemma IndexStep<A>(m: Monoid<A>, h: Heap<A>, root: Link, c: Ctx, l: Link, t: Tree, s: seq<nat>)
    requires At(m, h, root, c, l, t, s) && Once(s) && 0 <= l < |h| && h[l].parent != NULL
    ensures c.Frame? && h[l].parent == c.id && c.id < |h| && At(m, h, root, c.up, c.id, Mk(c.side, t, c.id, c.sib), s)
    ensures |Pre(c)| == |Pre(c.up)| + (if l == h[c.id].child1 then h[c.id].count - h[l].count else 0)
    ensures h[c.id].count > h[l].count
  {
    hide At, Once, Pre, InOrder;
    AtUp(m, h, root, c, l, t, s);
    AtSide(m, h, root, c, l, t, s);
    UpIndex(c, t);
    AtCount(m, h, root, c, l, t, s);
    AtCount(m, h, root, c.up, c.id, Mk(c.side, t, c.id, c.sib), s);
  }

  lemma AtWhole<A>(m: Monoid<A>, h: Heap<A>, root: Link, t: Tree)
    requires Rep(m, h, root, NULL, t) && InOrder(t) != []
    ensures At(m, h, root, Top, root, t, InOrder(t)) && Pre(Top) == []
  {
    AtRoot(m, h, root, t);
  }

  // ---------------------------------------------------------------- prefix aggregates

  /** Everything before a located node. */
  lemma AtPrefix<A>(m: Monoid<A>, h: Heap<A>, root: Link, c: Ctx, l: Link, t: Tree, s: seq<nat>)
    requires At(m, h, root, c, l, t, s)
    ensures |Pre(c)| + |InOrder(t.left)| < |s| && Pre(c) + InOrder(t.left) == s[..|Pre(c)| + |InOrder(t.left)|]
    ensures 0 <= l < |h| && AugLink(m, h, h[l].child0, InOrder(t.left))
  {
    NodeParts(c, t);
    RepAug(m, h, h[l].child0, l, t.left);
  }

  lemma LinkSum<A>(m: Monoid<A>, h: Heap<A>, l: Link, s: seq<nat>)
    requires AugLink(m, h, l, s)
    ensures (if l != NULL then h[l].assoc else m.zero) == Sum(m, s)
  {
  }

  lemma PreLeft(c: Ctx)
    requires c.Frame? && !c.side
    ensures Pre(c) == Pre(c.up)
  {
  }

  /** One step of the climb of a prefix product: what stands left of the new node is multiplied
      from the left, in order. */
  lemma PrefixStep<A(!new)>(m: Monoid<A>, h: Heap<A>, c: Ctx, l: Link, seen: seq<nat>, sum: A)
    requires Lawful(m) && c.Frame? && c.side && AugLink(m, h, l, InOrder(c.sib)) && sum == Sum(m, seen)
    ensures Pre(c) + seen == Pre(c.up) + (InOrder(c.sib) + [c.id] + seen)
    ensures var v := m.oper(m.value(c.id), sum);
      Sum(m, InOrder(c.sib) + [c.id] + seen) == (if l != NULL then m.oper(h[l].assoc, v) else v)
  {
    SumConcat(m, InOrder(c.sib), [c.id] + seen);
    SumConcat(m, [c.id], seen);
    SumSingle(m, c.id);
    assert InOrder(c.sib) + [c.id] + seen == InOrder(c.sib) + ([c.id] + seen);
    assert UnitAt(m, Sum(m, [c.id] + seen));
    assert Pre(c) == Pre(c.up) + (InOrder(c.sib) + [c.id]);
  }

  /** `less` never turns from true to false along the prefixes of `s`. */
  ghost predicate PrefixMonotone<A>(m: Monoid<A>, s: seq<nat>, less: A -> bool) {
    forall i, j :: 0 <= i <= j < |s| && less(Sum(m, s[..i])) ==> less(Sum(m, s[..j]))
  }

  /** `k` is the last position whose exclusive prefix is not beyond; -1 if all are. */
  ghost predicate LastPrefix<A>(m: Monoid<A>, s: seq<nat>, less: A -> bool, k: int) {
    && -1 <= k < |s|
    && (forall i :: 0 <= i <= k ==> !less(Sum(m, s[..i]))) && (forall i :: k < i < |s| ==> less(Sum(m, s[..i])))
  }

  ghost predicate Searching<A(!new)>(m: Monoid<A>, h: Heap<A>, root: Link, c: Ctx, l: Link, t: Tree, s: seq<nat>, less: A -> bool) {
    && Lawful(m) && PrefixMonotone(m, s, less)
    && (l != NULL ==> At(m, h, root, c, l, t, s))
    && (l == NULL <==> t == Leaf)
    && Pre(c) + InOrder(t) + Post(c) == s
    && (forall i :: 0 <= i < |Pre(c)| ==> !less(Sum(m, s[..i])))
    && (forall i :: |Pre(c)| + |InOrder(t)| <= i < |s| ==> less(Sum(m, s[..i])))
  }

  lemma SearchingStart<A(!new)>(m: Monoid<A>, h: Heap<A>, root: Link, t: Tree, less: A -> bool)
    requires Lawful(m) && PrefixMonotone(m, InOrder(t), less) && Rep(m, h, root, NULL, t)
    ensures Searching(m, h, root, Top, root, t, InOrder(t), less) && m.zero == Sum(m, Pre(Top))
    ensures LinkAt(InOrder(t), |Pre(Top)| - 1) == NULL
  {
    assert Pre(Top) + InOrder(t) + Post(Top) == InOrder(t);
    if root != NULL {
      AtRoot(m, h, root, t);
    }
  }

  lemma SearchingStep<A(!new)>(m: Monoid<A>, h: Heap<A>, root: Link, c: Ctx, l: Link, t: Tree, s: seq<nat>, less: A -> bool)
    requires Searching(m, h, root, c, l, t, s, less) && l != NULL
    ensures 0 <= l < |h| && t.Node? && ValidLink(h, h[l].child0) && ValidLink(h, h[l].child1)
    ensures var prefix := m.oper(Sum(m, Pre(c)), if h[l].child0 != NULL then h[h[l].child0].assoc else m.zero);
      && (less(prefix) ==> Searching(m, h, root, Down(c, t, false), h[l].child0, t.left, s, less))
      && (!less(prefix) ==> Searching(m, h, root, Down(c, t, true), h[l].child1, t.right, s, less))
      && m.oper(prefix, m.value(l)) == Sum(m, Pre(Down(c, t, true)))
    ensures Pre(Down(c, t, false)) == Pre(c)
    ensures LinkAt(s, |Pre(Down(c, t, true))| - 1) == l
    ensures Size(t.left) < Size(t) && Size(t.right) < Size(t)
  {
    hide Rep, InOrder, Pre, Post, Sum, Lawful, PrefixMonotone, At;
    AtDown(m, h, root, c, l, t, s, false);
    AtDown(m, h, root, c, l, t, s, true);
    AtIndex(m, h, root, c, l, t, s);
    AtFacts0(m, h, root, c, l, t, s);
    PrefixAt(m, h, root, c, l, t, s);
    DownIndex(c, t, false);
    DownIndex(c, t, true);
    SearchingSides(m, c, t, s, less, |Pre(c)| + |InOrder(t.left)|);
    SearchingSeq(c, t, s);
    LeafInOrder();
  }

  /** The two products the search computes at a node. */
  lemma PrefixAt<A(!new)>(m: Monoid<A>, h: Heap<A>, root: Link, c: Ctx, l: Link, t: Tree, s: seq<nat>)
    requires Lawful(m) && At(m, h, root, c, l, t, s)
    ensures 0 <= l < |h| && t.Node? && ValidLink(h, h[l].child0)
    ensures var prefix := m.oper(Sum(m, Pre(c)), if h[l].child0 != NULL then h[h[l].child0].assoc else m.zero);
      && |Pre(c)| + |InOrder(t.left)| < |s| && prefix == Sum(m, s[..|Pre(c)| + |InOrder(t.left)|])
      && m.oper(prefix, m.value(l)) == Sum(m, Pre(Down(c, t, true)))
    ensures Pre(Down(c, t, false)) == Pre(c)
  {
    AtPrefix(m, h, root, c, l, t, s);
    AtFacts0(m, h, root, c, l, t, s);
    hide Rep, InOrder, Sum, Lawful, At;
    LinkSum(m, h, h[l].child0, InOrder(t.left));
    SumConcat(m, Pre(c), InOrder(t.left));
    SumConcat(m, Pre(c) + InOrder(t.left), [t.id]);
    SumSingle(m, t.id);
    assert Pre(Down(c, t, true)) == Pre(c) + InOrder(t.left) + [t.id];
  }

  lemma SearchingSeq(c: Ctx, t: Tree, s: seq<nat>)
    requires t.Node? && Pre(c) + InOrder(t) + Post(c) == s
    ensures Pre(Down(c, t, false)) + InOrder(t.left) + Post(Down(c, t, false)) == s
    ensures Pre(Down(c, t, true)) + InOrder(t.right) + Post(Down(c, t, true)) == s
  {
    AroundWhole(Down(c, t, false), InOrder(t.left));
    AroundWhole(Down(c, t, true), InOrder(t.right));
  }

  /** The prefix at the node looked at decides for all positions on one side of it. */
  lemma SearchingSides<A(!new)>(m: Monoid<A>, c: Ctx, t: Tree, s: seq<nat>, less: A -> bool, j: int)
    requires PrefixMonotone(m, s, less) && t.Node? && j == |Pre(c)| + |InOrder(t.left)| && 0 <= j < |s|
    ensures less(Sum(m, s[..j])) ==> forall i :: j <= i < |s| ==> less(Sum(m, s[..i]))
    ensures !less(Sum(m, s[..j])) ==> forall i :: 0 <= i <= j ==> !less(Sum(m, s[..i]))
  {
  }

  lemma SearchingEnd<A(!new)>(m: Monoid<A>, h: Heap<A>, root: Link, c: Ctx, t: Tree, s: seq<nat>, less: A -> bool)
    requires Searching(m, h, root, c, NULL, t, s, less)
    ensures LastPrefix(m, s, less, |Pre(c)| - 1)
  {
  }

  lemma EmptyBounds(kc: nat -> int)
    ensures forall bound :: FirstBelow(kc, [], bound, NULL) && LastAtLeast(kc, [], bound, NULL)
  {
    assert LinkAt([], 0) == NULL && LinkAt([], -1) == NULL;
  }
}
