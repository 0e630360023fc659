/** The mathematics behind the AVL engine: what an arena of linked entries represents.

    An arena is a sequence of entries whose links are indices into the arena. A `Tree`
    is the shape the links spell out, and a `Ctx` is such a tree with one subtree cut
    out: the path from the hole up to the root. `Rep` and `CtxLinks` tie the two to the
    arena, so that every operation can be described as replacing the subtree in a hole. */
module AvlTheory {
  import opened Sequences

  type Link = int

  /** The per-node fields of the tree. `Child(false)` is link[0], `Child(true)` is link[1]. */
  datatype Entry<A> = Entry(child0: Link, child1: Link, parent: Link, balance: int, count: int, assoc: A) {
    function Child(side: bool): Link {
      if side then child1 else child0
    }

    function SetChild(side: bool, l: Link): Entry<A> {
      if side then this.(child1 := l) else this.(child0 := l)
    }
  }

  type Heap<A> = seq<Entry<A>>

  datatype Tree = Leaf | Node(left: Tree, id: nat, right: Tree)

  /** A path upwards from a hole: the hole is the child at `side` of `id`, whose other
      child is `sib`. */
  datatype Ctx = Top | Frame(side: bool, id: nat, sib: Tree, up: Ctx)

  function Height(t: Tree): nat {
    match t
    case Leaf => 0
    case Node(a, _, b) => 1 + Max(Height(a), Height(b))
  }

  function Max(a: int, b: int): int {
    if a > b then a else b
  }

  function InOrder(t: Tree): seq<nat> {
    match t
    case Leaf => []
    case Node(a, i, b) => InOrder(a) + [i] + InOrder(b)
  }

  /** The tree whose root is `id`, with `t` as the child at `side` and `sib` as the other. */
  function Mk(side: bool, t: Tree, id: nat, sib: Tree): Tree {
    if side then Node(sib, id, t) else Node(t, id, sib)
  }

  /** The in-order sequence of `Mk` when the child at `side` has in-order sequence `s`. */
  function Around(side: bool, s: seq<nat>, id: nat, sib: Tree): seq<nat> {
    if side then InOrder(sib) + [id] + s else s + [id] + InOrder(sib)
  }

  /** What stands before, and after, the hole in the in-order sequence of the whole tree. */
  function Pre(c: Ctx): seq<nat> {
    match c
    case Top => []
    case Frame(side, id, sib, up) => if side then Pre(up) + (InOrder(sib) + [id]) else Pre(up)
  }

  function Post(c: Ctx): seq<nat> {
    match c
    case Top => []
    case Frame(side, id, sib, up) => if side then Post(up) else ([id] + InOrder(sib)) + Post(up)
  }

  /** The whole tree, once `t` is put in the hole. */
  function Plug(c: Ctx, t: Tree): Tree {
    match c
    case Top => t
    case Frame(side, id, sib, up) => Plug(up, Mk(side, t, id, sib))
  }

  // ---------------------------------------------------------------- the aggregate

  /** The associative operation, its identity, and the value each node contributes. */
  datatype Monoid<!A> = Monoid(zero: A, oper: (A, A) -> A, value: nat -> A)

  ghost predicate UnitAt<A>(m: Monoid<A>, a: A) {
    m.oper(m.zero, a) == a && m.oper(a, m.zero) == a
  }

  ghost predicate AssocAt<A>(m: Monoid<A>, a: A, b: A, c: A) {
    m.oper(m.oper(a, b), c) == m.oper(a, m.oper(b, c))
  }

  /** The header asks for associativity and a two-sided identity; commutativity is not asked for. */
  ghost predicate Lawful<A(!new)>(m: Monoid<A>) {
    && (forall a :: UnitAt(m, a))
    && (forall a, b, c :: AssocAt(m, a, b, c))
  }

  /** The product of the values of the nodes of `s`, in order. */
  function Sum<A>(m: Monoid<A>, s: seq<nat>): A {
    if s == [] then m.zero else m.oper(m.value(s[0]), Sum(m, s[1..]))
  }

  lemma {:induction false} SumConcat<A(!new)>(m: Monoid<A>, a: seq<nat>, b: seq<nat>)
    requires Lawful(m)
    ensures Sum(m, a + b) == m.oper(Sum(m, a), Sum(m, b))
  {
    if a == [] {
      assert a + b == b;
      assert UnitAt(m, Sum(m, b));
    } else {
      SumConcat(m, a[1..], b);
      assert (a + b)[1..] == a[1..] + b;
      assert AssocAt(m, m.value(a[0]), Sum(m, a[1..]), Sum(m, b));
    }
  }

  lemma SumSingle<A(!new)>(m: Monoid<A>, i: nat)
    requires Lawful(m)
    ensures Sum(m, [i]) == m.value(i)
  {
    assert [i][1..] == [];
    assert UnitAt(m, m.value(i));
  }

  // ---------------------------------------------------------------- distinct sequences

  lemma DistinctSplit(a: seq<nat>, b: seq<nat>)
    requires Once(a + b)
    ensures Once(a) && Once(b)
    ensures forall x :: x in a ==> x !in b
  {
    forall i, j | 0 <= i < j < |a| ensures a[i] != a[j] {
      assert (a + b)[i] == a[i] && (a + b)[j] == a[j];
    }
    forall i, j | 0 <= i < j < |b| ensures b[i] != b[j] {
      assert (a + b)[|a| + i] == b[i] && (a + b)[|a| + j] == b[j];
    }
    forall i, j | 0 <= i < |a| && 0 <= j < |b| ensures a[i] != b[j] {
      assert (a + b)[i] == a[i] && (a + b)[|a| + j] == b[j];
    }
  }

  /** Splitting a whole into three parts. */
  lemma DistinctSplit3(a: seq<nat>, b: seq<nat>, c: seq<nat>)
    requires Once(a + b + c)
    ensures Once(a) && Once(b) && Once(c)
    ensures forall x :: x in a ==> x !in b && x !in c
    ensures forall x :: x in b ==> x !in c
  {
    DistinctSplit(a + b, c);
    DistinctSplit(a, b);
    forall x | x in a || x in b ensures x !in c {
      assert x in a + b;
    }
  }

  // ---------------------------------------------------------------- representation

  ghost predicate NodeBal<A>(e: Entry<A>, hl: int, hr: int) {
    e.balance == hr - hl && -1 <= e.balance <= 1
  }

  ghost predicate NodeAug<A>(m: Monoid<A>, e: Entry<A>, s: seq<nat>) {
    e.count == |s| && e.assoc == Sum(m, s)
  }

  /** Link `l`, reached from parent `p`, spells out exactly the tree `t`: the parent links
      agree with the child links, every balance factor is the height difference and lies in
      [-1, 1], every count is the size and every aggregate the in-order product. */
  ghost predicate Rep<A>(m: Monoid<A>, h: Heap<A>, l: Link, p: Link, t: Tree)
    decreases t
  {
    match t
    case Leaf => l == NULL
    case Node(a, i, b) =>
      && l == i && i < |h| && h[i].parent == p
      && Rep(m, h, h[i].child0, i, a)
      && Rep(m, h, h[i].child1, i, b)
      && NodeBal(h[i], Height(a), Height(b))
      && NodeAug(m, h[i], InOrder(t))
  }

  /** The links of the path above a hole that is reached through link `l` from parent `p`. */
  ghost predicate CtxLinks<A>(m: Monoid<A>, h: Heap<A>, root: Link, c: Ctx, l: Link, p: Link)
    decreases c
  {
    match c
    case Top => root == l && p == NULL
    case Frame(side, i, sib, up) =>
      && p == i && i < |h| && h[i].Child(side) == l
      && Rep(m, h, h[i].Child(!side), i, sib)
      && CtxLinks(m, h, root, up, i, h[i].parent)
  }

  /** The balance factors of the path above a hole of height `k`. */
  ghost predicate CtxBal<A>(h: Heap<A>, c: Ctx, k: int)
    decreases c
  {
    match c
    case Top => true
    case Frame(side, i, sib, up) =>
      && i < |h|
      && (if side then NodeBal(h[i], Height(sib), k) else NodeBal(h[i], k, Height(sib)))
      && CtxBal(h, up, 1 + Max(k, Height(sib)))
  }

  /** The counts and aggregates of the path above a hole with in-order sequence `s`. */
  ghost predicate CtxAug<A>(m: Monoid<A>, h: Heap<A>, c: Ctx, s: seq<nat>)
    decreases c
  {
    match c
    case Top => true
    case Frame(side, i, sib, up) =>
      && i < |h|
      && NodeAug(m, h[i], Around(side, s, i, sib))
      && CtxAug(m, h, up, Around(side, s, i, sib))
  }

  /** A path that is right in every respect for the subtree `t`. */
  ghost predicate CtxRep<A>(m: Monoid<A>, h: Heap<A>, root: Link, c: Ctx, l: Link, p: Link, t: Tree) {
    && CtxLinks(m, h, root, c, l, p)
    && CtxBal(h, c, Height(t))
    && CtxAug(m, h, c, InOrder(t))
  }

  /** Nodes outside `s` keep their entries. */
  ghost predicate KeepsRest<A>(h: Heap<A>, k: Heap<A>, s: seq<nat>) {
    |k| == |h| && forall i :: 0 <= i < |h| && i !in s ==> k[i] == h[i]
  }

  lemma KeepsRestTrans<A>(h: Heap<A>, k: Heap<A>, w: Heap<A>, s: seq<nat>)
    requires KeepsRest(h, k, s) && KeepsRest(k, w, s)
    ensures KeepsRest(h, w, s)
  {
  }

  // ---------------------------------------------------------------- in-order arithmetic

  lemma {:induction false} InOrderPlug(c: Ctx, t: Tree)
    ensures InOrder(Plug(c, t)) == Pre(c) + InOrder(t) + Post(c)
    decreases c
  {
    match c
    case Top =>
    case Frame(side, id, sib, up) =>
      InOrderPlug(up, Mk(side, t, id, sib));
      AroundWhole(c, InOrder(t));
  }

  lemma RegroupLeft(a: seq<nat>, b: seq<nat>, x: nat, s: seq<nat>, p: seq<nat>)
    ensures a + (b + [x]) + s + p == a + (b + [x] + s) + p
  {
  }

  lemma RegroupRight(a: seq<nat>, s: seq<nat>, x: nat, b: seq<nat>, p: seq<nat>)
    ensures a + s + (([x] + b) + p) == a + (s + [x] + b) + p
  {
  }

  lemma RegroupNode(a: seq<nat>, l: seq<nat>, x: nat, r: seq<nat>, p: seq<nat>)
    ensures a + (l + [x] + r) + p == (a + l) + [x] + (r + p)
  {
  }

  lemma AroundWhole(c: Ctx, s: seq<nat>)
    requires c.Frame?
    ensures Pre(c) + s + Post(c) == Pre(c.up) + Around(c.side, s, c.id, c.sib) + Post(c.up)
  {
    hide InOrder;
    if c.side {
      RegroupLeft(Pre(c.up), InOrder(c.sib), c.id, s, Post(c.up));
    } else {
      RegroupRight(Pre(c.up), s, c.id, InOrder(c.sib), Post(c.up));
    }
  }

  lemma InOrderMk(side: bool, t: Tree, id: nat, sib: Tree)
    ensures InOrder(Mk(side, t, id, sib)) == Around(side, InOrder(t), id, sib)
    ensures Height(Mk(side, t, id, sib)) == 1 + Max(Height(t), Height(sib))
  {
  }

  lemma AroundLength(side: bool, s: seq<nat>, id: nat, sib: Tree)
    ensures |Around(side, s, id, sib)| == |s| + 1 + |InOrder(sib)|
  {
  }

  lemma LeafTree(i: nat)
    ensures InOrder(Node(Leaf, i, Leaf)) == [i] && Height(Node(Leaf, i, Leaf)) == 1
  {
  }

  /** Everything in the path above a hole: its own nodes and their other subtrees. */
  ghost predicate InCtx(c: Ctx, i: nat) {
    i in Pre(c) || i in Post(c)
  }

  /** The node nearest the hole, its other subtree, and the rest of the path have no
      node in common. */
  lemma CtxParts(c: Ctx, s: seq<nat>)
    requires c.Frame? && Once(Pre(c) + s + Post(c))
    ensures Once(Pre(c.up) + Around(c.side, s, c.id, c.sib) + Post(c.up))
    ensures Once(Around(c.side, s, c.id, c.sib)) && Once(s) && Once(InOrder(c.sib))
    ensures c.id !in s && c.id !in InOrder(c.sib) && !InCtx(c.up, c.id)
    ensures forall x :: x in s ==> x !in InOrder(c.sib) && !InCtx(c.up, x) && !InCtx(c, x)
    ensures forall x :: x in InOrder(c.sib) ==> !InCtx(c.up, x)
    ensures forall x :: InCtx(c, x) <==> x == c.id || x in InOrder(c.sib) || InCtx(c.up, x)
  {
    AroundWhole(c, s);
    var w := Around(c.side, s, c.id, c.sib);
    DistinctSplit3(Pre(c.up), w, Post(c.up));
    DistinctSplit3(Pre(c), s, Post(c));
    if c.side {
      DistinctSplit3(InOrder(c.sib), [c.id], s);
    } else {
      DistinctSplit3(s, [c.id], InOrder(c.sib));
    }
    assert c.id in [c.id];
    assert c.id in w;
    forall x | x in s || x in InOrder(c.sib) ensures x in w {
    }
  }

  // ---------------------------------------------------------------- framing

  /** Two arenas agree on the nodes of `s`. */
  ghost predicate Same<A>(h: Heap<A>, g: Heap<A>, s: seq<nat>) {
    |h| == |g| && forall i :: i in s && i < |h| ==> h[i] == g[i]
  }

  ghost predicate SameCtx<A>(h: Heap<A>, g: Heap<A>, c: Ctx) {
    |h| == |g| && forall i: nat :: InCtx(c, i) && i < |h| ==> h[i] == g[i]
  }

  lemma {:induction false} RepSame<A>(m: Monoid<A>, h: Heap<A>, g: Heap<A>, l: Link, p: Link, t: Tree)
    requires Rep(m, h, l, p, t) && Same(h, g, InOrder(t))
    ensures Rep(m, g, l, p, t)
    decreases t
  {
    match t
    case Leaf =>
    case Node(a, i, b) =>
      assert i in InOrder(t);
      RepSame(m, h, g, h[i].child0, i, a);
      RepSame(m, h, g, h[i].child1, i, b);
  }

  /** Changing only the parent link of the root of a subtree. */
  lemma RepReparent<A>(m: Monoid<A>, h: Heap<A>, g: Heap<A>, l: Link, p: Link, q: Link, t: Tree)
    requires Rep(m, h, l, p, t) && Once(InOrder(t))
    requires |h| == |g| && forall i :: i in InOrder(t) && i < |h| ==> g[i] == if i == l then h[i].(parent := q) else h[i]
    ensures Rep(m, g, l, q, t)
  {
    if t.Node? {
      DistinctSplit3(InOrder(t.left), [t.id], InOrder(t.right));
      assert t.id in [t.id] && t.id in InOrder(t);
      RepSame(m, h, g, h[t.id].child0, t.id, t.left);
      RepSame(m, h, g, h[t.id].child1, t.id, t.right);
    }
  }

  lemma {:induction false} CtxSame<A>(m: Monoid<A>, h: Heap<A>, g: Heap<A>, root: Link, c: Ctx, l: Link, p: Link)
    requires CtxLinks(m, h, root, c, l, p) && SameCtx(h, g, c)
    ensures CtxLinks(m, g, root, c, l, p)
    decreases c
  {
    if c.Frame? {
      FrameInCtx(c);
      RepSame(m, h, g, h[c.id].Child(!c.side), c.id, c.sib);
      CtxSame(m, h, g, root, c.up, c.id, h[c.id].parent);
    }
  }

  lemma FrameInCtx(c: Ctx)
    requires c.Frame?
    ensures InCtx(c, c.id)
    ensures forall x :: x in InOrder(c.sib) || InCtx(c.up, x) ==> InCtx(c, x)
  {
  }

  /** The balance factors, and the counts and aggregates, of a path depend on those fields only. */
  ghost predicate SameBal<A>(h: Heap<A>, g: Heap<A>, c: Ctx) {
    |h| == |g| && forall i: nat :: InCtx(c, i) && i < |h| ==> h[i].balance == g[i].balance
  }

  ghost predicate SameAug<A>(h: Heap<A>, g: Heap<A>, c: Ctx) {
    |h| == |g| && forall i: nat :: InCtx(c, i) && i < |h| ==> h[i].count == g[i].count && h[i].assoc == g[i].assoc
  }

  lemma {:induction false} CtxBalSame<A>(h: Heap<A>, g: Heap<A>, c: Ctx, k: int)
    requires CtxBal(h, c, k) && SameBal(h, g, c)
    ensures CtxBal(g, c, k)
    decreases c
  {
    if c.Frame? {
      FrameInCtx(c);
      CtxBalSame(h, g, c.up, 1 + Max(k, Height(c.sib)));
    }
  }

  lemma {:induction false} CtxAugSame<A>(m: Monoid<A>, h: Heap<A>, g: Heap<A>, c: Ctx, s: seq<nat>)
    requires CtxAug(m, h, c, s) && SameAug(h, g, c)
    ensures CtxAug(m, g, c, s)
    decreases c
  {
    if c.Frame? {
      FrameInCtx(c);
      CtxAugSame(m, h, g, c.up, Around(c.side, s, c.id, c.sib));
    }
  }

  /** The node above a hole, with its hole filled, is right, and so is the path above it. */
  lemma MkRepIn<A>(m: Monoid<A>, h: Heap<A>, root: Link, c: Ctx, l: Link, p: Link, t: Tree)
    requires c.Frame? && CtxRep(m, h, root, c, l, p, t) && Rep(m, h, l, p, t)
    ensures c.id < |h| && p == c.id
    ensures var u := Mk(c.side, t, c.id, c.sib);
      CtxRep(m, h, root, c.up, c.id, h[c.id].parent, u) && Rep(m, h, c.id, h[c.id].parent, u)
  {
    hide Rep, CtxLinks, CtxBal, CtxAug, InOrder, Around, NodeAug, NodeBal, Height, Mk;
    LinksAbove(m, h, root, c, l, p);
    BalAbove(h, c, Height(t));
    AugAbove(m, h, c, InOrder(t));
    InOrderMk(c.side, t, c.id, c.sib);
    MkRight(m, h, c.side, t, c.id, c.sib);
  }

  /** The path above a hole, one node up: its links, its balance factors, its counts and aggregates. */
  lemma LinksAbove<A>(m: Monoid<A>, h: Heap<A>, root: Link, c: Ctx, l: Link, p: Link)
    requires c.Frame? && CtxLinks(m, h, root, c, l, p)
    ensures p == c.id && c.id < |h| && h[c.id].Child(c.side) == l
    ensures Rep(m, h, h[c.id].Child(!c.side), c.id, c.sib) && CtxLinks(m, h, root, c.up, c.id, h[c.id].parent)
  {
  }

  lemma BalAbove<A>(h: Heap<A>, c: Ctx, k: int)
    requires c.Frame? && CtxBal(h, c, k)
    ensures c.id < |h| && if c.side then NodeBal(h[c.id], Height(c.sib), k) else NodeBal(h[c.id], k, Height(c.sib))
    ensures CtxBal(h, c.up, 1 + Max(k, Height(c.sib)))
  {
  }

  lemma AugAbove<A>(m: Monoid<A>, h: Heap<A>, c: Ctx, s: seq<nat>)
    requires c.Frame? && CtxAug(m, h, c, s)
    ensures c.id < |h| && NodeAug(m, h[c.id], Around(c.side, s, c.id, c.sib))
    ensures CtxAug(m, h, c.up, Around(c.side, s, c.id, c.sib))
  {
  }

  /** A node with two right subtrees, and its own fields right, is a right tree. */
  lemma MkRight<A>(m: Monoid<A>, h: Heap<A>, side: bool, t: Tree, id: nat, sib: Tree)
    requires id < |h| && Rep(m, h, h[id].Child(side), id, t) && Rep(m, h, h[id].Child(!side), id, sib)
    requires if side then NodeBal(h[id], Height(sib), Height(t)) else NodeBal(h[id], Height(t), Height(sib))
    requires NodeAug(m, h[id], InOrder(Mk(side, t, id, sib)))
    ensures Rep(m, h, id, h[id].parent, Mk(side, t, id, sib)) && Height(Mk(side, t, id, sib)) == 1 + Max(Height(t), Height(sib))
  {
    hide NodeAug, NodeBal, InOrder;
  }

  /** A right path around a right subtree is a right tree. */
  lemma {:induction false} PlugRep<A>(m: Monoid<A>, h: Heap<A>, root: Link, c: Ctx, l: Link, p: Link, t: Tree)
    requires CtxRep(m, h, root, c, l, p, t) && Rep(m, h, l, p, t)
    ensures Rep(m, h, root, NULL, Plug(c, t))
    decreases c
  {
    if c.Frame? {
      MkRepIn(m, h, root, c, l, p, t);
      hide Rep, InOrder, CtxLinks, CtxBal, CtxAug;
      PlugRep(m, h, root, c.up, c.id, h[c.id].parent, Mk(c.side, t, c.id, c.sib));
    }
  }

  /** Going one step down from a right node: the child becomes the hole. */
  lemma StepDown<A>(m: Monoid<A>, h: Heap<A>, root: Link, c: Ctx, l: Link, p: Link, t: Tree, side: bool)
    requires t.Node? && CtxRep(m, h, root, c, l, p, t) && Rep(m, h, l, p, t)
    ensures var d := Down(c, t, side); var u := Child(t, side);
      && CtxRep(m, h, root, d, h[t.id].Child(side), t.id, u)
      && Rep(m, h, h[t.id].Child(side), t.id, u)
      && Pre(d) + InOrder(u) + Post(d) == Pre(c) + InOrder(t) + Post(c)
  {
    var d := Down(c, t, side);
    var u := Child(t, side);
    assert t == Mk(side, u, t.id, d.sib);
    InOrderMk(side, u, t.id, d.sib);
    AroundWhole(d, InOrder(u));
    assert CtxBal(h, d, Height(u));
    assert CtxAug(m, h, d, InOrder(u));
  }

  function Child(t: Tree, side: bool): Tree
    requires t.Node?
  {
    if side then t.right else t.left
  }

  function Down(c: Ctx, t: Tree, side: bool): Ctx
    requires t.Node?
  {
    Frame(side, t.id, Child(t, !side), c)
  }

  /** Going one step up from a hole: the node above becomes the subtree. */
  lemma StepUp<A>(m: Monoid<A>, h: Heap<A>, root: Link, c: Ctx, l: Link, p: Link, t: Tree)
    requires c.Frame? && CtxRep(m, h, root, c, l, p, t) && Rep(m, h, l, p, t)
    ensures var u := Mk(c.side, t, c.id, c.sib);
      && CtxRep(m, h, root, c.up, p, h[c.id].parent, u)
      && Rep(m, h, p, h[c.id].parent, u)
      && Pre(c.up) + InOrder(u) + Post(c.up) == Pre(c) + InOrder(t) + Post(c)
  {
    MkRepIn(m, h, root, c, l, p, t);
    InOrderMk(c.side, t, c.id, c.sib);
    AroundWhole(c, InOrder(t));
    hide Rep, InOrder, CtxLinks, CtxBal, CtxAug, Pre, Post;
  }

  /** Putting another link in the hole: only the child link of the node above changes. */
  lemma CtxNewHole<A>(m: Monoid<A>, h: Heap<A>, g: Heap<A>, root: Link, root': Link, c: Ctx, l: Link, l': Link, p: Link, s: seq<nat>)
    requires CtxLinks(m, h, root, c, l, p) && Once(Pre(c) + s + Post(c))
    requires |h| == |g| && forall i: nat :: InCtx(c, i) && i < |h| && i != p ==> g[i] == h[i]
    requires c.Top? ==> root' == l'
    requires c.Frame? ==>
      && root' == root && g[c.id].Child(c.side) == l'
      && g[c.id].Child(!c.side) == h[c.id].Child(!c.side) && g[c.id].parent == h[c.id].parent
    ensures CtxLinks(m, g, root', c, l', p)
  {
    if c.Frame? {
      CtxParts(c, s);
      RepSame(m, h, g, h[c.id].Child(!c.side), c.id, c.sib);
      CtxSame(m, h, g, root, c.up, c.id, h[c.id].parent);
    }
  }

  /** Where a node of a tree is: the path to it and the subtree it heads. */
  lemma {:induction false} Locate<A>(m: Monoid<A>, h: Heap<A>, root: Link, c: Ctx, l: Link, p: Link, t: Tree, x: nat)
    returns (d: Ctx, u: Tree)
    requires CtxRep(m, h, root, c, l, p, t) && Rep(m, h, l, p, t) && x in InOrder(t)
    ensures u.Node? && u.id == x && x < |h|
    ensures CtxRep(m, h, root, d, x, h[x].parent, u) && Rep(m, h, x, h[x].parent, u)
    ensures Pre(d) + InOrder(u) + Post(d) == Pre(c) + InOrder(t) + Post(c)
    ensures Plug(d, u) == Plug(c, t)
    decreases t
  {
    if t.id == x {
      d, u := c, t;
    } else {
      var side := x in InOrder(t.right);
      StepDown(m, h, root, c, l, p, t, side);
      d, u := Locate(m, h, root, Down(c, t, side), h[t.id].Child(side), t.id, Child(t, side), x);
    }
  }
}
