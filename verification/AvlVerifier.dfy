/** What the run-time verifier of the tree sees of the order. */
module AvlVerifier {
  import opened AvlTheory
  import opened Sequences
  import opened AvlSearch

  /** The run-time verifier compares every node with its children only. */
  ghost predicate ChildrenOrdered(cmp: (nat, nat) -> int, t: Tree) {
    t.Node? ==>
      && (t.left.Node? ==> cmp(t.left.id, t.id) == -1) && (t.right.Node? ==> cmp(t.right.id, t.id) == 1)
      && ChildrenOrdered(cmp, t.left) && ChildrenOrdered(cmp, t.right)
  }

  ghost predicate HeightsFit(t: Tree) {
    t.Node? ==> -1 <= Height(t.right) - Height(t.left) <= 1 && HeightsFit(t.left) && HeightsFit(t.right)
  }

  /** A sorted tree passes the check. */
  lemma {:induction false} SortedChildren(cmp: (nat, nat) -> int, t: Tree)
    requires TotalOrder(cmp) && Sorted(cmp, InOrder(t))
    ensures ChildrenOrdered(cmp, t)
  {
    if t.Node? {
      var l, r, s := InOrder(t.left), InOrder(t.right), InOrder(t);
      forall i, j | 0 <= i < j < |l| ensures cmp(l[i], l[j]) == -1 {
        assert s[i] == l[i] && s[j] == l[j];
      }
      forall i, j | 0 <= i < j < |r| ensures cmp(r[i], r[j]) == -1 {
        assert s[|l| + 1 + i] == r[i] && s[|l| + 1 + j] == r[j];
      }
      SortedChildren(cmp, t.left);
      SortedChildren(cmp, t.right);
      if t.left.Node? {
        var k := |InOrder(t.left.left)|;
        assert s[k] == l[k] == t.left.id && s[|l|] == t.id;
      }
      if t.right.Node? {
        var k := |InOrder(t.right.left)|;
        assert s[|l|] == t.id && s[|l| + 1 + k] == r[k] == t.right.id;
        assert CmpAt(cmp, t.right.id, t.id);
      }
    }
  }

  // ---------------------------------------------------------------- when the check is enough

  /** No left child has a right child, and no right child a left one. */
  predicate NoBend(t: Tree) {
    t.Node? ==>
      && (t.left.Node? ==> t.left.right.Leaf?) && (t.right.Node? ==> t.right.left.Leaf?)
      && NoBend(t.left) && NoBend(t.right)
  }

  lemma SortedJoin(cmp: (nat, nat) -> int, a: seq<nat>, x: nat, b: seq<nat>)
    requires TotalOrder(cmp) && Sorted(cmp, a) && Sorted(cmp, b)
    requires (a != [] ==> cmp(a[|a| - 1], x) == -1) && (b != [] ==> cmp(x, b[0]) == -1)
    ensures Sorted(cmp, a + [x] + b)
  {
    forall i | 0 <= i < |a| ensures cmp(a[i], x) == -1 {
      assert TransAt(cmp, a[i], a[|a| - 1], x) && CmpAt(cmp, a[i], x);
    }
    forall j | 0 <= j < |b| ensures cmp(x, b[j]) == -1 {
      assert TransAt(cmp, x, b[0], b[j]) && CmpAt(cmp, x, b[j]);
    }
    forall i, j | 0 <= i < |a| && 0 <= j < |b| ensures cmp(a[i], b[j]) == -1 {
      assert TransAt(cmp, a[i], x, b[j]) && CmpAt(cmp, a[i], b[j]);
    }
  }

  /** In a tree without a bend the neighbours of a node are its children: the check is enough. */
  lemma {:induction false} StraightSorted(cmp: (nat, nat) -> int, t: Tree)
    requires TotalOrder(cmp) && ChildrenOrdered(cmp, t) && NoBend(t)
    ensures Sorted(cmp, InOrder(t))
  {
    if t.Node? {
      hide TotalOrder, Sorted;
      StraightSorted(cmp, t.left);
      StraightSorted(cmp, t.right);
      if t.right.Node? {
        Antisymmetric(cmp, t.right.id, t.id);
      }
      SortedJoin(cmp, InOrder(t.left), t.id, InOrder(t.right));
    } else {
      assert InOrder(t) == [];
    }
  }

  lemma Antisymmetric(cmp: (nat, nat) -> int, a: nat, b: nat)
    requires TotalOrder(cmp)
    ensures cmp(a, b) == -cmp(b, a)
  {
    assert CmpAt(cmp, a, b);
  }

  // ---------------------------------------------------------------- when it is not

  /** Another order of the nodes that agrees with the tree on every node and its children, if the
      tree has a bend: there, the subtree in the bend is put on the other side of the upper node. */
  function Twisted(t: Tree): seq<nat>
    requires !NoBend(t)
  {
    if t.left.Node? && t.left.right.Node? then
      InOrder(t.left.left) + [t.left.id] + ([t.id] + InOrder(t.left.right) + InOrder(t.right))
    else if t.right.Node? && t.right.left.Node? then
      InOrder(t.left) + InOrder(t.right.left) + [t.id] + ([t.right.id] + InOrder(t.right.right))
    else if !NoBend(t.left) then
      Twisted(t.left) + ([t.id] + InOrder(t.right))
    else
      InOrder(t.left) + [t.id] + Twisted(t.right)
  }

  lemma Cross(cmp: (nat, nat) -> int, a: seq<nat>, b: seq<nat>)
    requires Sorted(cmp, a + b)
    ensures Sorted(cmp, a) && Sorted(cmp, b) && forall x, y :: x in a && y in b ==> cmp(x, y) == -1
  {
    var s := a + b;
    forall i, j | 0 <= i < j < |a| ensures cmp(a[i], a[j]) == -1 {
      assert s[i] == a[i] && s[j] == a[j];
    }
    forall i, j | 0 <= i < j < |b| ensures cmp(b[i], b[j]) == -1 {
      assert s[|a| + i] == b[i] && s[|a| + j] == b[j];
    }
    forall x, y | x in a && y in b ensures cmp(x, y) == -1 {
      var i :| 0 <= i < |a| && a[i] == x;
      var j :| 0 <= j < |b| && b[j] == y;
      assert s[i] == x && s[|a| + j] == y;
    }
  }

  lemma RootIn(t: Tree)
    ensures t.Node? ==> t.id in InOrder(t)
  {
  }

  /** A node that is not before, or not behind, the node above it. */
  lemma Misplaced(cmp: (nat, nat) -> int, t: Tree, x: nat)
    requires t.Node?
    requires (x in InOrder(t.left) && cmp(x, t.id) != -1) || (x in InOrder(t.right) && cmp(t.id, x) != -1)
    ensures !Sorted(cmp, InOrder(t))
  {
    if Sorted(cmp, InOrder(t)) {
      Cross(cmp, InOrder(t.left) + [t.id], InOrder(t.right));
      Cross(cmp, InOrder(t.left), [t.id]);
    }
  }

  lemma BentLeft(cmp: (nat, nat) -> int, t: Tree)
    requires TotalOrder(cmp) && t.Node? && t.left.Node? && t.left.right.Node? && Sorted(cmp, Twisted(t))
    ensures ChildrenOrdered(cmp, t) && !Sorted(cmp, InOrder(t))
  {
    hide Sorted, TotalOrder;
    var l, a, y, r := t.left, InOrder(t.left.left), InOrder(t.left.right), InOrder(t.right);
    Cross(cmp, a + [l.id], [t.id] + y + r);
    Cross(cmp, a, [l.id]);
    Cross(cmp, [t.id] + y, r);
    Cross(cmp, [t.id], y);
    RootIn(l.left);
    RootIn(l.right);
    RootIn(t.right);
    assert l.id in a + [l.id] && t.id in [t.id] + y + r && t.id in [t.id] + y;
    assert l.right.id in [t.id] + y + r && l.right.id in InOrder(l);
    hide InOrder;
    Antisymmetric(cmp, l.id, l.right.id);
    Antisymmetric(cmp, t.id, l.right.id);
    if t.right.Node? {
      Antisymmetric(cmp, t.id, t.right.id);
    }
    SortedChildren(cmp, l.left);
    SortedChildren(cmp, l.right);
    SortedChildren(cmp, t.right);
    Misplaced(cmp, t, l.right.id);
  }

  lemma BentRight(cmp: (nat, nat) -> int, t: Tree)
    requires TotalOrder(cmp) && t.Node? && t.right.Node? && t.right.left.Node? && (t.left.Node? ==> t.left.right.Leaf?)
    requires Sorted(cmp, Twisted(t))
    ensures ChildrenOrdered(cmp, t) && !Sorted(cmp, InOrder(t))
  {
    hide Sorted, TotalOrder;
    var r, l, y, a := t.right, InOrder(t.left), InOrder(t.right.left), InOrder(t.right.right);
    assert Twisted(t) == l + y + [t.id] + ([r.id] + a) by {
      hide InOrder;
    }
    Cross(cmp, l + y + [t.id], [r.id] + a);
    Cross(cmp, [r.id], a);
    Cross(cmp, l + y, [t.id]);
    Cross(cmp, l, y);
    RootIn(t.left);
    RootIn(r.left);
    RootIn(r.right);
    assert r.id in [r.id] + a && t.id in l + y + [t.id];
    assert r.left.id in l + y && r.left.id in l + y + [t.id] && r.left.id in InOrder(r);
    assert t.left.Node? ==> t.left.id in l + y;
    hide InOrder, Twisted, NoBend;
    Antisymmetric(cmp, t.id, r.id);
    Antisymmetric(cmp, t.id, r.left.id);
    if r.right.Node? {
      Antisymmetric(cmp, r.id, r.right.id);
    }
    SortedChildren(cmp, t.left);
    SortedChildren(cmp, r.left);
    SortedChildren(cmp, r.right);
    Misplaced(cmp, t, r.left.id);
  }

  /** If both sides are right, so is the whole. */
  lemma NodeOrdered(cmp: (nat, nat) -> int, t: Tree, l: seq<nat>, r: seq<nat>)
    requires TotalOrder(cmp) && t.Node? && Sorted(cmp, l + ([t.id] + r))
    requires (t.left.Node? ==> t.left.id in l) && (t.right.Node? ==> t.right.id in r)
    requires ChildrenOrdered(cmp, t.left) && ChildrenOrdered(cmp, t.right)
    ensures ChildrenOrdered(cmp, t)
  {
    hide Sorted, TotalOrder;
    Cross(cmp, l, [t.id] + r);
    Cross(cmp, [t.id], r);
    if t.right.Node? {
      Antisymmetric(cmp, t.id, t.right.id);
    }
  }

  lemma UnsortedBelow(cmp: (nat, nat) -> int, t: Tree)
    requires t.Node? && (!Sorted(cmp, InOrder(t.left)) || !Sorted(cmp, InOrder(t.right)))
    ensures !Sorted(cmp, InOrder(t))
  {
    if Sorted(cmp, InOrder(t)) {
      Cross(cmp, InOrder(t.left) + [t.id], InOrder(t.right));
      Cross(cmp, InOrder(t.left), [t.id]);
    }
  }

  /** The other order passes the check, and is not the order of the tree. */
  lemma {:induction false} TwistedPasses(cmp: (nat, nat) -> int, t: Tree)
    requires TotalOrder(cmp) && !NoBend(t) && Sorted(cmp, Twisted(t))
    ensures ChildrenOrdered(cmp, t) && !Sorted(cmp, InOrder(t))
  {
    hide TotalOrder, Sorted, InOrder;
    if t.left.Node? && t.left.right.Node? {
      BentLeft(cmp, t);
    } else if t.right.Node? && t.right.left.Node? {
      BentRight(cmp, t);
    } else {
      RootIn(t.left);
      RootIn(t.right);
      var l := if NoBend(t.left) then InOrder(t.left) else Twisted(t.left);
      var r := if NoBend(t.left) then Twisted(t.right) else InOrder(t.right);
      assert Twisted(t) == l + ([t.id] + r);
      Cross(cmp, l, [t.id] + r);
      Cross(cmp, [t.id], r);
      if NoBend(t.left) {
        TwistedPasses(cmp, t.right);
        TwistedMembers(t.right);
        SameMembers(Twisted(t.right), InOrder(t.right));
        SortedChildren(cmp, t.left);
      } else {
        TwistedPasses(cmp, t.left);
        TwistedMembers(t.left);
        SameMembers(Twisted(t.left), InOrder(t.left));
        SortedChildren(cmp, t.right);
      }
      hide Twisted, NoBend;
      NodeOrdered(cmp, t, l, r);
      UnsortedBelow(cmp, t);
    }
  }

  lemma MovedRight(a: seq<nat>, x: nat, y: seq<nat>, n: nat, r: seq<nat>)
    ensures multiset(a + [x] + ([n] + y + r)) == multiset(a + [x] + y + [n] + r)
  {
  }

  lemma MovedLeft(l: seq<nat>, n: nat, y: seq<nat>, x: nat, a: seq<nat>)
    ensures multiset(l + y + [n] + ([x] + a)) == multiset(l + [n] + (y + [x] + a))
  {
  }

  lemma SameOnLeft(l: seq<nat>, l': seq<nat>, n: nat, r: seq<nat>)
    requires multiset(l) == multiset(l')
    ensures multiset(l + ([n] + r)) == multiset(l' + [n] + r)
  {
  }

  lemma SameOnRight(l: seq<nat>, n: nat, r: seq<nat>, r': seq<nat>)
    requires multiset(r) == multiset(r')
    ensures multiset(l + [n] + r) == multiset(l + [n] + r')
  {
  }

  /** It is an order of the same nodes. */
  lemma {:induction false} TwistedMembers(t: Tree)
    requires !NoBend(t)
    ensures multiset(Twisted(t)) == multiset(InOrder(t))
  {
    if t.left.Node? && t.left.right.Node? {
      MovedRight(InOrder(t.left.left), t.left.id, InOrder(t.left.right), t.id, InOrder(t.right));
    } else if t.right.Node? && t.right.left.Node? {
      MovedLeft(InOrder(t.left), t.id, InOrder(t.right.left), t.right.id, InOrder(t.right.right));
    } else if !NoBend(t.left) {
      TwistedMembers(t.left);
      SameOnLeft(Twisted(t.left), InOrder(t.left), t.id, InOrder(t.right));
    } else {
      TwistedMembers(t.right);
      SameOnRight(InOrder(t.left), t.id, Twisted(t.right), InOrder(t.right));
    }
  }

  lemma SameMembers(s: seq<nat>, r: seq<nat>)
    requires multiset(s) == multiset(r)
    ensures forall x :: x in s <==> x in r
  {
    assert forall x :: x in s <==> x in multiset(s);
    assert forall x :: x in r <==> x in multiset(r);
  }

  lemma {:induction false} OnceCount(s: seq<nat>, x: nat)
    requires Once(s)
    ensures multiset(s)[x] <= 1
  {
    if s != [] {
      OnceTail(s);
      OnceCount(s[1..], x);
      assert s == [s[0]] + s[1..];
    }
  }

  lemma OnceMultiset(s: seq<nat>, r: seq<nat>)
    requires Once(s) && multiset(s) == multiset(r)
    ensures Once(r)
  {
    forall i, j | 0 <= i < j < |r| ensures r[i] != r[j] {
      OnceCount(s, r[i]);
      assert r == r[..i] + [r[i]] + r[i + 1..j] + [r[j]] + r[j + 1..];
    }
  }

  /** An order in which the nodes of `s` come as they stand in `s`. */
  function Key(s: seq<nat>, x: nat): int {
    if x in s then Index(s, x) - |s| else x
  }

  function ByPlace(s: seq<nat>): (nat, nat) -> int {
    (a: nat, b: nat) => if Key(s, a) < Key(s, b) then -1 else if Key(s, a) == Key(s, b) then 0 else 1
  }

  lemma ByPlaceOrders(s: seq<nat>)
    requires Once(s)
    ensures TotalOrder(ByPlace(s)) && Sorted(ByPlace(s), s)
  {
    var cmp := ByPlace(s);
    forall a, b ensures CmpAt(cmp, a, b) {
    }
    forall a, b, c ensures TransAt(cmp, a, b, c) {
    }
    forall i, j | 0 <= i < j < |s| ensures cmp(s[i], s[j]) == -1 {
      IndexAt(s, i);
      IndexAt(s, j);
    }
  }

  lemma TwistedWitness(t: Tree) returns (cmp: (nat, nat) -> int)
    requires Once(InOrder(t)) && !NoBend(t)
    ensures TotalOrder(cmp) && ChildrenOrdered(cmp, t) && !Sorted(cmp, InOrder(t))
  {
    hide TotalOrder, Sorted, Once;
    cmp := ByPlace(Twisted(t));
    TwistedMembers(t);
    OnceMultiset(InOrder(t), Twisted(t));
    ByPlaceOrders(Twisted(t));
    TwistedPasses(cmp, t);
  }

  /** The check makes a tree sorted, whatever the order, exactly if the tree has no bend. */
  lemma VerifierExact(t: Tree)
    requires Once(InOrder(t))
    ensures NoBend(t) <==> forall cmp :: TotalOrder(cmp) && ChildrenOrdered(cmp, t) ==> Sorted(cmp, InOrder(t))
  {
    hide TotalOrder, Sorted, Once;
    if NoBend(t) {
      forall cmp | TotalOrder(cmp) && ChildrenOrdered(cmp, t) ensures Sorted(cmp, InOrder(t)) {
        StraightSorted(cmp, t);
      }
    } else {
      var cmp := TwistedWitness(t);
    }
  }

  /** So it is not enough for any balanced tree of more than five nodes. */
  lemma VerifierTooWeak(t: Tree)
    requires Once(InOrder(t)) && HeightsFit(t) && |InOrder(t)| > 5
    ensures exists cmp :: TotalOrder(cmp) && ChildrenOrdered(cmp, t) && !Sorted(cmp, InOrder(t))
  {
    hide TotalOrder, Sorted, Once;
    if NoBend(t) {
      ShortArm(t.left);
      ShortArm(t.right);
      assert false;
    }
    var cmp := TwistedWitness(t);
  }

  /** A balanced arm without a bend has at most two nodes. */
  lemma ShortArm(t: Tree)
    requires HeightsFit(t) && t.Node? ==> t.left.Leaf? || t.right.Leaf?
    ensures HeightsFit(t) ==> |InOrder(t)| <= 2
  {
    if HeightsFit(t) && t.Node? {
      OneHigh(t.left);
      OneHigh(t.right);
    }
  }

  lemma OneHigh(t: Tree)
    ensures Height(t) == 0 ==> InOrder(t) == []
    ensures Height(t) <= 1 ==> |InOrder(t)| <= 1
  {
  }
}
