/** Singly linked lists over one arena of `next` links, as the hash table keeps them: one list for
    each bucket, no entry in two places. */
module Chains {
  import opened Sequences

  /** From `first` the links lead through exactly `c`. */
  ghost predicate Linked(next: seq<int>, first: int, c: seq<nat>) {
    first == LinkAt(c, 0) && forall k :: 0 <= k < |c| ==> c[k] < |next| && next[c[k]] == LinkAt(c, k + 1)
  }

  ghost predicate Disjoint(c: seq<nat>, d: seq<nat>) {
    forall e :: e in c ==> e !in d
  }

  ghost predicate Apart(lists: seq<seq<nat>>) {
    && (forall i :: 0 <= i < |lists| ==> Once(lists[i]))
    && (forall i, j :: 0 <= i < |lists| && 0 <= j < |lists| && i != j ==> Disjoint(lists[i], lists[j]))
  }

  ghost predicate Rep(next: seq<int>, heads: seq<int>, lists: seq<seq<nat>>) {
    && |heads| == |lists| && Apart(lists)
    && forall i :: 0 <= i < |lists| ==> Linked(next, heads[i], lists[i])
  }

  ghost predicate Absent(lists: seq<seq<nat>>, e: nat) {
    forall i :: 0 <= i < |lists| ==> e !in lists[i]
  }

  /** Writing the link of an entry that is not in a list leaves the list alone. */
  lemma LinkedElsewhere(next: seq<int>, first: int, c: seq<nat>, e: nat, v: int)
    requires Linked(next, first, c) && e < |next| && e !in c
    ensures Linked(next[e := v], first, c)
  {
  }

  lemma ApartReplace(lists: seq<seq<nat>>, b: nat, c: seq<nat>)
    requires Apart(lists) && b < |lists| && Once(c)
    requires forall e :: e in c ==> e in lists[b] || Absent(lists, e)
    ensures Apart(lists[b := c])
  {
    var lists' := lists[b := c];
    hide Once;
    forall i, j | 0 <= i < |lists'| && 0 <= j < |lists'| && i != j ensures Disjoint(lists'[i], lists'[j]) {
      assert Disjoint(lists[i], lists[j]);
      forall e | e in lists'[i] ensures e !in lists'[j] {
      }
    }
  }

  /** Changing list `b` and the link of `e`, an entry of that list or of none. */
  lemma RepReplace(next: seq<int>, heads: seq<int>, lists: seq<seq<nat>>, b: nat, head: int, c: seq<nat>, e: nat, v: int)
    requires Rep(next, heads, lists) && b < |lists| && e < |next| && Once(c) && Linked(next[e := v], head, c)
    requires forall g :: g in c ==> g in lists[b] || Absent(lists, g)
    requires e in lists[b] || Absent(lists, e)
    ensures Rep(next[e := v], heads[b := head], lists[b := c])
  {
    hide Once, Linked;
    ApartReplace(lists, b, c);
    forall i | 0 <= i < |lists| && i != b ensures Linked(next[e := v], heads[i], lists[i]) {
      assert e !in lists[i] by {
        if e in lists[b] {
          assert Disjoint(lists[b], lists[i]);
        }
      }
      LinkedElsewhere(next, heads[i], lists[i], e, v);
    }
  }

  /** A new entry at the front of list `b`. */
  lemma PushFront(next: seq<int>, heads: seq<int>, lists: seq<seq<nat>>, b: nat, e: nat)
    requires Rep(next, heads, lists) && b < |lists| && e < |next| && Absent(lists, e)
    ensures Rep(next[e := heads[b]], heads[b := e], lists[b := [e] + lists[b]])
  {
    var c := [e] + lists[b];
    assert Linked(next, heads[b], lists[b]);
    assert Linked(next[e := heads[b]], e, c) by {
      forall k | 0 <= k < |c| ensures c[k] < |next| && next[e := heads[b]][c[k]] == LinkAt(c, k + 1) {
        if k > 0 {
          assert c[k] == lists[b][k - 1];
        }
      }
    }
    assert Once(c) && (forall g :: g in c ==> g in lists[b] || Absent(lists, g));
    hide Linked, Once, Apart;
    RepReplace(next, heads, lists, b, e, c, e, heads[b]);
  }

  /** A new entry after the k-th of list `b`. */
  lemma InsertAfter(next: seq<int>, heads: seq<int>, lists: seq<seq<nat>>, b: nat, k: nat, e: nat)
    requires Rep(next, heads, lists) && b < |lists| && k < |lists[b]| && e < |next| && Absent(lists, e)
    ensures var c := lists[b]; c[k] < |next| && next[c[k]] == LinkAt(c, k + 1)
    ensures var c := lists[b];
      Rep(next[e := next[c[k]]][c[k] := e], heads, lists[b := c[..k + 1] + [e] + c[k + 1..]])
  {
    var c := lists[b];
    assert Linked(next, heads[b], c) && e !in c;
    var d := c[..k + 1] + [e] + c[k + 1..];
    var next1 := next[e := next[c[k]]];
    var next2 := next1[c[k] := e];
    LinkedInserted(next, heads[b], c, k, e);
    OnceInserted(c, k, e);
    assert c[k] in c;
    hide Linked, Once;
    assert Rep(next1, heads, lists) by {
      forall i | 0 <= i < |lists| ensures Linked(next1, heads[i], lists[i]) {
        LinkedElsewhere(next, heads[i], lists[i], e, next[c[k]]);
      }
    }
    RepReplace(next1, heads, lists, b, heads[b], d, c[k], e);
    assert heads[b := heads[b]] == heads;
  }

  lemma NextAt(next: seq<int>, first: int, c: seq<nat>, k: nat)
    requires Linked(next, first, c) && k < |c|
    ensures c[k] < |next| && next[c[k]] == LinkAt(c, k + 1)
  {
  }

  lemma LinkInsertedAt(next: seq<int>, first: int, c: seq<nat>, k: nat, e: nat, j: nat)
    requires Linked(next, first, c) && Once(c) && k < |c| && e < |next| && e !in c && j <= |c|
    ensures var d := c[..k + 1] + [e] + c[k + 1..];
      d[j] < |next| && next[e := next[c[k]]][c[k] := e][d[j]] == LinkAt(d, j + 1)
  {
    hide Once, Linked;
    InsertedAt(c, k + 1, e, j);
    InsertedAt(c, k + 1, e, j + 1);
    NextAt(next, first, c, k);
    if j != k + 1 {
      var i := if j <= k then j else j - 1;
      NextAt(next, first, c, i);
      AtUnique(c, k, i);
      assert c[i] in c;
    }
  }

  lemma LinkedInserted(next: seq<int>, first: int, c: seq<nat>, k: nat, e: nat)
    requires Linked(next, first, c) && Once(c) && k < |c| && e < |next| && e !in c
    ensures Linked(next[e := next[c[k]]][c[k] := e], first, c[..k + 1] + [e] + c[k + 1..])
  {
    hide Once;
    var d := c[..k + 1] + [e] + c[k + 1..];
    var next' := next[e := next[c[k]]][c[k] := e];
    InsertedAt(c, k + 1, e, 0);
    forall j | 0 <= j < |d| ensures d[j] < |next| && next'[d[j]] == LinkAt(d, j + 1) {
      LinkInsertedAt(next, first, c, k, e, j);
    }
  }

  lemma OnceInserted(c: seq<nat>, k: nat, e: nat)
    requires Once(c) && k < |c| && e !in c
    ensures Once(c[..k + 1] + [e] + c[k + 1..])
    ensures forall g :: g in c[..k + 1] + [e] + c[k + 1..] <==> g == e || g in c
  {
    var d := c[..k + 1] + [e] + c[k + 1..];
    assert c == c[..k + 1] + c[k + 1..];
  }

  /** Taking out the k-th entry of list `b`: by the head for the first one, else by the link of the
      entry before it. */
  lemma CutAt(next: seq<int>, heads: seq<int>, lists: seq<seq<nat>>, b: nat, k: nat)
    requires Rep(next, heads, lists) && b < |lists| && k < |lists[b]|
    ensures forall j :: 0 <= j < |lists[b]| ==> lists[b][j] < |next| && next[lists[b][j]] == LinkAt(lists[b], j + 1)
    ensures var c := lists[b];
      if k == 0 then Rep(next, heads[b := next[c[0]]], lists[b := Cut(c, k)])
      else Rep(next[c[k - 1] := next[c[k]]], heads, lists[b := Cut(c, k)])
    ensures Absent(lists[b := Cut(lists[b], k)], lists[b][k])
  {
    var c := lists[b];
    assert Linked(next, heads[b], c);
    var d := Cut(c, k);
    CutMembers(c, k);
    var p := if k == 0 then c[0] else c[k - 1];
    var v := next[c[k]];
    if k == 0 {
      assert Linked(next[p := next[p]], next[c[0]], d) by {
        assert next[p := next[p]] == next;
      }
    } else {
      LinkedCut(next, heads[b], c, k);
    }
    assert p in c && c[k] in c;
    assert Absent(lists[b := d], c[k]) by {
      forall i | 0 <= i < |lists| && i != b ensures c[k] !in lists[i] {
        assert Disjoint(lists[b], lists[i]);
      }
    }
    hide Linked, Once, Cut, Absent;
    RepReplace(next, heads, lists, b, if k == 0 then next[c[0]] else heads[b], d, p, if k == 0 then next[p] else v);
    assert next[p := next[p]] == next && heads[b := heads[b]] == heads;
  }

  lemma LinkCutAt(next: seq<int>, first: int, c: seq<nat>, k: nat, j: nat)
    requires Linked(next, first, c) && Once(c) && 0 < k < |c| && j < |c| - 1
    ensures var d := Cut(c, k); d[j] < |next| && next[c[k - 1] := next[c[k]]][d[j]] == LinkAt(d, j + 1)
  {
    hide Once, Linked;
    var i := if j < k then j else j + 1;
    NextAt(next, first, c, i);
    NextAt(next, first, c, k);
    NextAt(next, first, c, k - 1);
    AtCut(c, k, j);
    AtCut(c, k, j + 1);
    AtUnique(c, k - 1, i);
    assert Cut(c, k)[j] == c[i];
    assert i != k - 1 ==> c[i] != c[k - 1];
  }

  lemma LinkedCut(next: seq<int>, first: int, c: seq<nat>, k: nat)
    requires Linked(next, first, c) && Once(c) && 0 < k < |c|
    ensures Linked(next[c[k - 1] := next[c[k]]], first, Cut(c, k))
  {
    hide Once;
    AtCut(c, k, 0);
    var d, next' := Cut(c, k), next[c[k - 1] := next[c[k]]];
    forall j | 0 <= j < |d| ensures d[j] < |next'| && next'[d[j]] == LinkAt(d, j + 1) {
      LinkCutAt(next, first, c, k, j);
    }
  }

  /** What the links of list `b` are. */
  lemma LinksOf(next: seq<int>, heads: seq<int>, lists: seq<seq<nat>>, b: nat)
    requires Rep(next, heads, lists) && b < |lists|
    ensures |heads| == |lists| && heads[b] == LinkAt(lists[b], 0) && Once(lists[b])
    ensures forall k :: 0 <= k < |lists[b]| ==> lists[b][k] < |next| && next[lists[b][k]] == LinkAt(lists[b], k + 1)
  {
    assert Linked(next, heads[b], lists[b]);
  }

  /** The table grows by empty buckets. */
  lemma MoreBuckets(next: seq<int>, heads: seq<int>, lists: seq<seq<nat>>, n: nat)
    requires Rep(next, heads, lists)
    ensures Rep(next, heads + seq(n, j => NULL), lists + seq(n, j => []))
  {
    var heads', lists' := heads + seq(n, j => NULL), lists + seq(n, j => []);
    forall i | 0 <= i < |lists'| ensures Linked(next, heads'[i], lists'[i]) && Once(lists'[i]) {
      if i < |lists| {
        assert Linked(next, heads[i], lists[i]);
      }
    }
    hide Once, Linked;
    forall i, j | 0 <= i < |lists'| && 0 <= j < |lists'| && i != j ensures Disjoint(lists'[i], lists'[j]) {
      if i < |lists| && j < |lists| {
        assert Disjoint(lists[i], lists[j]);
      }
    }
  }

  /** List `b` is taken out of the table to be turned around, and put back. */
  lemma TakeList(next: seq<int>, heads: seq<int>, lists: seq<seq<nat>>, b: nat)
    requires Rep(next, heads, lists) && b < |lists|
    ensures Rep(next, heads[b := NULL] + [heads[b]], lists[b := []] + [lists[b]])
  {
    var heads', lists' := heads[b := NULL] + [heads[b]], lists[b := []] + [lists[b]];
    forall i | 0 <= i < |lists'| ensures Linked(next, heads'[i], lists'[i]) && Once(lists'[i]) {
      assert Linked(next, heads[b], lists[b]);
      if i < |lists| {
        assert Linked(next, heads[i], lists[i]);
      }
    }
    hide Once, Linked;
    forall i, j | 0 <= i < |lists'| && 0 <= j < |lists'| && i != j ensures Disjoint(lists'[i], lists'[j]) {
      if i != b && j != b {
        assert Disjoint(lists[if i < |lists| then i else b], lists[if j < |lists| then j else b]);
      }
    }
  }

  lemma DropList(next: seq<int>, heads: seq<int>, lists: seq<seq<nat>>)
    requires Rep(next, heads, lists) && lists != []
    ensures Rep(next, heads[..|heads| - 1], lists[..|lists| - 1])
  {
    var heads', lists' := heads[..|heads| - 1], lists[..|lists| - 1];
    forall i | 0 <= i < |lists'| ensures Linked(next, heads'[i], lists'[i]) && Once(lists'[i]) {
      assert Linked(next, heads[i], lists[i]);
    }
    hide Once, Linked;
    forall i, j | 0 <= i < |lists'| && 0 <= j < |lists'| && i != j ensures Disjoint(lists'[i], lists'[j]) {
      assert Disjoint(lists[i], lists[j]);
    }
  }
}
