/** What several modules say of sequences, and of links, which are indices with a null. */
module Sequences {
  /** The null link. */
  const NULL: int := -1

  /** No element twice. */
  ghost predicate Once<T>(s: seq<T>) {
    forall i, j :: 0 <= i < j < |s| ==> s[i] != s[j]
  }

  /** The element at a position, as a link: null outside the sequence. */
  function LinkAt(s: seq<nat>, k: int): int {
    if 0 <= k < |s| then s[k] else NULL
  }

  /** The sequence without its k-th element. */
  function Cut<T>(s: seq<T>, k: nat): seq<T>
    requires k < |s|
  {
    s[..k] + s[k + 1..]
  }

  function Rev<T>(s: seq<T>): seq<T> {
    seq(|s|, k requires 0 <= k < |s| => s[|s| - 1 - k])
  }

  /** The sequence without `x`. */
  function Without<T(==, !new)>(s: seq<T>, x: T): (r: seq<T>)
    ensures x !in r && forall i :: i in r <==> i in s && i != x
  {
    if s == [] then [] else if s[0] == x then Without(s[1..], x) else [s[0]] + Without(s[1..], x)
  }

  lemma {:induction false} WithoutAbsent<T(!new)>(s: seq<T>, x: T)
    requires x !in s
    ensures Without(s, x) == s
  {
    if s != [] {
      WithoutAbsent(s[1..], x);
    }
  }

  lemma {:induction false} WithoutAt<T(!new)>(s: seq<T>, k: nat)
    requires Once(s) && k < |s|
    ensures Without(s, s[k]) == s[..k] + s[k + 1..]
  {
    var x := s[k];
    if k == 0 {
      WithoutAbsent(s[1..], x);
    } else {
      WithoutAt(s[1..], k - 1);
      assert s[1..][..k - 1] == s[1..k] && s[1..][k..] == s[k + 1..];
      assert [s[0]] + s[1..k] == s[..k];
    }
  }

  lemma OnceTail<T(!new)>(s: seq<T>)
    requires Once(s) && s != []
    ensures Once(s[1..]) && s[0] !in s[1..]
  {
    forall i, k | 0 <= i < k < |s[1..]| ensures s[1..][i] != s[1..][k] {
      assert s[i + 1] != s[k + 1];
    }
  }

  lemma OnceCons<T(!new)>(x: T, s: seq<T>)
    requires Once(s) && x !in s
    ensures Once([x] + s)
  {
  }

  lemma {:induction false} WithoutOnce<T(!new)>(s: seq<T>, x: T)
    requires Once(s)
    ensures Once(Without(s, x))
  {
    if s != [] {
      OnceTail(s);
      WithoutOnce(s[1..], x);
      if s[0] != x {
        OnceCons(s[0], Without(s[1..], x));
      }
    }
  }

  lemma PlaceOf(s: seq<nat>, x: int) returns (j: nat)
    requires x in s
    ensures j < |s| && s[j] == x
  {
    j :| j < |s| && s[j] == x;
  }

  /** The first place of `x`; the length if it is not there. */
  function Index(s: seq<nat>, x: int): nat {
    if s == [] || s[0] == x then 0 else 1 + Index(s[1..], x)
  }

  lemma {:induction false} IndexIn(s: seq<nat>, x: int)
    ensures Index(s, x) <= |s| && (x in s <==> Index(s, x) < |s|) && (x in s ==> s[Index(s, x)] == x)
    ensures forall k :: 0 <= k < Index(s, x) ==> s[k] != x
  {
    if s != [] && s[0] != x {
      IndexIn(s[1..], x);
      assert s == [s[0]] + s[1..];
      forall k | 0 <= k < Index(s, x) ensures s[k] != x {
        assert k > 0 ==> s[k] == s[1..][k - 1];
      }
    }
  }

  lemma IndexAt(s: seq<nat>, k: nat)
    requires Once(s) && k < |s|
    ensures Index(s, s[k]) == k
  {
    IndexIn(s, s[k]);
  }

  lemma CutMembers<T(!new)>(c: seq<T>, k: nat)
    requires Once(c) && k < |c|
    ensures Once(Cut(c, k)) && forall g :: g in Cut(c, k) <==> g in c && g != c[k]
  {
    assert c == c[..k] + [c[k]] + c[k + 1..];
  }

  /** The sequence with `x` at place `k`. */
  function Inserted(s: seq<nat>, k: nat, x: nat): seq<nat>
    requires k <= |s|
  {
    s[..k] + [x] + s[k..]
  }

  lemma InsertedAt(s: seq<nat>, k: nat, x: nat, j: int)
    requires k <= |s|
    ensures LinkAt(Inserted(s, k, x), j) == if j < k then LinkAt(s, j) else if j == k then x else LinkAt(s, j - 1)
  {
  }

  lemma AtUnique(s: seq<nat>, i: int, j: nat)
    requires Once(s) && j < |s|
    ensures LinkAt(s, i) == s[j] <==> i == j
  {
  }

  lemma AtCut(s: seq<nat>, k: nat, j: int)
    requires k < |s|
    ensures LinkAt(Cut(s, k), j) == if j < k then LinkAt(s, j) else LinkAt(s, j + 1)
  {
  }
}
