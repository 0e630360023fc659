/** The chained hash table: buckets of linked entries, equal entries side by side. */
module CHash {
  import opened Chains
  import opened Sequences

  /** The key of each entry and the hash of each key. */
  datatype Keys<!K> = Keys(keyOf: nat -> K, hash: K -> nat)

  // ---------------------------------------------------------------- the entries with one key

  /** The entries of a chain that have the key, in order. */
  function Group<K(==)>(x: Keys<K>, c: seq<nat>, key: K): seq<nat> {
    if c == [] then [] else (if x.keyOf(c[0]) == key then [c[0]] else []) + Group(x, c[1..], key)
  }

  lemma {:induction false} GroupMembers<K>(x: Keys<K>, c: seq<nat>, key: K)
    ensures forall e :: e in Group(x, c, key) <==> e in c && x.keyOf(e) == key
  {
    if c != [] {
      GroupMembers(x, c[1..], key);
    }
  }

  lemma GroupCons<K>(x: Keys<K>, e: nat, c: seq<nat>, key: K)
    ensures Group(x, [e] + c, key) == if x.keyOf(e) == key then [e] + Group(x, c, key) else Group(x, c, key)
  {
    assert ([e] + c)[1..] == c;
  }

  lemma {:induction false} GroupConcat<K>(x: Keys<K>, c: seq<nat>, d: seq<nat>, key: K)
    ensures Group(x, c + d, key) == Group(x, c, key) + Group(x, d, key)
  {
    hide Group;
    if c == [] {
      GroupEmpty(x, key);
      assert c + d == d && [] + Group(x, d, key) == Group(x, d, key);
    } else {
      GroupConcat(x, c[1..], d, key);
      GroupCons(x, c[0], c[1..], key);
      GroupCons(x, c[0], c[1..] + d, key);
      assert c == [c[0]] + c[1..] && c + d == [c[0]] + (c[1..] + d);
    }
  }

  lemma GroupEmpty<K>(x: Keys<K>, key: K)
    ensures Group(x, [], key) == []
  {
  }

  lemma GroupMid<K>(x: Keys<K>, c: seq<nat>, e: nat, d: seq<nat>, key: K)
    ensures Group(x, c + [e] + d, key) == Group(x, c, key) + (if x.keyOf(e) == key then [e] else []) + Group(x, d, key)
  {
    GroupConcat(x, c + [e], d, key);
    GroupConcat(x, c, [e], key);
    assert [e][1..] == [] && Group(x, [], key) == [];
  }

  lemma GroupNone<K>(x: Keys<K>, c: seq<nat>, key: K)
    requires forall e :: e in c ==> x.keyOf(e) != key
    ensures Group(x, c, key) == []
  {
    GroupMembers(x, c, key);
    hide Group;
    SomeMember(Group(x, c, key));
  }

  lemma SomeMember(s: seq<nat>)
    ensures s == [] || exists e :: e in s
  {
    if s != [] {
      assert s[0] in s;
    }
  }

  /** Equal entries are side by side. */
  ghost predicate Grouped<K>(x: Keys<K>, c: seq<nat>) {
    forall i, j, k :: 0 <= i < j < k < |c| && x.keyOf(c[i]) == x.keyOf(c[k]) ==> x.keyOf(c[j]) == x.keyOf(c[i])
  }

  function Bucket<K>(x: Keys<K>, key: K, n: nat): nat
    requires 0 < n
  {
    x.hash(key) % n
  }

  /** Every entry is in the bucket of its hash, equal entries side by side. */
  ghost predicate Good<K>(x: Keys<K>, lists: seq<seq<nat>>) {
    && 0 < |lists|
    && (forall b, e :: 0 <= b < |lists| && e in lists[b] ==> Bucket(x, x.keyOf(e), |lists|) == b)
    && (forall b :: 0 <= b < |lists| ==> Grouped(x, lists[b]))
  }

  /** All entries of the table with the key, in the order in which they are found. */
  function EntriesOf<K(==)>(x: Keys<K>, lists: seq<seq<nat>>, key: K): seq<nat>
    requires 0 < |lists|
  {
    Group(x, lists[Bucket(x, key, |lists|)], key)
  }

  /** The entries with key `key` are now `s`; those of every other key are as they were. */
  ghost predicate Updated<K(!new)>(x: Keys<K>, lists: seq<seq<nat>>, lists': seq<seq<nat>>, key: K, s: seq<nat>)
    requires 0 < |lists| && 0 < |lists'|
  {
    forall k :: EntriesOf(x, lists', k) == if k == key then s else EntriesOf(x, lists, k)
  }

  /** The table holds an entry exactly if it is among the entries of its key. */
  lemma EntriesComplete<K>(x: Keys<K>, lists: seq<seq<nat>>, e: nat)
    requires Good(x, lists)
    ensures !Absent(lists, e) <==> e in EntriesOf(x, lists, x.keyOf(e))
    ensures !Absent(lists, e) <==> e in lists[Bucket(x, x.keyOf(e), |lists|)]
  {
    GroupMembers(x, lists[Bucket(x, x.keyOf(e), |lists|)], x.keyOf(e));
    hide Group;
  }

  /** Putting an entry before the first equal one of its bucket, or in front of all. */
  lemma InsertedGood<K(!new)>(x: Keys<K>, lists: seq<seq<nat>>, b: nat, k: nat, e: nat)
    requires Good(x, lists) && b < |lists| && b == Bucket(x, x.keyOf(e), |lists|) && k <= |lists[b]|
    requires forall i :: 0 <= i < k ==> x.keyOf(lists[b][i]) != x.keyOf(e)
    requires (k < |lists[b]| && x.keyOf(lists[b][k]) == x.keyOf(e)) || (k == 0 && Group(x, lists[b], x.keyOf(e)) == [])
    ensures var lists' := lists[b := lists[b][..k] + [e] + lists[b][k..]];
      Good(x, lists') && Updated(x, lists, lists', x.keyOf(e), [e] + EntriesOf(x, lists, x.keyOf(e)))
  {
    hide Grouped, Group;
    var c, key := lists[b], x.keyOf(e);
    var c' := c[..k] + [e] + c[k..];
    var lists' := lists[b := c'];
    GroupedInserted(x, c, k, e);
    forall g ensures g in c' <==> g == e || g in c {
      assert c == c[..k] + c[k..];
    }
    forall l ensures EntriesOf(x, lists', l) == if l == key then [e] + EntriesOf(x, lists, key) else EntriesOf(x, lists, l) {
      GroupInserted(x, c, k, e, l);
    }
  }

  lemma GroupInserted<K>(x: Keys<K>, c: seq<nat>, k: nat, e: nat, key: K)
    requires k <= |c| && forall i :: 0 <= i < k ==> x.keyOf(c[i]) != x.keyOf(e)
    ensures Group(x, c[..k] + [e] + c[k..], key) == if key == x.keyOf(e) then [e] + Group(x, c, key) else Group(x, c, key)
  {
    hide Group;
    GroupMid(x, c[..k], e, c[k..], key);
    GroupConcat(x, c[..k], c[k..], key);
    assert c == c[..k] + c[k..];
    if key == x.keyOf(e) {
      GroupNone(x, c[..k], key);
      assert Group(x, c[..k], key) + [e] + Group(x, c[k..], key) == [e] + Group(x, c[k..], key);
    }
  }

  /** Where an entry of the longer chain was before. */
  lemma InsertedFrom(c: seq<nat>, k: nat, e: nat, n: nat)
    requires k <= |c| && n < |c| + 1
    ensures (c[..k] + [e] + c[k..])[n] == if n < k then c[n] else if n == k then e else c[n - 1]
  {
  }

  lemma GroupedInserted<K>(x: Keys<K>, c: seq<nat>, k: nat, e: nat)
    requires Grouped(x, c) && k <= |c|
    requires forall i :: 0 <= i < k ==> x.keyOf(c[i]) != x.keyOf(e)
    requires (k < |c| && x.keyOf(c[k]) == x.keyOf(e)) || (k == 0 && Group(x, c, x.keyOf(e)) == [])
    ensures Grouped(x, c[..k] + [e] + c[k..])
  {
    hide Group;
    var d := c[..k] + [e] + c[k..];
    NoneEqual(x, c, x.keyOf(e));
    forall i, j, l | 0 <= i < j < l < |d| && x.keyOf(d[i]) == x.keyOf(d[l])
      ensures x.keyOf(d[j]) == x.keyOf(d[i])
    {
      InsertedFrom(c, k, e, i);
      InsertedFrom(c, k, e, j);
      InsertedFrom(c, k, e, l);
      hide Grouped;
      var i', j', l' := if i < k then i else i - 1, if j < k then j else j - 1, if l < k then l else l - 1;
      if i == k && j > k + 1 {
        GroupedAt(x, c, k, j', l');
      } else if i != k && l != k && j != k {
        GroupedAt(x, c, i', j', l');
      }
    }
  }

  lemma GroupedAt<K>(x: Keys<K>, c: seq<nat>, i: nat, j: nat, k: nat)
    requires Grouped(x, c) && i < j < k < |c| && x.keyOf(c[i]) == x.keyOf(c[k])
    ensures x.keyOf(c[j]) == x.keyOf(c[i])
  {
  }

  lemma NoneEqual<K>(x: Keys<K>, c: seq<nat>, key: K)
    ensures Group(x, c, key) == [] <==> forall i :: 0 <= i < |c| ==> x.keyOf(c[i]) != key
  {
    GroupMembers(x, c, key);
    hide Group;
    if Group(x, c, key) == [] {
      forall i | 0 <= i < |c| ensures x.keyOf(c[i]) != key {
        assert c[i] in c;
      }
    } else {
      var g := Group(x, c, key);
      assert g[0] in g;
      var i :| 0 <= i < |c| && c[i] == g[0];
    }
  }

  /** Taking out one entry. */
  lemma CutGood<K(!new)>(x: Keys<K>, lists: seq<seq<nat>>, b: nat, k: nat)
    requires Good(x, lists) && b < |lists| && k < |lists[b]| && Once(lists[b])
    ensures var e := lists[b][k]; var lists' := lists[b := Cut(lists[b], k)];
      Good(x, lists') && exists i :: (HasAt(EntriesOf(x, lists, x.keyOf(e)), i, e)
        && Updated(x, lists, lists', x.keyOf(e), CutOf(EntriesOf(x, lists, x.keyOf(e)), i)))
  {
    hide Group, Once, Updated;
    var c := lists[b];
    var e, key := c[k], x.keyOf(c[k]);
    var lists' := lists[b := Cut(c, k)];
    var i := |Group(x, c[..k], key)|;
    CutMembers(c, k);
    GroupedCut(x, c, k);
    hide Grouped, Cut, CutOf;
    assert e in c;
    GroupCut(x, c, k, key);
    CutUpdated(x, lists, b, k, i);
    assert HasAt(EntriesOf(x, lists, key), i, e);
  }

  lemma CutUpdated<K(!new)>(x: Keys<K>, lists: seq<seq<nat>>, b: nat, k: nat, i: nat)
    requires 0 < |lists| && b < |lists| && k < |lists[b]| && i == |Group(x, lists[b][..k], x.keyOf(lists[b][k]))|
    requires Bucket(x, x.keyOf(lists[b][k]), |lists|) == b
    ensures var key := x.keyOf(lists[b][k]);
      Updated(x, lists, lists[b := Cut(lists[b], k)], key, CutOf(EntriesOf(x, lists, key), i))
  {
    hide Group, Cut, CutOf;
    var c, key := lists[b], x.keyOf(lists[b][k]);
    var lists' := lists[b := Cut(c, k)];
    forall l ensures EntriesOf(x, lists', l) == if l == key then CutOf(EntriesOf(x, lists, key), i) else EntriesOf(x, lists, l) {
      GroupCut(x, c, k, l);
    }
  }

  lemma GroupedCut<K>(x: Keys<K>, c: seq<nat>, k: nat)
    requires Grouped(x, c) && k < |c|
    ensures Grouped(x, Cut(c, k))
  {
    assert forall n :: 0 <= n < |Cut(c, k)| ==> Cut(c, k)[n] == c[if n < k then n else n + 1];
  }

  ghost predicate HasAt(s: seq<nat>, i: int, e: nat) {
    0 <= i < |s| && s[i] == e
  }

  function CutOf(s: seq<nat>, i: int): seq<nat> {
    if 0 <= i < |s| then Cut(s, i) else s
  }

  lemma GroupCut<K>(x: Keys<K>, c: seq<nat>, k: nat, key: K)
    requires k < |c|
    ensures var i := |Group(x, c[..k], key)|;
      if key == x.keyOf(c[k]) then HasAt(Group(x, c, key), i, c[k]) && Group(x, Cut(c, k), key) == CutOf(Group(x, c, key), i)
      else Group(x, Cut(c, k), key) == Group(x, c, key)
  {
    hide Group;
    GroupConcat(x, c[..k], c[k + 1..], key);
    GroupMid(x, c[..k], c[k], c[k + 1..], key);
    assert c == c[..k] + [c[k]] + c[k + 1..];
    CutMid(Group(x, c[..k], key), c[k], Group(x, c[k + 1..], key));
  }

  lemma CutMid(a: seq<nat>, e: nat, b: seq<nat>)
    ensures HasAt(a + [e] + b, |a|, e) && CutOf(a + [e] + b, |a|) == a + b && a + [] + b == a + b
  {
  }

  /** The first equal entry of the bucket is the first one of its key. */
  lemma FirstOfGroup<K>(x: Keys<K>, c: seq<nat>, k: nat, key: K)
    requires k < |c| && x.keyOf(c[k]) == key && forall i :: 0 <= i < k ==> x.keyOf(c[i]) != key
    ensures Group(x, c, key) != [] && Group(x, c, key)[0] == c[k]
  {
    GroupConcat(x, c[..k], c[k..], key);
    assert c == c[..k] + c[k..];
    GroupNone(x, c[..k], key);
  }

  /** The next entry of the bucket is the next one of the same key, if it is equal at all. */
  lemma NextOfGroup<K>(x: Keys<K>, c: seq<nat>, k: nat, j: nat)
    requires k < |c| && Grouped(x, c) && Once(c)
    requires var g := Group(x, c, x.keyOf(c[k])); j < |g| && g[j] == c[k]
    ensures var g := Group(x, c, x.keyOf(c[k]));
      if k + 1 < |c| && x.keyOf(c[k + 1]) == x.keyOf(c[k]) then j + 1 < |g| && g[j + 1] == c[k + 1] else j + 1 == |g|
  {
    var key := x.keyOf(c[k]);
    GroupOnce(x, c, key);
    GroupMid(x, c[..k], c[k], c[k + 1..], key);
    assert c == c[..k] + [c[k]] + c[k + 1..];
    OnlyAt(Group(x, c[..k], key), c[k], Group(x, c[k + 1..], key), j);
    RestOfGroup(x, c, k);
  }

  lemma RestOfGroup<K>(x: Keys<K>, c: seq<nat>, k: nat)
    requires k < |c| && Grouped(x, c)
    ensures var g := Group(x, c[k + 1..], x.keyOf(c[k]));
      if k + 1 < |c| && x.keyOf(c[k + 1]) == x.keyOf(c[k]) then g != [] && g[0] == c[k + 1] else g == []
  {
    var key := x.keyOf(c[k]);
    if k + 1 < |c| && x.keyOf(c[k + 1]) != key {
      forall e | e in c[k + 1..] ensures x.keyOf(e) != key {
        var n :| 0 <= n < |c[k + 1..]| && c[k + 1..][n] == e;
        assert c[k + 1 + n] == e;
      }
      GroupNone(x, c[k + 1..], key);
    }
  }

  lemma OnlyAt(a: seq<nat>, e: nat, b: seq<nat>, j: nat)
    requires Once(a + [e] + b) && j < |a + [e] + b| && (a + [e] + b)[j] == e
    ensures j == |a| && (b != [] ==> (a + [e] + b)[j + 1] == b[0])
  {
    var s := a + [e] + b;
    assert s[|a|] == e;
  }

  lemma {:induction false} GroupOnce<K>(x: Keys<K>, c: seq<nat>, key: K)
    requires Once(c)
    ensures Once(Group(x, c, key))
  {
    if c != [] {
      assert Once(c[1..]) by {
        forall i, j | 0 <= i < j < |c[1..]| ensures c[1..][i] != c[1..][j] {
          assert c[i + 1] != c[j + 1];
        }
      }
      GroupOnce(x, c[1..], key);
      GroupMembers(x, c[1..], key);
      assert c[0] !in c[1..];
      var g := Group(x, c[1..], key);
      forall i, j | 0 <= i < j < |[c[0]] + g| ensures ([c[0]] + g)[i] != ([c[0]] + g)[j] {
        if i == 0 {
          assert g[j - 1] in g;
        }
      }
    }
  }

  // ---------------------------------------------------------------- more buckets

  /** The entries of a chain that belong to bucket `j` of `n`, in order. */
  function Sel<K>(x: Keys<K>, c: seq<nat>, n: nat, j: nat): seq<nat>
    requires 0 < n
  {
    if c == [] then [] else (if Bucket(x, x.keyOf(c[0]), n) == j then [c[0]] else []) + Sel(x, c[1..], n, j)
  }

  lemma {:induction false} SelMembers<K>(x: Keys<K>, c: seq<nat>, n: nat, j: nat)
    requires 0 < n
    ensures forall e :: e in Sel(x, c, n, j) <==> e in c && Bucket(x, x.keyOf(e), n) == j
  {
    hide Bucket;
    if c != [] {
      SelMembers(x, c[1..], n, j);
    }
  }

  lemma SelCons<K>(x: Keys<K>, e: nat, c: seq<nat>, n: nat, j: nat)
    requires 0 < n
    ensures Sel(x, [e] + c, n, j) == if Bucket(x, x.keyOf(e), n) == j then [e] + Sel(x, c, n, j) else Sel(x, c, n, j)
  {
    hide Bucket;
    assert ([e] + c)[1..] == c;
  }

  lemma {:induction false} SelSnoc<K>(x: Keys<K>, c: seq<nat>, e: nat, n: nat, j: nat)
    requires 0 < n
    ensures Sel(x, c + [e], n, j) == Sel(x, c, n, j) + if Bucket(x, x.keyOf(e), n) == j then [e] else []
  {
    hide Bucket;
    if c == [] {
      SelCons(x, e, [], n, j);
      assert c + [e] == [e] + [] && Sel(x, [], n, j) == [];
    } else {
      hide Sel;
      SelSnoc(x, c[1..], e, n, j);
      SelCons(x, c[0], c[1..], n, j);
      SelCons(x, c[0], c[1..] + [e], n, j);
      assert c == [c[0]] + c[1..] && c + [e] == [c[0]] + (c[1..] + [e]);
    }
  }

  /** Nothing with the key is lost or reordered on the way to its new bucket. */
  lemma {:induction false} SelGroup<K>(x: Keys<K>, c: seq<nat>, n: nat, key: K)
    requires 0 < n
    ensures Group(x, Sel(x, c, n, Bucket(x, key, n)), key) == Group(x, c, key)
  {
    if c != [] {
      hide Bucket, Sel, Group;
      SelGroup(x, c[1..], n, key);
      assert c == [c[0]] + c[1..];
      SelCons(x, c[0], c[1..], n, Bucket(x, key, n));
      GroupCons(x, c[0], c[1..], key);
      GroupCons(x, c[0], Sel(x, c[1..], n, Bucket(x, key, n)), key);
    }
  }

  lemma {:induction false} SelGrouped<K>(x: Keys<K>, c: seq<nat>, n: nat, j: nat)
    requires 0 < n && Grouped(x, c)
    ensures Grouped(x, Sel(x, c, n, j))
  {
    if c != [] {
      GroupedTail(x, c);
      SelGrouped(x, c[1..], n, j);
      if Bucket(x, x.keyOf(c[0]), n) == j {
        SelLeading(x, c[1..], n, j, x.keyOf(c[0]));
        GroupedCons(x, c[0], Sel(x, c[1..], n, j));
      }
    }
  }

  /** The entries with the key come first. */
  ghost predicate Leading<K>(x: Keys<K>, c: seq<nat>, key: K) {
    forall j, k :: 0 <= j < k < |c| && x.keyOf(c[k]) == key ==> x.keyOf(c[j]) == key
  }

  lemma GroupedTail<K>(x: Keys<K>, c: seq<nat>)
    requires Grouped(x, c) && c != []
    ensures Grouped(x, c[1..]) && Leading(x, c[1..], x.keyOf(c[0]))
  {
    forall i, j, k | 0 <= i < j < k < |c[1..]| && x.keyOf(c[1..][i]) == x.keyOf(c[1..][k])
      ensures x.keyOf(c[1..][j]) == x.keyOf(c[1..][i])
    {
      GroupedAt(x, c, i + 1, j + 1, k + 1);
    }
    forall j, k | 0 <= j < k < |c[1..]| && x.keyOf(c[1..][k]) == x.keyOf(c[0])
      ensures x.keyOf(c[1..][j]) == x.keyOf(c[0])
    {
      GroupedAt(x, c, 0, j + 1, k + 1);
    }
  }

  lemma GroupedCons<K>(x: Keys<K>, e: nat, c: seq<nat>)
    requires Grouped(x, c) && Leading(x, c, x.keyOf(e))
    ensures Grouped(x, [e] + c)
  {
    var d := [e] + c;
    forall i, j, k | 0 <= i < j < k < |d| && x.keyOf(d[i]) == x.keyOf(d[k]) ensures x.keyOf(d[j]) == x.keyOf(d[i]) {
      assert d[j] == c[j - 1] && d[k] == c[k - 1];
      if i > 0 {
        GroupedAt(x, c, i - 1, j - 1, k - 1);
      }
    }
  }

  lemma {:induction false} SelLeading<K>(x: Keys<K>, c: seq<nat>, n: nat, j: nat, key: K)
    requires 0 < n && Leading(x, c, key)
    ensures Leading(x, Sel(x, c, n, j), key)
  {
    if c != [] {
      assert Leading(x, c[1..], key) by {
        forall i, k | 0 <= i < k < |c[1..]| && x.keyOf(c[1..][k]) == key ensures x.keyOf(c[1..][i]) == key {
          assert x.keyOf(c[i + 1]) == key;
        }
      }
      SelLeading(x, c[1..], n, j, key);
      SelMembers(x, c, n, j);
      if x.keyOf(c[0]) != key {
        forall e | e in c ensures x.keyOf(e) != key {
          var k :| 0 <= k < |c| && c[k] == e;
        }
        hide Sel;
        forall k | 0 <= k < |Sel(x, c, n, j)| ensures x.keyOf(Sel(x, c, n, j)[k]) != key {
          assert Sel(x, c, n, j)[k] in Sel(x, c, n, j);
        }
      }
    }
  }

  /** All chains, spread over `n` buckets. */
  function Rehash<K>(x: Keys<K>, lists: seq<seq<nat>>, n: nat): seq<seq<nat>>
    requires 0 < |lists| && 0 < n
  {
    seq(n, j requires 0 <= j < n => Sel(x, lists[j % |lists|], n, j))
  }

  lemma {:induction false} ModPlus(r: nat, n: nat, t: nat)
    requires 0 < n
    ensures (r + n * t) % n == r % n
  {
    if t > 0 {
      ModPlus(r, n, t - 1);
      assert r + n * t == (r + n * (t - 1)) + n;
      ModStep(r + n * (t - 1), n);
    }
  }

  lemma ModStep(a: nat, n: nat)
    requires 0 < n
    ensures (a + n) % n == a % n
  {
    var q, r := a / n, a % n;
    assert a == n * q + r;
    assert a + n == n * (q + 1) + r;
    ModUnique(a + n, n, q + 1, r);
  }

  lemma {:induction false} Distance(n: nat, p: nat, q: nat)
    requires p < q
    ensures n * p + n <= n * q
  {
    if p + 1 < q {
      Distance(n, p, q - 1);
    }
    assert n * q == n * (q - 1) + n;
  }

  lemma ModUnique(a: nat, n: nat, q: nat, r: nat)
    requires 0 < n && a == n * q + r && r < n
    ensures a % n == r
  {
    var q', r' := a / n, a % n;
    assert n * q' + r' == n * q + r;
    if q < q' {
      Distance(n, q, q');
    } else if q' < q {
      Distance(n, q', q);
    }
  }

  /** The new bucket of an entry lies over its old one. */
  lemma ModMod(h: nat, n: nat, m: nat)
    requires 0 < n && 0 < m && 0 < n * m
    ensures (h % (n * m)) % n == h % n
  {
    var q, r := h / (n * m), h % (n * m);
    assert h == (n * m) * q + r;
    assert (n * m) * q == n * (m * q);
    ModPlus(r, n, m * q);
  }

  /** With more buckets, the table holds the same entries for every key, in the same order, each in
      its right bucket and equal ones side by side. */
  lemma RehashKeeps<K(!new)>(x: Keys<K>, lists: seq<seq<nat>>, m: nat)
    requires Good(x, lists) && 0 < m && 0 < |lists| * m
    ensures Good(x, Rehash(x, lists, |lists| * m))
    ensures forall key :: EntriesOf(x, Rehash(x, lists, |lists| * m), key) == EntriesOf(x, lists, key)
  {
    hide Grouped, Group, Sel;
    var n := |lists| * m;
    forall b | 0 <= b < n
      ensures Grouped(x, Rehash(x, lists, n)[b]) && forall e :: e in Rehash(x, lists, n)[b] ==> Bucket(x, x.keyOf(e), n) == b
    {
      SelGrouped(x, lists[b % |lists|], n, b);
      SelMembers(x, lists[b % |lists|], n, b);
    }
    forall key ensures EntriesOf(x, Rehash(x, lists, n), key) == EntriesOf(x, lists, key) {
      ModMod(x.hash(key), |lists|, m);
      SelGroup(x, lists[Bucket(x, key, |lists|)], n, key);
    }
  }

  // ---------------------------------------------------------------- how the entries are moved

  lemma {:induction false} RevSnoc(c: seq<nat>, e: nat)
    ensures Rev(c + [e]) == [e] + Rev(c)
  {
    if c == [] {
      assert c + [e] == [e] && [e][1..] == [];
    } else {
      RevSnoc(c[1..], e);
      assert (c + [e])[1..] == c[1..] + [e];
    }
  }

  lemma {:induction false} RevRev(c: seq<nat>)
    ensures Rev(Rev(c)) == c
  {
    if c != [] {
      RevRev(c[1..]);
      RevSnoc(Rev(c[1..]), c[0]);
    }
  }

  /** How many entries of old bucket `b` have been looked at when the walk is at the p-th of
      bucket `i`. */
  function Reached(c: seq<seq<nat>>, i: nat, p: nat, b: nat): nat
    requires b < |c|
  {
    if b < i then |c[b]| else if b == i && p <= |c[b]| then p else 0
  }

  /** What is in the buckets then: the old ones have lost what moves, the new ones have it in
      reverse. */
  function Done<K>(x: Keys<K>, c: seq<seq<nat>>, n: nat, i: nat, p: nat, j: nat): seq<nat>
    requires 0 < |c| && 0 < n
  {
    if j < |c| then Sel(x, c[j][..Reached(c, i, p, j)], n, j) + c[j][Reached(c, i, p, j)..]
    else Rev(Sel(x, c[j % |c|][..Reached(c, i, p, j % |c|)], n, j))
  }

  function AllDone<K>(x: Keys<K>, c: seq<seq<nat>>, n: nat, i: nat, p: nat): (r: seq<seq<nat>>)
    requires 0 < |c| && 0 < n
    ensures |r| == n && forall j :: 0 <= j < n ==> r[j] == Done(x, c, n, i, p, j)
  {
    seq(n, j requires 0 <= j < n => Done(x, c, n, i, p, j))
  }

  /** The place the entry that is looked at has in its old bucket. */
  function Place<K>(x: Keys<K>, c: seq<seq<nat>>, n: nat, i: nat, p: nat): nat
    requires i < |c| && p <= |c[i]| && 0 < n
  {
    |Sel(x, c[i][..p], n, i)|
  }

  lemma PlaceAt<K>(x: Keys<K>, c: seq<seq<nat>>, n: nat, i: nat, p: nat)
    requires i < |c| && p <= |c[i]| && 0 < n
    ensures var l := Done(x, c, n, i, p, i); var k := Place(x, c, n, i, p);
      k <= |l| && LinkAt(l, k) == LinkAt(c[i], p) && LinkAt(l, k + 1) == LinkAt(c[i], p + 1) && |l| - k == |c[i]| - p
  {
  }

  lemma SelNext<K>(x: Keys<K>, c: seq<nat>, p: nat, n: nat, j: nat)
    requires p < |c| && 0 < n
    ensures Sel(x, c[..p + 1], n, j) ==
      if Bucket(x, x.keyOf(c[p]), n) == j then Sel(x, c[..p], n, j) + [c[p]] else Sel(x, c[..p], n, j)
  {
    assert c[..p + 1] == c[..p] + [c[p]];
    SelSnoc(x, c[..p], c[p], n, j);
  }

  /** An entry that stays where it is. */
  lemma StepStay<K>(x: Keys<K>, c: seq<seq<nat>>, n: nat, i: nat, p: nat)
    requires i < |c| && p < |c[i]| && 0 < n && Bucket(x, x.keyOf(c[i][p]), n) == i
    ensures AllDone(x, c, n, i, p + 1) == AllDone(x, c, n, i, p)
    ensures Place(x, c, n, i, p + 1) == Place(x, c, n, i, p) + 1
  {
    hide Sel, Rev, Bucket;
    SelNext(x, c[i], p, n, i);
    forall j | 0 <= j < n ensures Done(x, c, n, i, p + 1, j) == Done(x, c, n, i, p, j) {
      if j == i {
        assert c[i][p..] == [c[i][p]] + c[i][p + 1..];
        Shift(Sel(x, c[i][..p], n, i), c[i][p], c[i][p + 1..]);
      } else if |c| <= j && j % |c| == i {
        SelNext(x, c[i], p, n, j);
      }
    }
  }

  lemma Shift(a: seq<nat>, e: nat, b: seq<nat>)
    ensures a + [e] + b == a + ([e] + b)
  {
  }

  /** An entry that moves to a new bucket. */
  lemma StepMove<K>(x: Keys<K>, c: seq<seq<nat>>, n: nat, i: nat, p: nat, t: nat)
    requires i < |c| <= t < n && p < |c[i]| && t % |c| == i && Bucket(x, x.keyOf(c[i][p]), n) == t
    ensures var l := AllDone(x, c, n, i, p); var k := Place(x, c, n, i, p);
      && k < |l[i]| && l[i][k] == c[i][p]
      && AllDone(x, c, n, i, p + 1) == l[i := Cut(l[i], k)][t := [c[i][p]] + l[t]]
    ensures Place(x, c, n, i, p + 1) == Place(x, c, n, i, p)
  {
    hide Sel, Rev, Bucket;
    var l, k := AllDone(x, c, n, i, p), Place(x, c, n, i, p);
    SelNext(x, c[i], p, n, i);
    CutShift(Sel(x, c[i][..p], n, i), c[i][p..]);
    assert c[i][p..][1..] == c[i][p + 1..];
    forall j | 0 <= j < n
      ensures Done(x, c, n, i, p + 1, j) == if j == i then Cut(l[i], k) else if j == t then [c[i][p]] + l[t] else l[j]
    {
      if |c| <= j && j % |c| == i {
        SelNext(x, c[i], p, n, j);
        if j == t {
          RevSnoc(Sel(x, c[i][..p], n, t), c[i][p]);
        }
      }
    }
  }

  lemma CutShift(a: seq<nat>, b: seq<nat>)
    requires b != []
    ensures (a + b)[|a|] == b[0] && Cut(a + b, |a|) == a + b[1..]
  {
  }

  lemma NextBucket<K>(x: Keys<K>, c: seq<seq<nat>>, n: nat, i: nat)
    requires i < |c| && 0 < n
    ensures AllDone(x, c, n, i, |c[i]|) == AllDone(x, c, n, i + 1, 0)
  {
    hide Sel, Rev, Bucket;
    forall j | 0 <= j < n ensures Done(x, c, n, i, |c[i]|, j) == Done(x, c, n, i + 1, 0, j) {
    }
  }

  lemma AtStart<K>(x: Keys<K>, c: seq<seq<nat>>, n: nat)
    requires 0 < |c| <= n
    ensures AllDone(x, c, n, 0, 0) == c + seq(n - |c|, j => [])
  {
    forall j | 0 <= j < n ensures Done(x, c, n, 0, 0, j) == (c + seq(n - |c|, j => []))[j] {
      hide Bucket;
      if j < |c| {
        assert c[j][..0] == [] && c[j][0..] == c[j];
      } else {
        assert c[j % |c|][..0] == [];
      }
    }
  }

  /** When every bucket is done, it remains to turn the new ones around. */
  lemma AtEnd<K>(x: Keys<K>, c: seq<seq<nat>>, n: nat, j: nat)
    requires 0 < |c| <= n && j < n
    ensures AllDone(x, c, n, |c|, 0)[j] == if j < |c| then Rehash(x, c, n)[j] else Rev(Rehash(x, c, n)[j])
  {
    hide Sel, Rev;
    if j < |c| {
      SmallMod(j, |c|);
      assert c[j][..|c[j]|] == c[j] && c[j][|c[j]|..] == [];
    } else {
      assert c[j % |c|][..|c[j % |c|]|] == c[j % |c|];
    }
  }

  lemma SmallMod(j: nat, n: nat)
    requires j < n
    ensures j % n == j
  {
  }

  // ---------------------------------------------------------------- what the run-time check sees

  ghost predicate BucketGood<K>(x: Keys<K>, c: seq<nat>, n: nat, b: nat)
    requires 0 < n
  {
    Grouped(x, c) && forall e :: e in c ==> Bucket(x, x.keyOf(e), n) == b
  }

  /** The entries from the f-th to before the q-th are equal, and the one before them is not. */
  ghost predicate LastGroup<K>(x: Keys<K>, c: seq<nat>, f: nat, q: nat)
    requires q <= |c|
  {
    && (q > 0 ==> f < q) && (forall v :: f <= v < q ==> x.keyOf(c[v]) == x.keyOf(c[f]))
    && (0 < f < q ==> x.keyOf(c[f - 1]) != x.keyOf(c[f]))
  }

  lemma OnePlace(c: seq<nat>, u: nat, f: nat)
    requires Once(c) && u < |c| && f < |c| && c[u] == c[f]
    ensures u == f
  {
  }

  lemma AtNull(c: seq<nat>, q: nat)
    requires q <= |c|
    ensures LinkAt(c, q) == NULL <==> q == |c|
  {
  }

  lemma BucketBad<K>(x: Keys<K>, c: seq<nat>, n: nat, b: nat, q: nat)
    requires 0 < n && q < |c| && Bucket(x, x.keyOf(c[q]), n) != b
    ensures !BucketGood(x, c, n, b)
  {
    assert c[q] in c;
  }

  /** `f` is where the group of the q-th entry begins: an equal entry before it shows that equal
      entries are not side by side, and without one the next entry may be added. */
  lemma LastGroupNext<K>(x: Keys<K>, c: seq<nat>, f: nat, q: nat)
    requires q < |c| && f <= q && Grouped(x, c[..q]) && x.keyOf(c[f]) == x.keyOf(c[q])
    requires LastGroup(x, c, f, q) || (f == q > 0 && exists g: nat :: g < q && LastGroup(x, c, g, q) && x.keyOf(c[g]) != x.keyOf(c[q]))
      || (f == q == 0)
    ensures LastGroup(x, c, f, q + 1)
    ensures (forall u :: 0 <= u < f ==> x.keyOf(c[u]) != x.keyOf(c[q])) <==> Grouped(x, c[..q + 1])
    ensures !Grouped(x, c[..q + 1]) ==> !Grouped(x, c)
  {
    if f == q > 0 {
      var g: nat :| g < q && LastGroup(x, c, g, q) && x.keyOf(c[g]) != x.keyOf(c[q]);
      assert x.keyOf(c[q - 1]) == x.keyOf(c[g]);
    }
    var d := c[..q + 1];
    if forall u :: 0 <= u < f ==> x.keyOf(c[u]) != x.keyOf(c[q]) {
      forall i, j, k | 0 <= i < j < k < |d| && x.keyOf(d[i]) == x.keyOf(d[k]) ensures x.keyOf(d[j]) == x.keyOf(d[i]) {
        if k < q {
          GroupedAt(x, c[..q], i, j, k);
        }
      }
    } else {
      var u :| 0 <= u < f && x.keyOf(c[u]) == x.keyOf(c[q]);
      assert x.keyOf(d[u]) == x.keyOf(d[q]) && x.keyOf(d[f - 1]) != x.keyOf(d[q]) && u < f - 1 < q;
    }
    if Grouped(x, c) {
      assert Grouped(x, d);
    }
  }

  lemma BucketNext<K>(x: Keys<K>, c: seq<nat>, n: nat, b: nat, q: nat)
    requires 0 < n && q < |c| && BucketGood(x, c[..q], n, b) && Grouped(x, c[..q + 1]) && Bucket(x, x.keyOf(c[q]), n) == b
    ensures BucketGood(x, c[..q + 1], n, b)
  {
    hide Grouped;
    assert c[..q + 1] == c[..q] + [c[q]];
  }

  /** What the walk over a bucket has found out when it is at the q-th entry. */
  ghost predicate Checked<K>(x: Keys<K>, c: seq<nat>, n: nat, b: nat, f: nat, q: nat)
    requires 0 < n && q <= |c|
  {
    (q == 0 ==> f == 0) && BucketGood(x, c[..q], n, b) && LastGroup(x, c, f, q)
  }

  lemma CheckStart<K>(x: Keys<K>, c: seq<nat>, n: nat, b: nat)
    requires 0 < n
    ensures Checked(x, c, n, b, 0, 0)
  {
    hide Bucket;
  }

  lemma CheckEnd<K>(x: Keys<K>, c: seq<nat>, n: nat, b: nat, f: nat)
    requires 0 < n && Checked(x, c, n, b, f, |c|)
    ensures BucketGood(x, c, n, b)
  {
    assert c[..|c|] == c;
    hide Bucket;
  }

  lemma CheckStep<K>(x: Keys<K>, c: seq<nat>, n: nat, b: nat, g: nat, q: nat, f: nat)
    requires 0 < n && q < |c| && g <= q && Checked(x, c, n, b, g, q) && Bucket(x, x.keyOf(c[q]), n) == b
    requires f == if x.keyOf(c[q]) != x.keyOf(c[g]) then q else g
    ensures if forall u :: 0 <= u < f ==> x.keyOf(c[u]) != x.keyOf(c[q]) then Checked(x, c, n, b, f, q + 1)
            else !BucketGood(x, c, n, b)
  {
    hide Grouped, Bucket;
    LastGroupNext(x, c, f, q);
    hide LastGroup;
    if Grouped(x, c[..q + 1]) {
      BucketNext(x, c, n, b, q);
    }
  }

  function Pow2(n: nat): nat {
    if n == 0 then 1 else 2 * Pow2(n - 1)
  }

  // ---------------------------------------------------------------- the table, in place

  class CHash<K(==, !new)> {
    const x: Keys<K>
    /** Whether the hash of an entry is compared before its key. */
    const cheap: bool
    const sizeMax: nat
    const next: array<int>
    var buckets: array<int>
    var numBuckets: nat
    ghost var lists: seq<seq<nat>>

    ghost predicate Linked()
      reads this, next, buckets
    {
      && next != buckets && buckets.Length == numBuckets == |lists| && 0 < numBuckets <= sizeMax
      && Rep(next[..], buckets[..], lists)
    }

    ghost predicate Valid()
      reads this, next, buckets
    {
      Linked() && Good(x, lists)
    }

    /** The entries with the key, in the order in which they are found. */
    ghost function Entries(key: K): seq<nat>
      requires 0 < |lists|
      reads this`lists
    {
      EntriesOf(x, lists, key)
    }

    constructor (x: Keys<K>, cheap: bool, sizeMax: nat, next: array<int>, n: nat)
      requires n <= sizeMax && 0 < sizeMax
      ensures Valid() && (forall key :: Entries(key) == []) && fresh(buckets)
      ensures this.x == x && this.next == next && numBuckets == (if n == 0 then 1 else n) && this.sizeMax == sizeMax
    {
      this.x, this.cheap, this.sizeMax, this.next := x, cheap, sizeMax, next;
      numBuckets := if n == 0 then 1 else n;
      buckets := new int[if n == 0 then 1 else n](i => NULL);
      lists := seq(if n == 0 then 1 else n, i => []);
    }

    function IndexOf(e: nat): nat
      requires 0 < numBuckets
      reads this`numBuckets
    {
      x.hash(x.keyOf(e)) % numBuckets
    }

    /** The first entry of the bucket equal to `e`, and the entry before it; `k` is its place. */
    method FindEqual(e: nat) returns (prev: int, link: int, ghost k: nat)
      requires Valid()
      ensures var c := lists[IndexOf(e)];
        && k <= |c| && link == LinkAt(c, k) && prev == LinkAt(c, k - 1)
        && (forall i :: 0 <= i < k ==> x.keyOf(c[i]) != x.keyOf(e))
        && (k < |c| ==> x.keyOf(c[k]) == x.keyOf(e))
    {
      hide Rep, Good;
      var index := IndexOf(e);
      LinksOf(next[..], buckets[..], lists, index);
      ghost var c := lists[index];
      prev, link, k := NULL, buckets[index], 0;
      while link != NULL
        invariant k <= |c| && link == LinkAt(c, k) && prev == LinkAt(c, k - 1)
        invariant forall i :: 0 <= i < k ==> x.keyOf(c[i]) != x.keyOf(e)
        decreases |c| - k
      {
        if x.keyOf(link) == x.keyOf(e) {
          return;
        }
        prev, link, k := link, next[link], k + 1;
      }
    }

    /** Links `e` in front of its bucket. */
    method PushEntry(e: nat)
      requires Linked() && e < next.Length && Absent(lists, e)
      modifies this`lists, next, buckets
      ensures Linked() && lists == old(lists)[IndexOf(e) := [e] + old(lists)[IndexOf(e)]]
    {
      hide Rep;
      var index := IndexOf(e);
      PushFront(next[..], buckets[..], lists, index, e);
      ghost var n, b := next[..], buckets[..];
      next[e] := buckets[index];
      buckets[index] := e;
      assert next[..] == n[e := b[index]] && buckets[..] == b[index := e];
      lists := lists[index := [e] + lists[index]];
    }

    /** CHash_Insert: fails if an equal entry is there, and names the first. */
    method Insert(e: nat) returns (ok: bool, existing: int)
      requires Valid() && e < next.Length && Absent(lists, e)
      modifies this`lists, next, buckets
      ensures Valid() && (ok <==> old(Entries(x.keyOf(e))) == [])
      ensures ok ==> Updated(x, old(lists), lists, x.keyOf(e), [e])
      ensures !ok ==> lists == old(lists) && existing == Entries(x.keyOf(e))[0]
    {
      var prev, link;
      ghost var k;
      hide Rep, Good, Group, Updated;
      prev, link, k := FindEqual(e);
      ghost var c := lists[IndexOf(e)];
      if link != NULL {
        FirstOfGroup(x, c, k, x.keyOf(e));
        return false, link;
      }
      NoneEqual(x, c, x.keyOf(e));
      InsertedGood(x, lists, IndexOf(e), 0, e);
      assert c[..0] + [e] + c[0..] == [e] + c && [e] + [] == [e];
      PushEntry(e);
      ok, existing := true, NULL;
    }

    /** CHash_InsertMulti: the entry becomes the first of its key. */
    method InsertMulti(e: nat)
      requires Valid() && e < next.Length && Absent(lists, e)
      modifies this`lists, next, buckets
      ensures Valid() && Updated(x, old(lists), lists, x.keyOf(e), [e] + old(Entries(x.keyOf(e))))
    {
      var prev, link;
      ghost var k;
      hide Rep, Good, Group, Updated;
      prev, link, k := FindEqual(e);
      var index := IndexOf(e);
      ghost var c := lists[index];
      NoneEqual(x, c, x.keyOf(e));
      if link == NULL || prev == NULL {
        InsertedGood(x, lists, index, 0, e);
        assert c[..0] + [e] + c[0..] == [e] + c;
        PushEntry(e);
      } else {
        InsertedGood(x, lists, index, k, e);
        InsertBehind(prev, link, e, index, k - 1);
      }
    }

    /** Links `e` between the k-th entry of the bucket and the next one. */
    method InsertBehind(prev: nat, link: int, e: nat, ghost b: nat, ghost k: nat)
      requires Linked() && b < |lists| && k < |lists[b]| && prev == lists[b][k] && link == LinkAt(lists[b], k + 1)
      requires e < next.Length && Absent(lists, e)
      modifies this`lists, next
      ensures Linked() && lists == old(lists)[b := old(lists)[b][..k + 1] + [e] + old(lists)[b][k + 1..]]
    {
      hide Rep;
      InsertAfter(next[..], buckets[..], lists, b, k, e);
      ghost var n := next[..];
      next[e] := link;
      next[prev] := e;
      assert next[..] == n[e := link][prev := e];
      lists := lists[b := lists[b][..k + 1] + [e] + lists[b][k + 1..]];
    }

    /** Takes the k-th entry of bucket `b` out; `prev` is the one before it. */
    method Unlink(e: nat, prev: int, b: nat, ghost k: nat)
      requires next != buckets && buckets.Length == |lists| && Rep(next[..], buckets[..], lists)
      requires b < |lists| && k < |lists[b]| && e == lists[b][k] && prev == LinkAt(lists[b], k - 1)
      modifies this`lists, next, buckets
      ensures Rep(next[..], buckets[..], lists) && Absent(lists, e) && e < next.Length
      ensures lists == old(lists)[b := Cut(old(lists)[b], k)]
    {
      hide Rep, Absent;
      CutAt(next[..], buckets[..], lists, b, k);
      ghost var n, h := next[..], buckets[..];
      assert e == lists[b][k] && e < |n|;
      if prev == NULL {
        buckets[b] := next[e];
        assert buckets[..] == h[b := n[e]] && next[..] == n;
      } else {
        assert prev == lists[b][k - 1];
        next[prev] := next[e];
        assert next[..] == n[prev := n[e]] && buckets[..] == h;
      }
      lists := lists[b := Cut(lists[b], k)];
    }

    /** The entry before `e` in its bucket. */
    method FindBefore(e: nat) returns (prev: int, ghost k: nat)
      requires Valid() && e in lists[IndexOf(e)]
      ensures k < |lists[IndexOf(e)]| && lists[IndexOf(e)][k] == e && prev == LinkAt(lists[IndexOf(e)], k - 1)
    {
      hide Rep, Good, Once;
      var index := IndexOf(e);
      LinksOf(next[..], buckets[..], lists, index);
      ghost var c := lists[index];
      ghost var place: nat :| place < |c| && c[place] == e;
      var link;
      prev, link, k := NULL, buckets[index], 0;
      while link != e
        invariant k <= place && link == c[k] && prev == LinkAt(c, k - 1)
        decreases place - k
      {
        prev, link, k := link, next[link], k + 1;
      }
    }

    /** CHash_Remove of an entry that is in the table. */
    method Remove(e: nat) returns (ghost i: int)
      requires Valid() && !Absent(lists, e)
      modifies this`lists, next, buckets
      ensures Valid() && Absent(lists, e) && HasAt(old(Entries(x.keyOf(e))), i, e)
      ensures Updated(x, old(lists), lists, x.keyOf(e), CutOf(old(Entries(x.keyOf(e))), i))
    {
      hide Rep, Good, Updated, Absent;
      EntriesComplete(x, lists, e);
      var index := IndexOf(e);
      var prev;
      ghost var k;
      prev, k := FindBefore(e);
      ghost var c := lists[index];
      LinksOf(next[..], buckets[..], lists, index);
      CutGood(x, lists, index, k);
      i :| HasAt(Entries(x.keyOf(e)), i, e)
        && Updated(x, lists, lists[index := Cut(c, k)], x.keyOf(e), CutOf(Entries(x.keyOf(e)), i));
      hide Once, Group;
      Unlink(e, prev, index, k);
    }

    /** CHash_Lookup */
    method Lookup(key: K) returns (r: int)
      requires Valid()
      ensures r == LinkAt(Entries(key), 0)
    {
      hide Rep, Good, Group;
      var hash := x.hash(key);
      var index := hash % numBuckets;
      LinksOf(next[..], buckets[..], lists, index);
      ghost var c := lists[index];
      ghost var k := 0;
      r := buckets[index];
      while r != NULL
        invariant k <= |c| && r == LinkAt(c, k) && forall i :: 0 <= i < k ==> x.keyOf(c[i]) != key
        decreases |c| - k
      {
        if (cheap ==> x.hash(x.keyOf(r)) == hash) && x.keyOf(r) == key {
          FirstOfGroup(x, c, k, key);
          return;
        }
        r, k := next[r], k + 1;
      }
      NoneEqual(x, c, key);
    }

    /** CHash_GetNextEqual: the next entry with the same key, whatever its place among them. */
    method GetNextEqual(e: nat) returns (r: int)
      requires Valid() && !Absent(lists, e)
      ensures forall j :: 0 <= j < |Entries(x.keyOf(e))| && Entries(x.keyOf(e))[j] == e ==> r == LinkAt(Entries(x.keyOf(e)), j + 1)
    {
      EntriesComplete(x, lists, e);
      ghost var b := Bucket(x, x.keyOf(e), |lists|);
      LinksOf(next[..], buckets[..], lists, b);
      ghost var c := lists[b];
      assert Grouped(x, c);
      hide Rep, Good, Group, Grouped;
      ghost var k :| 0 <= k < |c| && c[k] == e;
      forall j | 0 <= j < |Entries(x.keyOf(e))| && Entries(x.keyOf(e))[j] == e
        ensures LinkAt(Entries(x.keyOf(e)), j + 1) == if k + 1 < |c| && x.keyOf(c[k + 1]) == x.keyOf(e) then c[k + 1] else NULL
      {
        NextOfGroup(x, c, k, j);
      }
      r := next[e];
      if r == NULL {
        return;
      }
      if x.keyOf(r) != x.keyOf(e) {
        r := NULL;
      }
    }

    // -------------------------------------------------------------- the run-time check

    /** The inner loop: no entry before the group of `cur` is equal to it. */
    method NoneBefore(i: nat, sameFirst: int, cur: nat, ghost f: nat) returns (ok: bool)
      requires Linked() && i < numBuckets && f < |lists[i]| && sameFirst == lists[i][f]
      ensures ok <==> forall u :: 0 <= u < f ==> x.keyOf(lists[i][u]) != x.keyOf(cur)
    {
      hide Rep, Once;
      LinksOf(next[..], buckets[..], lists, i);
      ghost var c := lists[i];
      var ccur := buckets[i];
      ghost var u := 0;
      while ccur != sameFirst
        invariant u <= f && ccur == c[u] && forall v :: 0 <= v < u ==> x.keyOf(c[v]) != x.keyOf(cur)
        decreases f - u
      {
        if x.keyOf(ccur) == x.keyOf(cur) {
          return false;
        }
        ccur, u := next[ccur], u + 1;
      }
      OnePlace(c, u, f);
      ok := true;
    }

    /** One entry of a bucket; `first` is where its group begins. */
    method VerifyEntry(i: nat, cur: int, sameFirst: int, ghost f: nat, ghost q: nat) returns (ok: bool, first: int, ghost g: nat)
      requires Linked() && i < numBuckets && f <= q < |lists[i]| && cur == lists[i][q] && sameFirst == lists[i][f]
      requires Checked(x, lists[i], numBuckets, i, f, q)
      ensures g <= q && first == lists[i][g]
      ensures if ok then Checked(x, lists[i], numBuckets, i, g, q + 1) else !BucketGood(x, lists[i], numBuckets, i)
    {
      hide Rep, Checked, BucketGood;
      first, g := sameFirst, f;
      if x.hash(x.keyOf(cur)) % numBuckets != i {
        BucketBad(x, lists[i], numBuckets, i, q);
        return false, first, g;
      }
      if x.keyOf(cur) != x.keyOf(sameFirst) {
        first, g := cur, q;
      }
      ok := NoneBefore(i, first, cur, g);
      CheckStep(x, lists[i], numBuckets, i, f, q, g);
    }

    /** One bucket: its entries belong there, and equal ones are side by side. */
    method VerifyBucket(i: nat) returns (ok: bool)
      requires Linked() && i < numBuckets
      ensures ok <==> BucketGood(x, lists[i], numBuckets, i)
    {
      hide Rep, Checked, Bucket, BucketGood, Once;
      LinksOf(next[..], buckets[..], lists, i);
      ghost var c := lists[i];
      var cur, sameFirst := buckets[i], buckets[i];
      ghost var q: nat, f: nat := 0, 0;
      CheckStart(x, c, numBuckets, i);
      while cur != NULL
        invariant q <= |c| && f <= q && cur == LinkAt(c, q) && sameFirst == LinkAt(c, f) && Checked(x, c, numBuckets, i, f, q)
        decreases |c| - q
      {
        ok, sameFirst, f := VerifyEntry(i, cur, sameFirst, f, q);
        if !ok {
          return;
        }
        cur, q := next[cur], q + 1;
      }
      AtNull(c, q);
      hide LinkAt;
      CheckEnd(x, c, numBuckets, i, f);
      ok := true;
    }

    /** CHash_Verify: on any linked table, all its assertions hold exactly if every entry is in its
        bucket and equal entries are side by side. */
    method Verify() returns (ok: bool)
      requires Linked()
      ensures ok <==> Good(x, lists)
    {
      hide Rep, Grouped, Bucket;
      var i := 0;
      while i < numBuckets
        invariant i <= numBuckets && forall b :: 0 <= b < i ==> BucketGood(x, lists[b], numBuckets, b)
      {
        var good := VerifyBucket(i);
        if !good {
          return false;
        }
        i := i + 1;
      }
      ok := true;
    }

    // -------------------------------------------------------------- more buckets

    ghost predicate Chained()
      reads this, next, buckets
    {
      next != buckets && buckets.Length == |lists| && Rep(next[..], buckets[..], lists)
    }

    /** The bucket array grows, by empty buckets. */
    method Grow(n: nat)
      requires Linked() && numBuckets <= n
      modifies this`buckets, this`lists
      ensures Chained() && fresh(buckets) && lists == old(lists) + seq(n - numBuckets, j => [])
    {
      hide Rep;
      MoreBuckets(next[..], buckets[..], lists, n - numBuckets);
      var bigger := new int[n];
      var i := 0;
      while i < numBuckets
        invariant buckets == old(buckets) && lists == old(lists)
        invariant i <= numBuckets && bigger[..i] == buckets[..i]
      {
        bigger[i] := buckets[i];
        i := i + 1;
      }
      while i < n
        invariant buckets == old(buckets) && lists == old(lists)
        invariant numBuckets <= i <= n && bigger[..numBuckets] == buckets[..]
        invariant forall j :: numBuckets <= j < i ==> bigger[j] == NULL
      {
        bigger[i] := NULL;
        i := i + 1;
      }
      assert bigger[..] == buckets[..] + seq(n - numBuckets, j => NULL);
      buckets := bigger;
      lists := lists + seq(n - numBuckets, j => []);
    }

    method PushAt(e: nat, t: nat)
      requires Chained() && e < next.Length && Absent(lists, e) && t < |lists|
      modifies this`lists, next, buckets
      ensures Chained() && lists == old(lists)[t := [e] + old(lists)[t]]
    {
      hide Rep, Absent;
      PushFront(next[..], buckets[..], lists, t, e);
      ghost var n, b := next[..], buckets[..];
      next[e] := buckets[t];
      buckets[t] := e;
      assert next[..] == n[e := b[t]] && buckets[..] == b[t := e];
      lists := lists[t := [e] + lists[t]];
    }

    /** The k-th entry of bucket `i` goes to the front of bucket `t`. */
    method MoveEntry(cur: nat, prev: int, i: nat, t: nat, ghost k: nat)
      requires Chained() && i < |lists| && t < |lists| && i != t
      requires k < |lists[i]| && cur == lists[i][k] && prev == LinkAt(lists[i], k - 1)
      modifies this`lists, next, buckets
      ensures Chained() && lists == old(lists)[i := Cut(old(lists)[i], k)][t := [cur] + old(lists)[t]]
    {
      hide Rep, Absent;
      Unlink(cur, prev, i, k);
      PushAt(cur, t);
    }

    /** The walk over one old bucket. */
    method SpreadBucket(i: nat, n: nat, m: nat, ghost c: seq<seq<nat>>)
      requires Chained() && Good(x, c) && i < |c| && 0 < n && IsProduct(n, |c|, m) && Spread(x, lists, c, n, i)
      modifies this`lists, next, buckets
      ensures Chained() && Spread(x, lists, c, n, i + 1)
    {
      hide Rep, Good, Walked, Spread, IsProduct;
      WalkStart(x, next[..], buckets[..], lists, c, n, i);
      var prev, link := NULL, buckets[i];
      ghost var p := 0;
      while link != NULL
        invariant Chained() && Walked(x, lists, c, n, i, p, prev, link)
        decreases |c[i]| - p
      {
        ghost var k := WalkAt(x, next[..], buckets[..], lists, c, n, i, p, prev, link);
        var cur: nat := link;
        link := next[cur];
        var newIndex := x.hash(x.keyOf(cur)) % n;
        NewBucket(x, c, n, m, i, p);
        if newIndex == i {
          WalkStay(x, lists, c, n, i, p, prev, cur, link);
          prev := cur;
        } else {
          WalkMove(x, lists, c, n, i, p, prev, cur, link, newIndex, k);
          MoveEntry(cur, prev, i, newIndex, k);
        }
        p := p + 1;
      }
      WalkEnd(x, lists, c, n, i, p, prev, link);
    }

    /** Turns bucket `j` around. */
    method ReverseBucket(j: nat)
      requires Chained() && j < |lists|
      modifies this`lists, next, buckets
      ensures Chained() && lists == old(lists)[j := Rev(old(lists)[j])]
    {
      hide Rep, Rev, Turning;
      ghost var l, c := lists, lists[j];
      var newLink, link := NULL, buckets[j];
      ghost var q := 0;
      TurnStart(next[..], buckets[..], l, j);
      while link != NULL
        invariant q <= |c| && link == LinkAt(c, q)
        invariant buckets[..] == old(buckets[..]) && lists == l
        invariant Turning(next[..], buckets[..], l, j, q, newLink, link)
        decreases |c| - q
      {
        var cur: nat := link;
        ghost var n := next[..];
        TurnOne(n, buckets[..], l, j, q, newLink);
        link := next[cur];
        next[cur] := newLink;
        assert next[..] == n[cur := newLink];
        newLink := cur;
        q := q + 1;
      }
      ghost var b := buckets[..];
      TurnEnd(next[..], b, l, j, q, newLink, link);
      buckets[j] := newLink;
      assert buckets[..] == b[j := newLink];
      lists := lists[j := Rev(c)];
    }

    /** CHash_MultiplyBuckets: fails, and changes nothing, exactly if the number of buckets would
        not fit or the memory for them is not `granted`; else every entry is in its bucket among the new ones. */
    method MultiplyBuckets(exp: nat, granted: bool) returns (ok: bool)
      requires Valid() && 0 < exp
      modifies this`buckets, this`numBuckets, this`lists, next
      ensures Valid() && (ok <==> old(numBuckets) * Pow2(exp) <= sizeMax && granted)
      ensures numBuckets == if ok then old(numBuckets) * Pow2(exp) else old(numBuckets)
      ensures lists == if ok then Rehash(x, old(lists), numBuckets) else old(lists)
      ensures forall key :: Entries(key) == old(Entries(key))
    {
      var n;
      ok, n := NewSize(exp);
      if !ok || !granted {
        return false;
      }
      ghost var c, m := lists, Pow2(exp);
      PowPositive(numBuckets, exp);
      RehashKeeps(x, c, m);
      assert IsProduct(n, |c|, m) && Spread(x, c + seq(n - |c|, j => []), c, n, 0) by {
        AtStart(x, c, n);
      }
      hide Good, Done, Rehash, Rep, Group, Pow2, IsProduct, Spread;
      Grow(n);
      SpreadAll(n, Pow2(exp), c);
      ReverseAll(n, c);
      numBuckets := n;
    }

    method NewSize(exp: nat) returns (ok: bool, n: nat)
      requires 0 < exp && 0 < numBuckets <= sizeMax
      ensures ok <==> numBuckets * Pow2(exp) <= sizeMax
      ensures ok ==> n == numBuckets * Pow2(exp)
    {
      n := numBuckets;
      var left := exp;
      while left > 0
        invariant left <= exp && n == numBuckets * Pow2(exp - left) && n <= sizeMax
      {
        PowDouble(numBuckets, exp - left);
        if n > sizeMax / 2 {
          PowMono(numBuckets, exp - left + 1, exp);
          return false, 0;
        }
        n := n * 2;
        left := left - 1;
      }
      ok := true;
    }

    method SpreadAll(n: nat, m: nat, ghost c: seq<seq<nat>>)
      requires Chained() && Good(x, c) && numBuckets == |c| && 0 < n && IsProduct(n, |c|, m)
      requires Spread(x, lists, c, n, 0)
      modifies this`lists, next, buckets
      ensures Chained() && Spread(x, lists, c, n, |c|)
    {
      assert 0 < |c|;
      hide Rep, Good, Spread, IsProduct;
      var i := 0;
      while i < numBuckets
        invariant i <= |c| && Chained() && Spread(x, lists, c, n, i)
      {
        SpreadBucket(i, n, m, c);
        i := i + 1;
      }
    }

    method ReverseAll(n: nat, ghost c: seq<seq<nat>>)
      requires Chained() && 0 < |c| <= n && numBuckets == |c| && Spread(x, lists, c, n, |c|)
      modifies this`lists, next, buckets
      ensures Chained() && lists == Rehash(x, c, n)
    {
      hide Rep, Done, Rev;
      ghost var r, l := Rehash(x, c, n), lists;
      forall j | 0 <= j < n ensures l[j] == if j < |c| then r[j] else Rev(r[j]) {
        AtEnd(x, c, n, j);
      }
      hide Rehash;
      var i := numBuckets;
      while i < n
        invariant |c| <= i <= n && Chained() && |lists| == n
        invariant forall j :: 0 <= j < n ==> lists[j] == if j < i then r[j] else l[j]
      {
        RevRev(r[i]);
        ReverseBucket(i);
        i := i + 1;
      }
    }
  }

  /** The first `i` old buckets are done. */
  ghost predicate Spread<K>(x: Keys<K>, lists: seq<seq<nat>>, c: seq<seq<nat>>, n: nat, i: nat) {
    0 < |c| <= n && lists == AllDone(x, c, n, i, 0)
  }

  /** The walk over bucket `i` is at its p-th entry, `link`; `prev` is the last one that stayed. */
  ghost predicate Walked<K>(x: Keys<K>, lists: seq<seq<nat>>, c: seq<seq<nat>>, n: nat, i: nat, p: nat, prev: int, link: int) {
    && i < |c| <= n && p <= |c[i]| && lists == AllDone(x, c, n, i, p)
    && link == LinkAt(c[i], p) && prev == LinkAt(lists[i], Place(x, c, n, i, p) - 1)
  }

  lemma WalkStart<K>(x: Keys<K>, next: seq<int>, heads: seq<int>, lists: seq<seq<nat>>, c: seq<seq<nat>>, n: nat, i: nat)
    requires Rep(next, heads, lists) && i < |c| && Spread(x, lists, c, n, i)
    ensures |lists| == n && i < n && i < |heads| && Walked(x, lists, c, n, i, 0, NULL, heads[i])
  {
    hide Rep, Done, Place;
    LinksOf(next, heads, lists, i);
    PlaceAt(x, c, n, i, 0);
    PlaceStart(x, c, n, i);
  }

  lemma WalkAt<K>(x: Keys<K>, next: seq<int>, heads: seq<int>, lists: seq<seq<nat>>, c: seq<seq<nat>>, n: nat, i: nat, p: nat,
                  prev: int, link: int) returns (k: nat)
    requires Rep(next, heads, lists) && Walked(x, lists, c, n, i, p, prev, link) && link != NULL
    ensures i < |c| && p < |c[i]| && 0 <= link < |next| && link == c[i][p] && next[link] == LinkAt(c[i], p + 1)
    ensures |lists| == n && i < |lists| && 0 < n && i < |c| && p <= |c[i]| && k == Place(x, c, n, i, p) < |lists[i]|
    ensures link == lists[i][k] && prev == LinkAt(lists[i], k - 1)
  {
    hide Rep, Done, Place;
    k := Place(x, c, n, i, p);
    PlaceAt(x, c, n, i, p);
    LinksOf(next, heads, lists, i);
  }

  lemma WalkStay<K>(x: Keys<K>, lists: seq<seq<nat>>, c: seq<seq<nat>>, n: nat, i: nat, p: nat, prev: int, cur: nat, link: int)
    requires Walked(x, lists, c, n, i, p, prev, cur) && 0 < n && i < |c| && p < |c[i]| && Bucket(x, x.keyOf(c[i][p]), n) == i
    requires link == LinkAt(c[i], p + 1)
    ensures Walked(x, lists, c, n, i, p + 1, cur, link)
  {
    hide Done, Place, Bucket;
    PlaceAt(x, c, n, i, p);
    StepStay(x, c, n, i, p);
  }

  lemma WalkMove<K>(x: Keys<K>, lists: seq<seq<nat>>, c: seq<seq<nat>>, n: nat, i: nat, p: nat, prev: int, cur: nat, link: int,
                    t: nat, k: nat)
    requires Walked(x, lists, c, n, i, p, prev, cur) && 0 < n && i < |c| && p < |c[i]| && Bucket(x, x.keyOf(c[i][p]), n) == t
    requires |c| <= t < n && t % |c| == i && link == LinkAt(c[i], p + 1) && k == Place(x, c, n, i, p) && |lists| == n && k < |lists[i]|
    ensures Walked(x, lists[i := Cut(lists[i], k)][t := [cur] + lists[t]], c, n, i, p + 1, prev, link)
  {
    hide Done, Place, Bucket;
    PlaceAt(x, c, n, i, p);
    StepMove(x, c, n, i, p, t);
    assert LinkAt(Cut(lists[i], k), k - 1) == LinkAt(lists[i], k - 1);
  }

  lemma WalkEnd<K>(x: Keys<K>, lists: seq<seq<nat>>, c: seq<seq<nat>>, n: nat, i: nat, p: nat, prev: int, link: int)
    requires Walked(x, lists, c, n, i, p, prev, link) && link == NULL
    ensures Spread(x, lists, c, n, i + 1)
  {
    hide Done, Place;
    NextBucket(x, c, n, i);
  }

  lemma PlaceStart<K>(x: Keys<K>, c: seq<seq<nat>>, n: nat, i: nat)
    requires i < |c| && 0 < n
    ensures Place(x, c, n, i, 0) == 0
  {
    assert c[i][..0] == [];
  }

  /** `n` buckets are `m` times as many as `k`. */
  ghost predicate IsProduct(n: nat, k: nat, m: nat) {
    0 < k && 0 < m && 0 < n && n == k * m
  }

  lemma NewIndex(h: nat, n: nat, k: nat, m: nat)
    requires IsProduct(n, k, m)
    ensures h % n < n && (h % n) % k == h % k && (h % n != h % k ==> k <= h % n)
  {
    ModMod(h, k, m);
    if h % n < k {
      SmallMod(h % n, k);
    }
  }

  lemma NewBucket<K>(x: Keys<K>, c: seq<seq<nat>>, n: nat, m: nat, i: nat, p: nat)
    requires Good(x, c) && i < |c| && p < |c[i]| && IsProduct(n, |c|, m)
    ensures 0 < n
    ensures var t := Bucket(x, x.keyOf(c[i][p]), n); t < n && t % |c| == i && (t != i ==> |c| <= t)
  {
    assert c[i][p] in c[i];
    NewIndex(x.hash(x.keyOf(c[i][p])), n, |c|, m);
    assert 0 < n;
    hide Grouped, IsProduct;
  }

  lemma RevTake(c: seq<nat>, q: nat)
    requires q <= |c|
    ensures q == 0 ==> c[..q] == [] && Rev(c[..q]) == [] && c[q..] == c
    ensures q < |c| ==> Rev(c[..q + 1]) == [c[q]] + Rev(c[..q]) && c[q..] == [c[q]] + c[q + 1..]
  {
    if q < |c| {
      assert c[..q + 1] == c[..q] + [c[q]];
      RevSnoc(c[..q], c[q]);
    }
  }

  /** The first `q` entries of list `j` are turned around, from `newLink` on; the rest of it goes on
      at `link`. */
  ghost predicate Turning(next: seq<int>, heads: seq<int>, l: seq<seq<nat>>, j: nat, q: nat, newLink: int, link: int) {
    && j < |l| == |heads| && q <= |l[j]|
    && Rep(next, heads[j := newLink] + [link], l[j := Rev(l[j][..q])] + [l[j][q..]])
  }

  lemma TurnStart(next: seq<int>, heads: seq<int>, l: seq<seq<nat>>, j: nat)
    requires Rep(next, heads, l) && j < |l|
    ensures |heads| == |l| && heads[j] == LinkAt(l[j], 0) && Turning(next, heads, l, j, 0, NULL, heads[j])
  {
    LinksOf(next, heads, l, j);
    TakeList(next, heads, l, j);
    RevTake(l[j], 0);
  }

  lemma TurnEnd(next: seq<int>, heads: seq<int>, l: seq<seq<nat>>, j: nat, q: nat, newLink: int, link: int)
    requires Turning(next, heads, l, j, q, newLink, link) && q == |l[j]|
    ensures Rep(next, heads[j := newLink], l[j := Rev(l[j])])
  {
    hide Rep, Rev;
    var h1, l1 := heads[j := newLink] + [link], l[j := Rev(l[j][..q])] + [l[j][q..]];
    assert l[j][..q] == l[j];
    DropList(next, h1, l1);
    assert h1[..|h1| - 1] == heads[j := newLink] && l1[..|l1| - 1] == l[j := Rev(l[j])];
  }

  /** One entry goes from the front of the rest to the front of what is turned around. */
  lemma TurnOne(next: seq<int>, heads: seq<int>, l: seq<seq<nat>>, j: nat, q: nat, newLink: int)
    requires j < |l| && q < |l[j]| && Turning(next, heads, l, j, q, newLink, l[j][q])
    ensures l[j][q] < |next| && next[l[j][q]] == LinkAt(l[j], q + 1)
    ensures Turning(next[l[j][q] := newLink], heads, l, j, q + 1, l[j][q], next[l[j][q]])
  {
    hide Rep, Rev, Absent;
    var c := l[j];
    RevTake(c, q);
    var h1, l1 := heads[j := newLink] + [c[q]], l[j := Rev(c[..q])] + [c[q..]];
    LinksOf(next, h1, l1, |l|);
    CutAt(next, h1, l1, |l|, 0);
    var h2, l2 := h1[|l| := next[c[q]]], l1[|l| := c[q + 1..]];
    assert Cut(c[q..], 0) == c[q + 1..];
    PushFront(next, h2, l2, j, c[q]);
    assert h2[j := c[q]] == heads[j := c[q]] + [next[c[q]]];
    assert l2[j := [c[q]] + l2[j]] == l[j := Rev(c[..q + 1])] + [c[q + 1..]];
  }

  lemma PowDouble(n: nat, d: nat)
    ensures n * Pow2(d + 1) == 2 * (n * Pow2(d))
  {
  }

  lemma {:induction false} PowMono(n: nat, a: nat, b: nat)
    requires a <= b
    ensures n * Pow2(a) <= n * Pow2(b)
  {
    if a < b {
      PowMono(n, a, b - 1);
      PowDouble(n, b - 1);
    }
  }

  lemma {:induction false} PowPositive(n: nat, d: nat)
    requires 0 < n
    ensures 0 < Pow2(d) && n <= n * Pow2(d)
  {
    if d > 0 {
      PowPositive(n, d - 1);
      PowDouble(n, d - 1);
    }
  }
}
