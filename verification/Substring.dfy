/** Substring search with a backtrack table, forward and in reverse. */
module Substring {
  import opened Sequences

  // ---------------------------------------------------------------- borders and occurrences

  /** The first `b` elements of `s` are also the last `b` of its first `n`, and not all of them. */
  ghost predicate Border<T>(s: seq<T>, n: nat, b: nat) {
    b < n <= |s| && forall k :: 0 <= k < b ==> s[k] == s[n - b + k]
  }

  ghost predicate LongestBorder<T>(s: seq<T>, n: nat, b: nat) {
    Border(s, n, b) && forall c: nat :: Border(s, n, c) ==> c <= b
  }

  /** Entry `i` of the table is the length of the longest proper border of the first `i` elements. */
  ghost predicate TableUpTo<T>(s: seq<T>, table: seq<nat>, n: nat) {
    n <= |table| && forall i: nat :: 1 <= i < n ==> LongestBorder(s, i, table[i])
  }

  ghost predicate Occurs<T>(text: seq<T>, word: seq<T>, p: nat) {
    p + |word| <= |text| && forall k :: 0 <= k < |word| ==> text[p + k] == word[k]
  }

  /** The first `x` elements of `word` are the last `x` of the first `i` of `text`. */
  ghost predicate Ends<T>(text: seq<T>, word: seq<T>, i: nat, x: nat) {
    x <= i <= |text| && x <= |word| && forall k :: 0 <= k < x ==> text[i - x + k] == word[k]
  }

  lemma BorderLess<T>(s: seq<T>, n: nat, b: nat)
    ensures Border(s, n, b) ==> b < n
  {
  }

  /** A shorter border is a border of a longer one, and the other way round. */
  lemma BorderOfBorder<T>(s: seq<T>, n: nat, b: nat, c: nat)
    requires Border(s, n, b) && c < b
    ensures Border(s, n, c) <==> Border(s, b, c)
  {
    if Border(s, n, c) {
      forall k | 0 <= k < c ensures s[k] == s[b - c + k] {
        assert s[b - c + k] == s[n - b + (b - c + k)];
      }
    }
    if Border(s, b, c) {
      forall k | 0 <= k < c ensures s[k] == s[n - c + k] {
        assert s[b - c + k] == s[n - b + (b - c + k)];
      }
    }
  }

  lemma EndsOfEnds<T>(text: seq<T>, word: seq<T>, i: nat, x: nat, c: nat)
    requires Ends(text, word, i, x) && c < x
    ensures Ends(text, word, i, c) <==> Border(word, x, c)
  {
    if Ends(text, word, i, c) {
      forall k | 0 <= k < c ensures word[k] == word[x - c + k] {
        assert text[i - x + (x - c + k)] == word[x - c + k];
      }
    }
    if Border(word, x, c) {
      forall k | 0 <= k < c ensures text[i - c + k] == word[k] {
        assert text[i - x + (x - c + k)] == word[x - c + k];
      }
    }
  }

  /** A border of one element more is a border with the next element added. */
  lemma BorderNext<T>(s: seq<T>, n: nat, c: nat)
    requires 0 < n < |s|
    ensures Border(s, n + 1, c + 1) <==> Border(s, n, c) && s[c] == s[n]
  {
    if Border(s, n + 1, c + 1) {
      forall k | 0 <= k < c ensures s[k] == s[n - c + k] {
        assert s[k] == s[n + 1 - (c + 1) + k];
      }
      assert s[c] == s[n + 1 - (c + 1) + c];
    }
  }

  lemma EndsNext<T>(text: seq<T>, word: seq<T>, i: nat, c: nat)
    requires i < |text| && c < |word|
    ensures Ends(text, word, i + 1, c + 1) <==> Ends(text, word, i, c) && text[i] == word[c]
  {
    if Ends(text, word, i + 1, c + 1) {
      forall k | 0 <= k < c ensures text[i - c + k] == word[k] {
        assert text[i + 1 - (c + 1) + k] == word[k];
      }
      assert text[i + 1 - (c + 1) + c] == word[c];
    }
  }

  // ---------------------------------------------------------------- the inner loops

  /** Every border of the first `i` elements that the next one extends is at most `x`. */
  ghost predicate NoneLonger<T>(s: seq<T>, i: nat, x: nat) {
    x < i < |s| && Border(s, i, x) && forall c: nat :: c < i && Border(s, i, c) && s[c] == s[i] ==> c <= x
  }

  lemma BackBorder<T>(s: seq<T>, i: nat, x: nat, y: nat)
    requires NoneLonger(s, i, x) && 0 < x && s[i] != s[x] && LongestBorder(s, x, y)
    ensures NoneLonger(s, i, y)
  {
    BorderOfBorder(s, i, x, y);
    forall c: nat | c < i && Border(s, i, c) && s[c] == s[i] ensures c <= y {
      BorderOfBorder(s, i, x, c);
    }
  }

  function Grown(same: bool, x: nat): nat {
    if same then x + 1 else 0
  }

  lemma NextBorder<T>(s: seq<T>, i: nat, x: nat)
    requires 0 < i && NoneLonger(s, i, x) && (x == 0 || s[i] == s[x])
    ensures LongestBorder(s, i + 1, Grown(s[i] == s[x], x))
  {
    hide Border;
    ZeroBorder(s, i + 1);
    BorderNext(s, i, x);
    var n, g := i + 1, Grown(s[i] == s[x], x);
    forall c: nat | Border(s, n, c) ensures c <= g {
      if c > 0 {
        BorderNext(s, i, c - 1);
        BorderLess(s, i, c - 1);
      }
    }
  }

  lemma ZeroBorder<T>(s: seq<T>, n: nat)
    requires 0 < n <= |s|
    ensures Border(s, n, 0) && (n == 1 ==> LongestBorder(s, n, 0))
  {
  }

  /** Every beginning of the word that ends the text so far, and that the next element extends, is
      at most `x` long. */
  ghost predicate NoneBetter<T>(text: seq<T>, word: seq<T>, i: nat, x: nat) {
    && Ends(text, word, i, x) && x < |word| && x <= i < |text|
    && forall c: nat :: c < |word| && Ends(text, word, i, c) && text[i] == word[c] ==> c <= x
  }

  ghost predicate Longest<T>(text: seq<T>, word: seq<T>, i: nat, x: nat) {
    Ends(text, word, i, x) && x < |word| && forall c: nat :: c < |word| && Ends(text, word, i, c) ==> c <= x
  }

  lemma BackEnds<T>(text: seq<T>, word: seq<T>, i: nat, x: nat, y: nat)
    requires NoneBetter(text, word, i, x) && 0 < x && text[i] != word[x] && LongestBorder(word, x, y)
    ensures NoneBetter(text, word, i, y)
  {
    EndsOfEnds(text, word, i, x, y);
    forall c: nat | c < |word| && Ends(text, word, i, c) && text[i] == word[c] ensures c <= y {
      if c < x {
        EndsOfEnds(text, word, i, x, c);
      }
    }
  }

  /** No occurrence of the word ends within the first `i` elements. */
  ghost predicate NoneYet<T>(text: seq<T>, word: seq<T>, i: nat) {
    forall p: nat :: p + |word| <= i ==> !Occurs(text, word, p)
  }

  lemma OccursEnds<T>(text: seq<T>, word: seq<T>, p: nat)
    requires p + |word| <= |text|
    ensures Occurs(text, word, p) <==> Ends(text, word, p + |word|, |word|)
  {
  }

  /** The next element: either the word is complete, or the longest beginning grows or starts anew. */
  lemma NextEnds<T>(text: seq<T>, word: seq<T>, i: nat, x: nat)
    requires NoneBetter(text, word, i, x) && (x == 0 || text[i] == word[x]) && NoneYet(text, word, i)
    ensures text[i] == word[x] && x + 1 == |word| ==> Occurs(text, word, i - x)
    ensures !(text[i] == word[x] && x + 1 == |word|) ==>
      NoneYet(text, word, i + 1) && Longest(text, word, i + 1, Grown(text[i] == word[x], x))
  {
    hide Ends, Occurs;
    ZeroEnds(text, word, i + 1);
    EndsNext(text, word, i, x);
    if text[i] == word[x] && x + 1 == |word| {
      OccursEnds(text, word, i - x);
    } else {
      forall p: nat | p + |word| <= i + 1 ensures !Occurs(text, word, p) {
        if p + |word| == i + 1 {
          OccursEnds(text, word, p);
          EndsNext(text, word, i, |word| - 1);
        }
      }
      var n, g := i + 1, Grown(text[i] == word[x], x);
      forall c: nat | c < |word| && Ends(text, word, n, c) ensures c <= g {
        if c > 0 {
          EndsNext(text, word, i, c - 1);
        }
      }
    }
  }

  lemma ZeroEnds<T>(text: seq<T>, word: seq<T>, i: nat)
    requires i <= |text|
    ensures Ends(text, word, i, 0)
  {
  }

  // ---------------------------------------------------------------- forward

  /** build_substring_backtrack_table */
  method BuildTable<T(==)>(str: seq<T>, table: array<nat>)
    requires 0 < |str| == table.Length
    modifies table
    ensures TableUpTo(str, table[..], |str|)
  {
    hide Border, LongestBorder;
    var x: nat := 0;
    ZeroBorder(str, 1);
    for i := 1 to |str|
      invariant TableUpTo(str, table[..], i) && LongestBorder(str, i, x)
    {
      table[i] := x;
      LongestIsNoneLonger(str, i, x);
      while x > 0 && str[i] != str[x]
        invariant NoneLonger(str, i, x) && x < i && TableUpTo(str, table[..], i + 1)
      {
        BackBorder(str, i, x, table[x]);
        BorderShorter(str, x, table[x]);
        x := table[x];
      }
      NextBorder(str, i, x);
      if str[i] == str[x] {
        x := x + 1;
      }
    }
  }

  lemma LongestIsNoneLonger<T>(s: seq<T>, i: nat, x: nat)
    requires LongestBorder(s, i, x) && i < |s|
    ensures NoneLonger(s, i, x) && x < i
  {
  }

  lemma BorderShorter<T>(s: seq<T>, n: nat, b: nat)
    requires LongestBorder(s, n, b)
    ensures b < n
  {
  }

  /** find_substring: the leftmost occurrence, or none. */
  method FindSubstring<T(==)>(text: seq<T>, word: seq<T>, table: array<nat>) returns (found: bool, position: nat)
    requires 0 < |word| == table.Length && TableUpTo(word, table[..], |word|)
    ensures found ==> Occurs(text, word, position) && forall p: nat :: p < position ==> !Occurs(text, word, p)
    ensures !found ==> forall p: nat :: !Occurs(text, word, p)
  {
    hide Border, LongestBorder, Ends, Occurs, NoneBetter;
    var x: nat := 0;
    StartLongest(text, word);
    for i := 0 to |text|
      invariant NoneYet(text, word, i) && Longest(text, word, i, x)
    {
      LongestIsNoneBetter(text, word, i, x);
      while x > 0 && text[i] != word[x]
        invariant NoneBetter(text, word, i, x) && x < |word| && x <= i
      {
        BackEnds(text, word, i, x, table[x]);
        BorderShorter(word, x, table[x]);
        x := table[x];
      }
      NextEnds(text, word, i, x);
      if text[i] == word[x] {
        if x + 1 == |word| {
          return true, i - x;
        }
        x := x + 1;
      }
    }
    NowhereElse(text, word);
    found, position := false, 0;
  }

  lemma StartLongest<T>(text: seq<T>, word: seq<T>)
    requires 0 < |word|
    ensures NoneYet(text, word, 0) && Longest(text, word, 0, 0)
  {
  }

  lemma LongestIsNoneBetter<T>(text: seq<T>, word: seq<T>, i: nat, x: nat)
    requires Longest(text, word, i, x) && i < |text|
    ensures NoneBetter(text, word, i, x) && x < |word| && x <= i
  {
  }

  lemma NowhereElse<T>(text: seq<T>, word: seq<T>)
    requires NoneYet(text, word, |text|)
    ensures forall p: nat :: !Occurs(text, word, p)
  {
  }

  // ---------------------------------------------------------------- in reverse

  /** An occurrence read backwards. */
  lemma OccursRev<T>(text: seq<T>, word: seq<T>, p: nat)
    requires p + |word| <= |text|
    ensures Occurs(Rev(text), Rev(word), p) <==> Occurs(text, word, |text| - |word| - p)
  {
    var q := |text| - |word| - p;
    if Occurs(text, word, q) {
      forall k | 0 <= k < |word| ensures Rev(text)[p + k] == Rev(word)[k] {
        assert text[q + (|word| - 1 - k)] == word[|word| - 1 - k];
      }
    }
    if Occurs(Rev(text), Rev(word), p) {
      forall k | 0 <= k < |word| ensures text[q + k] == word[k] {
        assert Rev(text)[p + (|word| - 1 - k)] == Rev(word)[|word| - 1 - k];
      }
    }
  }

  /** build_substring_backtrack_table_reverse */
  method BuildTableReverse<T(==)>(str: seq<T>, table: array<nat>)
    requires 0 < |str| == table.Length
    modifies table
    ensures TableUpTo(Rev(str), table[..], |str|)
  {
    hide Border, LongestBorder;
    ghost var r := Rev(str);
    var x: nat := 0;
    ZeroBorder(r, 1);
    for i := 1 to |str|
      invariant TableUpTo(r, table[..], i) && LongestBorder(r, i, x)
    {
      table[i] := x;
      LongestIsNoneLonger(r, i, x);
      while x > 0 && str[|str| - 1 - i] != str[|str| - 1 - x]
        invariant NoneLonger(r, i, x) && x < i && TableUpTo(r, table[..], i + 1)
      {
        BackBorder(r, i, x, table[x]);
        BorderShorter(r, x, table[x]);
        x := table[x];
      }
      NextBorder(r, i, x);
      if str[|str| - 1 - i] == str[|str| - 1 - x] {
        x := x + 1;
      }
    }
  }

  /** find_substring_reverse: the rightmost occurrence, or none. */
  method FindSubstringReverse<T(==)>(text: seq<T>, word: seq<T>, table: array<nat>) returns (found: bool, position: nat)
    requires 0 < |word| == table.Length && TableUpTo(Rev(word), table[..], |word|)
    ensures found ==> Occurs(text, word, position) && forall p: nat :: position < p ==> !Occurs(text, word, p)
    ensures !found ==> forall p: nat :: !Occurs(text, word, p)
  {
    hide Border, LongestBorder, Ends, Occurs, NoneBetter;
    ghost var t, w := Rev(text), Rev(word);
    var x: nat := 0;
    StartLongest(t, w);
    for i := 0 to |text|
      invariant NoneYet(t, w, i) && Longest(t, w, i, x)
    {
      LongestIsNoneBetter(t, w, i, x);
      while x > 0 && text[|text| - 1 - i] != word[|word| - 1 - x]
        invariant NoneBetter(t, w, i, x) && x < |w| && x <= i
      {
        BackEnds(t, w, i, x, table[x]);
        BorderShorter(w, x, table[x]);
        x := table[x];
      }
      NextEnds(t, w, i, x);
      if text[|text| - 1 - i] == word[|word| - 1 - x] {
        if x + 1 == |word| {
          Rightmost(text, word, i - x);
          return true, |text| - 1 - i;
        }
        x := x + 1;
      }
    }
    NowhereElse(t, w);
    Nowhere(text, word);
    found, position := false, 0;
  }

  lemma Rightmost<T>(text: seq<T>, word: seq<T>, p: nat)
    requires 0 < |word| && Occurs(Rev(text), Rev(word), p) && NoneYet(Rev(text), Rev(word), p + |word| - 1)
    ensures p + |word| <= |text| && Occurs(text, word, |text| - |word| - p)
    ensures forall q: nat :: |text| - |word| - p < q ==> !Occurs(text, word, q)
  {
    OccursRev(text, word, p);
    forall q: nat | |text| - |word| - p < q ensures !Occurs(text, word, q) {
      if q + |word| <= |text| {
        OccursRev(text, word, |text| - |word| - q);
      }
    }
  }

  lemma Nowhere<T>(text: seq<T>, word: seq<T>)
    requires forall p: nat :: !Occurs(Rev(text), Rev(word), p)
    ensures forall p: nat :: !Occurs(text, word, p)
  {
    forall p: nat ensures !Occurs(text, word, p) {
      if p + |word| <= |text| {
        OccursRev(text, word, |text| - |word| - p);
      }
    }
  }
}
