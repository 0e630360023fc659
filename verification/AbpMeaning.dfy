/** Which addresses a filter matches, in characters. */
module AbpMeaning {
  // Said without the parts that a pattern is compiled to.

  import opened AbpPattern

  // ---------------------------------------------------------------- characters

  predicate Letter(c: char) {
    'a' <= c <= 'z' || 'A' <= c <= 'Z'
  }

  predicate Number(c: char) {
    '0' <= c <= '9'
  }

  /** The same character; or, without match-case, the same letter in the other size. */
  predicate Equal(matchCase: bool, c: char, d: char) {
    || c == d
    || (!matchCase && 'a' <= c <= 'z' && c as int == d as int + 0x20)
    || (!matchCase && 'a' <= d <= 'z' && d as int == c as int + 0x20)
  }

  predicate Equals(matchCase: bool, p: string, x: string) {
    |p| == |x| && forall k :: 0 <= k < |p| ==> Equal(matchCase, p[k], x[k])
  }

  /** An ASCII character that can stand behind a host name. */
  predicate Divides(c: char) {
    c as int <= 0x7f && !Letter(c) && !Number(c) && c !in "_-.%"
  }

  /** A character a star does not reach over. */
  predicate NewLine(c: char) {
    c in "\n\r" || c as int == 0x2028 || c as int == 0x2029
  }

  predicate SchemeName(s: string) {
    s != "" && forall k :: 0 <= k < |s| ==> Letter(s[k]) || Number(s[k]) || s[k] in "_-"
  }

  /** Empty, or something that ends in a dot. */
  predicate Labels(w: string) {
    w == "" || (|w| >= 2 && w[|w| - 1] == '.' && '/' !in w)
  }

  lemma SameIs(matchCase: bool, c: char, d: char)
    ensures Same(matchCase, c, d) <==> Equal(matchCase, c, d)
  {
  }

  lemma SeparatorIs(c: char)
    ensures Separator(c) <==> Divides(c)
    ensures LineEnd(c) <==> NewLine(c)
  {
  }

  // ---------------------------------------------------------------- the text of a pattern

  /** A character of a pattern takes a stretch of the address. */
  predicate Takes(k: char, matchCase: bool, s: string, a: nat, b: nat) {
    && a <= b <= |s|
    && if k == '*' then forall j :: a <= j < b ==> !NewLine(s[j])
       else if k == '^' then (b == a + 1 && Divides(s[a])) || a == b == |s|
       else b == a + 1 && Equal(matchCase, k, s[a])
  }

  /** The characters take one stretch after the other, between the positions `c`. */
  ghost predicate Cuts(q: string, end: bool, matchCase: bool, s: string, c: seq<nat>) {
    && |c| == |q| + 1 && c[|q|] <= |s| && (end ==> c[|q|] == |s|)
    && forall k :: 0 <= k < |q| ==> Takes(q[k], matchCase, s, c[k], c[k + 1])
  }

  lemma {:induction false} CutsMatch(q: string, end: bool, matchCase: bool, s: string, c: seq<nat>)
    requires Cuts(q, end, matchCase, s, c)
    ensures c[0] <= |s| && MatchAt(Tokens(q), end, matchCase, s, c[0])
    decreases |q|, if q == "" then 0 else c[1] - c[0]
  {
    if q != "" {
      TokensCons(q);
      assert Takes(q[0], matchCase, s, c[0], c[1]);
      if q[0] == '*' && c[0] < c[1] {
        SeparatorIs(s[c[0]]);
        CutsMatch(q, end, matchCase, s, c[0 := c[0] + 1]);
      } else {
        CutsTail(q, end, matchCase, s, c);
        CutsMatch(q[1..], end, matchCase, s, c[1..]);
        if c[0] < |s| {
          SeparatorIs(s[c[0]]);
          SameIs(matchCase, q[0], s[c[0]]);
        }
      }
    }
  }

  lemma CutsTail(q: string, end: bool, matchCase: bool, s: string, c: seq<nat>)
    requires Cuts(q, end, matchCase, s, c) && q != ""
    ensures Cuts(q[1..], end, matchCase, s, c[1..])
  {
    forall k | 0 <= k < |q| - 1 ensures Takes(q[1..][k], matchCase, s, c[1..][k], c[1..][k + 1]) {
      assert Takes(q[k + 1], matchCase, s, c[k + 1], c[k + 2]);
    }
    hide Takes;
  }

  lemma CutsCons(q: string, end: bool, matchCase: bool, s: string, a: nat, c: seq<nat>)
    requires q != "" && Cuts(q[1..], end, matchCase, s, c) && Takes(q[0], matchCase, s, a, c[0])
    ensures Cuts(q, end, matchCase, s, [a] + c)
  {
    hide Takes;
    var d := [a] + c;
    forall k | 0 <= k < |q| ensures Takes(q[k], matchCase, s, d[k], d[k + 1]) {
      if k > 0 {
        assert Takes(q[1..][k - 1], matchCase, s, c[k - 1], c[k]);
      }
    }
  }

  lemma {:induction false} MatchCuts(q: string, end: bool, matchCase: bool, s: string, i: nat) returns (c: seq<nat>)
    requires i <= |s| && MatchAt(Tokens(q), end, matchCase, s, i)
    ensures Cuts(q, end, matchCase, s, c) && c[0] == i
    decreases |q|, |s| - i
  {
    if q == "" {
      c := [i];
    } else {
      TokensCons(q);
      if i < |s| {
        SeparatorIs(s[i]);
        SameIs(matchCase, q[0], s[i]);
      }
      if q[0] == '*' && !MatchAt(Tokens(q[1..]), end, matchCase, s, i) {
        c := MatchCuts(q, end, matchCase, s, i + 1);
        assert Takes(q[0], matchCase, s, i + 1, c[1]);
        CutsTail(q, end, matchCase, s, c);
        CutsCons(q, end, matchCase, s, i, c[1..]);
        c := [i] + c[1..];
      } else {
        c := MatchCuts(q[1..], end, matchCase, s, if q[0] == '*' || i == |s| then i else i + 1);
        CutsCons(q, end, matchCase, s, i, c);
        c := [i] + c;
      }
    }
  }

  // ---------------------------------------------------------------- where it may begin

  /** Behind a scheme, a colon, all the slashes there are, and perhaps some labels of a host. */
  ghost predicate HostStart(s: string, i: nat) {
    exists scheme, slashes, w :: HostParts(s, i, scheme, slashes, w)
  }

  ghost predicate HostParts(s: string, i: nat, scheme: string, slashes: string, w: string) {
    && i <= |s| && s[..i] == scheme + ":" + slashes + w && SchemeName(scheme) && Labels(w)
    && slashes != "" && (forall k :: 0 <= k < |slashes| ==> slashes[k] == '/')
    && (w == "" && i < |s| ==> s[i] != '/')
  }

  lemma HostStartExact(s: string, i: nat)
    requires i <= |s|
    ensures HostStart(s, i) <==> DomainTo(s, i)
  {
    if DomainTo(s, i) {
      var a: nat, b: nat :| a <= |s| && b <= |s| && SchemeTo(s, a, b) && Subdomain(s, b, i);
      PartsOf(s, a, b, i);
    }
    if HostStart(s, i) {
      var scheme, slashes, w :| HostParts(s, i, scheme, slashes, w);
      DomainOf(s, i, scheme, slashes, w);
    }
  }

  lemma PartsOf(s: string, a: nat, b: nat, i: nat)
    requires i <= |s| && a <= |s| && b <= |s| && SchemeTo(s, a, b) && Subdomain(s, b, i)
    ensures HostParts(s, i, s[..a], s[a + 1..b], s[b..i])
  {
    LabelsIs(s, b, i);
    hide Labels;
    assert s[..i] == s[..a] + ":" + s[a + 1..b] + s[b..i];
  }

  lemma DomainOf(s: string, i: nat, scheme: string, slashes: string, w: string)
    requires HostParts(s, i, scheme, slashes, w)
    ensures DomainTo(s, i)
  {
    var a, b := |scheme|, |scheme| + 1 + |slashes|;
    Placed(s, i, scheme, slashes, w);
    LabelsIs(s, b, i);
    assert w != "" ==> w[0] in w;
    hide Subdomain, Labels;
    assert SchemeTo(s, a, b);
  }

  lemma LabelsIs(s: string, b: nat, i: nat)
    requires b <= i <= |s|
    ensures Labels(s[b..i]) <==> Subdomain(s, b, i)
  {
    var w := s[b..i];
    if Subdomain(s, b, i) && b < i {
      assert w[|w| - 1] == s[i - 1];
      forall k | 0 <= k < |w| ensures w[k] != '/' {
        assert w[k] == s[b + k];
      }
    }
    if Labels(w) && b < i {
      forall k | b <= k < i - 1 ensures s[k] != '/' {
        assert w[k - b] in w;
      }
    }
  }

  lemma Placed(s: string, i: nat, scheme: string, slashes: string, w: string)
    requires i <= |s| && s[..i] == scheme + ":" + slashes + w
    ensures var a := |scheme|; var b := a + 1 + |slashes|;
      && b <= i && s[..a] == scheme && s[a] == ':' && s[a + 1..b] == slashes && s[b..i] == w
      && (forall k :: 0 <= k < a ==> s[k] == scheme[k]) && (forall k :: a < k < b ==> s[k] == slashes[k - a - 1])
      && (w != "" ==> s[b] == w[0])
  {
    var u := s[..i];
    var a, b := |scheme|, |scheme| + 1 + |slashes|;
    assert u[..a] == scheme && u[a] == ':' && u[a + 1..b] == slashes && u[b..] == w;
  }

  ghost predicate Begins(front: string, s: string, i: nat) {
    if front == "||" then HostStart(s, i) else front == "|" ==> i == 0
  }

  // ---------------------------------------------------------------- all patterns

  /** A pattern is what is written between the bars in front, none, one or two, and the one at the end. */
  predicate Written(front: string, q: string, back: string) {
    && front in ["", "|", "||"] && back in ["", "|"]
    && (q != "" && front != "||" ==> q[0] != '|')
    && (q != "" && back == "" ==> q[|q| - 1] != '|')
    && (q == "" && back == "|" ==> front == "||")
  }

  lemma SplitUp(p: string) returns (front: string, q: string, back: string)
    ensures Written(front, q, back) && p == front + q + back
  {
    front := if |p| >= 2 && p[..2] == "||" then "||" else if p != "" && p[0] == '|' then "|" else "";
    var rest := p[|front|..];
    assert p == front + rest;
    if rest != "" && rest[|rest| - 1] == '|' {
      q, back := rest[..|rest| - 1], "|";
    } else {
      q, back := rest, "";
    }
    assert rest == q + back;
    assert p == front + q + back;
  }

  lemma WrittenParse(front: string, q: string, back: string)
    requires Written(front, q, back)
    ensures var t := Parse(front + q + back);
      && t.anchor == (if front == "||" then Domain else if front == "|" then Start else Anywhere)
      && t.body == Tokens(q) && t.atEnd == (back == "|")
  {
    var p := front + q + back;
    WrittenAnchor(front, q, back);
    hide AnchorOf, Tokens;
    if back == "|" {
      assert (q + back)[..|q|] == q;
    } else {
      assert q + back == q;
    }
  }

  lemma WrittenAnchor(front: string, q: string, back: string)
    requires Written(front, q, back)
    ensures var a := AnchorOf(front + q + back);
      && a == (if front == "||" then Domain else if front == "|" then Start else Anywhere)
      && AnchorLen(a) == |front| && (front + q + back)[|front|..] == q + back
  {
    var p := front + q + back;
    assert q != "" ==> p[|front|] == q[0];
    assert p[|front|..] == q + back;
  }

  /** The bar at the end holds, unless it stands behind a `^`. */
  predicate AtEnd(q: string, back: string) {
    back == "|" && (q == "" || q[|q| - 1] != '^')
  }

  lemma EndDropped(front: string, q: string, back: string)
    requires Written(front, q, back)
    ensures var back' := if AtEnd(q, back) then "|" else "";
      Written(front, q, back') && DropEnd(front + q + back) == front + q + back'
  {
    var p := front + q + back;
    if back == "|" {
      assert p[|p| - 1] == '|' && p[..|p| - 1] == front + q + "";
      assert q != "" ==> p[|p| - 2] == q[|q| - 1];
    } else {
      assert q != "" ==> p[|p| - 1] == q[|q| - 1];
      assert q == "" ==> p == front;
    }
  }

  /** What is matched by any pattern at all: its characters take stretches of the address, one behind the
      other, from where its bars allow it to begin. */
  lemma MatchesExact(front: string, q: string, back: string, matchCase: bool, s: string)
    requires Written(front, q, back)
    ensures Matches(Compile(front + q + back), matchCase, s) <==>
      exists c :: Cuts(q, AtEnd(q, back), matchCase, s, c) && Begins(front, s, c[0])
  {
    var p, end := front + q + back, AtEnd(q, back);
    CompileKeeps(p, matchCase, s);
    EndDropped(front, q, back);
    WrittenParse(front, q, if end then "|" else "");
    hide Compile, Parse, MatchAt, DropEnd, Cuts, HostStart, DomainTo, Tokens;
    var t := Parse(DropEnd(p));
    forall i: nat | i <= |s| ensures Begins(front, s, i) <==> AnchorAt(t.anchor, s, i) {
      HostStartExact(s, i);
    }
    if Matches(t, matchCase, s) {
      var i: nat :| i <= |s| && AnchorAt(t.anchor, s, i) && MatchAt(t.body, t.atEnd, matchCase, s, i);
      var c := MatchCuts(q, end, matchCase, s, i);
    }
    forall c | Cuts(q, end, matchCase, s, c) && Begins(front, s, c[0]) ensures Matches(t, matchCase, s) {
      CutsMatch(q, end, matchCase, s, c);
    }
  }

  // ---------------------------------------------------------------- texts without a wildcard

  predicate Plain(q: string) {
    forall k :: 0 <= k < |q| ==> q[k] !in "*^|"
  }

  function Steps(i: nat, n: nat): seq<nat> {
    seq(n + 1, k => i + k)
  }

  /** Such a text is where it stands in the address, and nowhere else. */
  lemma {:induction false} PlainAt(q: string, n: nat, end: bool, matchCase: bool, s: string, c: seq<nat>)
    requires n <= |q| && Plain(q[..n]) && Cuts(q, end, matchCase, s, c)
    ensures c[n] == c[0] + n <= |s| && Equals(matchCase, q[..n], s[c[0]..c[0] + n])
    decreases n
  {
    hide Equal;
    if n == 0 {
      assert q != "" ==> Takes(q[0], matchCase, s, c[0], c[1]);
    } else {
      PlainAt(q, n - 1, end, matchCase, s, c);
      assert Takes(q[n - 1], matchCase, s, c[n - 1], c[n]);
      assert q[..n][n - 1] == q[n - 1];
      assert q[..n] == q[..n - 1] + [q[n - 1]];
      assert s[c[0]..c[0] + n] == s[c[0]..c[0] + n - 1] + [s[c[0] + n - 1]];
    }
  }

  lemma PlainSteps(q: string, end: bool, matchCase: bool, s: string, i: nat)
    requires Plain(q) && i + |q| <= |s| && Equals(matchCase, q, s[i..i + |q|]) && (end ==> i + |q| == |s|)
    ensures Cuts(q, end, matchCase, s, Steps(i, |q|)) && Steps(i, |q|)[0] == i
  {
    hide Equal;
    var c := Steps(i, |q|);
    forall k | 0 <= k < |q| ensures Takes(q[k], matchCase, s, c[k], c[k + 1]) {
      assert s[i..i + |q|][k] == s[i + k];
    }
  }

  /** The text stands in the address behind `u` and in front of `v`. */
  ghost predicate Stands(q: string, matchCase: bool, s: string, u: string, x: string, v: string) {
    s == u + x + v && Equals(matchCase, q, x)
  }

  lemma PlainStands(q: string, end: bool, matchCase: bool, s: string, c: seq<nat>) returns (u: string, x: string, v: string)
    requires Plain(q) && Cuts(q, end, matchCase, s, c)
    ensures Stands(q, matchCase, s, u, x, v) && |u| == c[0] && (end ==> v == "")
  {
    assert q[..|q|] == q;
    PlainAt(q, |q|, end, matchCase, s, c);
    hide Equals;
    u, x, v := s[..c[0]], s[c[0]..c[0] + |q|], s[c[0] + |q|..];
    assert s == u + x + v;
  }

  lemma StandsCuts(q: string, end: bool, matchCase: bool, s: string, u: string, x: string, v: string)
    requires Plain(q) && Stands(q, matchCase, s, u, x, v) && (end ==> v == "")
    ensures Cuts(q, end, matchCase, s, Steps(|u|, |q|)) && Steps(|u|, |q|)[0] == |u|
  {
    assert s[|u|..|u| + |q|] == x;
    PlainSteps(q, end, matchCase, s, |u|);
  }

  /** A plain text, with a bar in front or at the end or without, is looked for in the address as it is. */
  lemma PlainExact(front: string, q: string, back: string, matchCase: bool, s: string)
    requires q != "" && Plain(q) && front in ["", "|"] && back in ["", "|"]
    ensures Matches(Compile(front + q + back), matchCase, s) <==>
      exists u, x, v :: Stands(q, matchCase, s, u, x, v) && (front == "|" ==> u == "") && (back == "|" ==> v == "")
  {
    var end := AtEnd(q, back);
    assert end == (back == "|") && Written(front, q, back);
    MatchesExact(front, q, back, matchCase, s);
    hide Compile, Matches, Cuts, Stands;
    if c :| Cuts(q, end, matchCase, s, c) && Begins(front, s, c[0]) {
      var u, x, v := PlainStands(q, end, matchCase, s, c);
    }
    forall u, x, v | Stands(q, matchCase, s, u, x, v) && (front == "|" ==> u == "") && (back == "|" ==> v == "")
      ensures Matches(Compile(front + q + back), matchCase, s)
    {
      StandsCuts(q, end, matchCase, s, u, x, v);
    }
  }

  // ---------------------------------------------------------------- words

  predicate WordChar(c: char) {
    Letter(c) || Number(c) || c == '%'
  }

  /** A longest stretch of at least three such characters; `w` is it in small letters. */
  ghost predicate IsWord(s: string, a: nat, b: nat, w: string) {
    && a + 3 <= b <= |s| && (forall k :: a <= k < b ==> WordChar(s[k]))
    && (a == 0 || !WordChar(s[a - 1])) && (b == |s| || !WordChar(s[b]))
    && |w| == b - a && forall k :: a <= k < b ==> w[k - a] as int == s[k] as int + if 'A' <= s[k] <= 'Z' then 0x20 else 0
  }

  lemma WordCharIs(c: char)
    ensures KeyChar(Lower(c)) <==> WordChar(c)
    ensures Lower(c) as int == c as int + if 'A' <= c <= 'Z' then 0x20 else 0
    ensures Lower(c) == '*' <==> c == '*'
  {
  }

  lemma WantedIs(s: string, a: nat, b: nat, enclosed: bool, w: string)
    ensures Wanted(LowerAll(s), a, b, enclosed, w) <==>
      IsWord(s, a, b, w) && (enclosed ==> 0 < a && b < |s| && s[a - 1] != '*' && s[b] != '*')
  {
    var t := LowerAll(s);
    forall k | 0 <= k < |s|
      ensures KeyChar(t[k]) <==> WordChar(s[k])
      ensures t[k] as int == s[k] as int + if 'A' <= s[k] <= 'Z' then 0x20 else 0
      ensures t[k] == '*' <==> s[k] == '*'
    {
      WordCharIs(s[k]);
    }
    hide KeyChar, WordChar, LowerAll;
    if IsWord(s, a, b, w) {
      assert w == t[a..b];
    }
  }

  /** The words an address is looked up by. */
  lemma WordsExact(s: string, w: string)
    ensures w in AddressWords(s) <==> exists a, b :: IsWord(s, a, b, w)
  {
    hide Found, Wanted, IsWord, LowerAll;
    var t := LowerAll(s);
    if w in AddressWords(s) {
      FoundSound(t, 0, false, w);
      var a: nat, b: nat :| Wanted(t, a, b, false, w);
      WantedIs(s, a, b, false, w);
    }
    forall a, b | IsWord(s, a, b, w) ensures w in AddressWords(s) {
      WantedIs(s, a, b, false, w);
      FoundComplete(t, 0, false, a, b, w);
    }
  }

  /** The keywords a pattern may be filed under: words with something on either side, no star. */
  lemma CandidatesExact(p: string, w: string)
    ensures w in Candidates(p) <==>
      exists a: nat, b: nat :: IsWord(p, a, b, w) && 0 < a && b < |p| && p[a - 1] != '*' && p[b] != '*'
  {
    hide Found, Wanted, LowerAll;
    var t := LowerAll(p);
    if w in Candidates(p) {
      FoundSound(t, 0, true, w);
      var a: nat, b: nat :| Wanted(t, a, b, true, w);
      WantedIs(p, a, b, true, w);
    }
    forall a: nat, b: nat | IsWord(p, a, b, w) && 0 < a && b < |p| && p[a - 1] != '*' && p[b] != '*' ensures w in Candidates(p) {
      WantedIs(p, a, b, true, w);
      FoundComplete(t, 0, true, a, b, w);
    }
  }

  // ---------------------------------------------------------------- hosts

  /** Where a host can begin in an address, after two slashes. */
  lemma HostParted(scheme: string, rest: string, i: nat)
    requires SchemeName(scheme) && (rest != "" ==> rest[0] != '/')
    ensures var s, b := scheme + "://" + rest, |scheme| + 3;
      HostStart(s, i) <==> b <= i <= |s| && Labels(s[b..i])
  {
    var s, b := scheme + "://" + rest, |scheme| + 3;
    assert s[b..] == rest;
    if b <= i <= |s| && Labels(s[b..i]) {
      assert s[..i] == scheme + ":" + "//" + s[b..i];
      assert HostParts(s, i, scheme, "//", s[b..i]);
    }
    if HostStart(s, i) {
      var scheme', slashes, w :| HostParts(s, i, scheme', slashes, w);
      OneParting(scheme, rest, i, scheme', slashes, w);
    }
  }

  lemma OneParting(scheme: string, rest: string, i: nat, scheme': string, slashes: string, w: string)
    requires SchemeName(scheme) && (rest != "" ==> rest[0] != '/')
    requires HostParts(scheme + "://" + rest, i, scheme', slashes, w)
    ensures |scheme'| == |scheme| && |slashes| == 2
    ensures var s, b := scheme + "://" + rest, |scheme| + 3; b <= i <= |s| && s[b..i] == w
  {
    var s, a, b := scheme + "://" + rest, |scheme|, |scheme'| + 1 + |slashes|;
    Placed(s, i, scheme', slashes, w);
    assert forall k :: 0 <= k < a ==> s[k] == scheme[k];
    assert s[a] == ':' && s[a + 1] == '/' && s[a + 2] == '/' && (rest != "" ==> s[a + 3] == rest[0]);
    assert w != "" ==> w[0] in w;
  }

  /** The host text stands in `rest` behind labels, with its end or a dividing character after it. */
  ghost predicate HostStands(h: string, matchCase: bool, rest: string, w: string, x: string, y: string) {
    rest == w + x + y && Labels(w) && Equals(matchCase, h, x) && (y == "" || Divides(y[0]))
  }

  /** `||h^` matches an address exactly if its host is `h`, perhaps behind some labels, up to the size of
      letters, and ends there or where a character stands that is not of a name. */
  lemma HostExact(h: string, matchCase: bool, scheme: string, rest: string)
    requires Plain(h) && SchemeName(scheme) && (rest != "" ==> rest[0] != '/')
    ensures Matches(Compile("||" + h + "^"), matchCase, scheme + "://" + rest) <==>
      exists w, x, y :: HostStands(h, matchCase, rest, w, x, y)
  {
    var s, q := scheme + "://" + rest, h + "^";
    assert "||" + h + "^" == "||" + q + "";
    MatchesExact("||", q, "", matchCase, s);
    hide Compile, Matches, HostStart, SchemeName, Cuts, HostStands;
    if c :| Cuts(q, false, matchCase, s, c) && Begins("||", s, c[0]) {
      var w, x, y := CutsHost(h, matchCase, scheme, rest, c);
    }
    forall w, x, y | HostStands(h, matchCase, rest, w, x, y) ensures Matches(Compile("||" + q + ""), matchCase, s) {
      var c := HostCutsOf(h, matchCase, scheme, rest, w, x, y);
    }
  }

  lemma CutsHost(h: string, matchCase: bool, scheme: string, rest: string, c: seq<nat>) returns (w: string, x: string, y: string)
    requires Plain(h) && SchemeName(scheme) && (rest != "" ==> rest[0] != '/')
    requires Cuts(h + "^", false, matchCase, scheme + "://" + rest, c) && HostStart(scheme + "://" + rest, c[0])
    ensures HostStands(h, matchCase, rest, w, x, y)
  {
    var s, b := scheme + "://" + rest, |scheme| + 3;
    HostParted(scheme, rest, c[0]);
    HostCuts(h, matchCase, s, c);
    hide Cuts, HostStart, Equals, Labels, Divides, SchemeName;
    var i, j := c[0] - b, c[0] - b + |h|;
    w, x, y := rest[..i], rest[i..j], rest[j..];
    assert rest == w + x + y;
    assert s[b..] == rest;
    assert s[b..c[0]] == w && s[c[0]..c[0] + |h|] == x && s[c[0] + |h|..] == y;
  }

  lemma HostCutsOf(h: string, matchCase: bool, scheme: string, rest: string, w: string, x: string, y: string) returns (c: seq<nat>)
    requires Plain(h) && SchemeName(scheme) && (rest != "" ==> rest[0] != '/') && HostStands(h, matchCase, rest, w, x, y)
    ensures Cuts(h + "^", false, matchCase, scheme + "://" + rest, c) && HostStart(scheme + "://" + rest, c[0])
  {
    var s, b := scheme + "://" + rest, |scheme| + 3;
    var i := b + |w|;
    assert |h| == |x|;
    hide Cuts, HostStart, Equals, Labels, Divides, SchemeName;
    assert s == (scheme + "://" + w) + x + y;
    assert s[b..i] == w && s[i..i + |h|] == x && s[i + |h|..] == y;
    HostParted(scheme, rest, i);
    c := HostSteps(h, matchCase, s, i);
  }

  lemma HostCuts(h: string, matchCase: bool, s: string, c: seq<nat>)
    requires Plain(h) && Cuts(h + "^", false, matchCase, s, c)
    ensures c[0] + |h| <= |s| && Equals(matchCase, h, s[c[0]..c[0] + |h|])
    ensures var y := s[c[0] + |h|..]; y == "" || Divides(y[0])
  {
    var q := h + "^";
    assert q[..|h|] == h;
    PlainAt(q, |h|, false, matchCase, s, c);
    assert Takes(q[|h|], matchCase, s, c[|h|], c[|h| + 1]);
  }

  lemma HostSteps(h: string, matchCase: bool, s: string, i: nat) returns (c: seq<nat>)
    requires Plain(h) && i + |h| <= |s| && Equals(matchCase, h, s[i..i + |h|])
    requires var y := s[i + |h|..]; y == "" || Divides(y[0])
    ensures Cuts(h + "^", false, matchCase, s, c) && c[0] == i
  {
    var q, j := h + "^", i + |h|;
    PlainSteps(h, false, matchCase, s, i);
    hide Equals;
    c := Steps(i, |h|) + [if j == |s| then j else j + 1];
    forall k | 0 <= k < |q| ensures Takes(q[k], matchCase, s, c[k], c[k + 1]) {
      if k < |h| {
        assert Takes(h[k], matchCase, s, Steps(i, |h|)[k], Steps(i, |h|)[k + 1]);
      }
    }
  }
}
