/** The pattern language of the filters. */
module AbpPattern {
  // What a pattern matches, and which keywords it has.

  // ---------------------------------------------------------------- characters

  function Lower(c: char): char {
    if 'A' <= c <= 'Z' then c - 'A' + 'a' else c
  }

  function LowerAll(s: string): string {
    seq(|s|, i requires 0 <= i < |s| => Lower(s[i]))
  }

  /** [a-z0-9%] */
  predicate KeyChar(c: char) {
    'a' <= c <= 'z' || '0' <= c <= '9' || c == '%'
  }

  /** [\w\-] */
  predicate SchemeChar(c: char) {
    'a' <= c <= 'z' || 'A' <= c <= 'Z' || '0' <= c <= '9' || c == '_' || c == '-'
  }

  /** What `^` stands for: [\x00-\x24\x26-\x2C\x2F\x3A-\x40\x5B-\x5E\x60\x7B-\x7F]. */
  predicate Separator(c: char) {
    var x := c as int;
    x <= 0x24 || 0x26 <= x <= 0x2c || x == 0x2f || 0x3a <= x <= 0x40 || 0x5b <= x <= 0x5e || x == 0x60 || 0x7b <= x <= 0x7f
  }

  /** What `.` of a regular expression does not match. */
  predicate LineEnd(c: char) {
    var x := c as int;
    x == 0x0a || x == 0x0d || x == 0x2028 || x == 0x2029
  }

  /** Without match-case, letters match in either case. */
  predicate Same(matchCase: bool, c: char, d: char) {
    if matchCase then c == d else Lower(c) == Lower(d)
  }

  // ---------------------------------------------------------------- patterns

  datatype Token = Lit(c: char) | Sep | Star

  /** `Start` is a leading |, `Domain` a leading ||. */
  datatype Anchor = Anywhere | Start | Domain

  datatype Pattern = Pattern(anchor: Anchor, body: seq<Token>, atEnd: bool)

  function TokenOf(c: char): Token {
    if c == '*' then Star else if c == '^' then Sep else Lit(c)
  }

  function Tokens(p: string): seq<Token> {
    seq(|p|, i requires 0 <= i < |p| => TokenOf(p[i]))
  }

  /** Several stars in a row are one. */
  function Collapse(p: string): string {
    if p == "" then ""
    else if |p| >= 2 && p[0] == '*' && p[1] == '*' then Collapse(p[1..])
    else [p[0]] + Collapse(p[1..])
  }

  /** A | behind a ^ at the end is dropped. That widens the pattern: see `DropEndWidens`. */
  function DropEnd(p: string): string {
    if EndsSep(p) then p[..|p| - 1] else p
  }

  /** The pattern ends in ^|. */
  predicate EndsSep(p: string) {
    |p| >= 2 && p[|p| - 2] == '^' && p[|p| - 1] == '|'
  }

  function AnchorOf(p: string): Anchor {
    if |p| >= 2 && p[0] == '|' && p[1] == '|' then Domain else if |p| >= 1 && p[0] == '|' then Start else Anywhere
  }

  function AnchorLen(a: Anchor): nat {
    match a case Anywhere => 0 case Start => 1 case Domain => 2
  }

  /** The anchors and the tokens between them. */
  function Parse(p: string): Pattern {
    var a := AnchorOf(p);
    var rest := p[AnchorLen(a)..];
    var atEnd := rest != "" && rest[|rest| - 1] == '|';
    Pattern(a, Tokens(if atEnd then rest[..|rest| - 1] else rest), atEnd)
  }

  /** A star next to an open end says nothing. */
  function Strip(t: Pattern): Pattern {
    var b := if t.anchor == Anywhere && t.body != [] && t.body[0] == Star then t.body[1..] else t.body;
    t.(body := if !t.atEnd && b != [] && b[|b| - 1] == Star then b[..|b| - 1] else b)
  }

  /** getRegexp */
  function Compile(p: string): Pattern {
    Strip(Parse(DropEnd(Collapse(p))))
  }

  // ---------------------------------------------------------------- what a pattern matches

  /** The tokens match `s` from position `i` on. */
  predicate MatchAt(b: seq<Token>, atEnd: bool, matchCase: bool, s: string, i: nat)
    requires i <= |s|
    decreases |b|, |s| - i
  {
    if b == [] then atEnd ==> i == |s|
    else match b[0]
      case Lit(c) => i < |s| && Same(matchCase, c, s[i]) && MatchAt(b[1..], atEnd, matchCase, s, i + 1)
      case Sep =>
        if i < |s| then Separator(s[i]) && MatchAt(b[1..], atEnd, matchCase, s, i + 1)
        else MatchAt(b[1..], atEnd, matchCase, s, i)
      case Star =>
        || MatchAt(b[1..], atEnd, matchCase, s, i)
        || (i < |s| && !LineEnd(s[i]) && MatchAt(b, atEnd, matchCase, s, i + 1))
  }

  /** [\w\-]+:\/+(?!\/) matches `s` up to `b`. */
  predicate SchemeTo(s: string, a: nat, b: nat) {
    && 0 < a < |s| && s[a] == ':' && (forall k :: 0 <= k < a ==> SchemeChar(s[k]))
    && a + 1 < b <= |s| && (forall k :: a < k < b ==> s[k] == '/')
    && (b < |s| ==> s[b] != '/')
  }

  /** [\w\-]+:\/+(?!\/)(?:[^\/]+\.)? matches `s` up to `i`. */
  predicate DomainTo(s: string, i: nat) {
    exists a: nat, b: nat | a <= |s| && b <= |s| :: SchemeTo(s, a, b) && Subdomain(s, b, i)
  }

  predicate Subdomain(s: string, b: nat, i: nat) {
    b == i || (b + 1 < i <= |s| && s[i - 1] == '.' && forall k :: b <= k < i - 1 ==> s[k] != '/')
  }

  predicate AnchorAt(a: Anchor, s: string, i: nat) {
    match a
    case Anywhere => true
    case Start => i == 0
    case Domain => DomainTo(s, i)
  }

  /** The test of the regular expression. */
  predicate Matches(t: Pattern, matchCase: bool, s: string) {
    exists i: nat | i <= |s| :: AnchorAt(t.anchor, s, i) && MatchAt(t.body, t.atEnd, matchCase, s, i)
  }

  // ---------------------------------------------------------------- the simplifications keep the meaning

  lemma {:induction false} CollapseEnds(p: string)
    requires p != ""
    ensures Collapse(p) != "" && Collapse(p)[0] == p[0] && Collapse(p)[|Collapse(p)| - 1] == p[|p| - 1]
  {
    if |p| >= 2 {
      CollapseEnds(p[1..]);
    }
  }

  lemma CollapseCons(c: char, p: string)
    requires c != '*'
    ensures Collapse([c] + p) == [c] + Collapse(p)
  {
    assert ([c] + p)[1..] == p;
  }

  lemma {:induction false} CollapseSnoc(p: string, c: char)
    requires c != '*'
    ensures Collapse(p + [c]) == Collapse(p) + [c]
  {
    if p == "" {
      assert p + [c] == [c] && [c][1..] == "";
    } else {
      CollapseSnoc(p[1..], c);
      assert (p + [c])[1..] == p[1..] + [c];
    }
  }

  lemma CollapseDropEnd(p: string)
    ensures DropEnd(Collapse(p)) == Collapse(DropEnd(p))
  {
    hide Collapse;
    if p != "" && p[|p| - 1] == '|' {
      var r := p[..|p| - 1];
      assert p == r + ['|'];
      CollapseSnoc(r, '|');
      if r != "" {
        CollapseEnds(r);
        assert EndsSep(Collapse(p)) <==> EndsSep(p);
      } else {
        CollapseEmpty();
      }
    } else if p != "" {
      CollapseEnds(p);
    } else {
      CollapseEmpty();
    }
  }

  lemma CollapseEmpty()
    ensures Collapse("") == ""
  {
  }

  /** The text between the anchors. */
  function Body(p: string): string {
    var rest := p[AnchorLen(AnchorOf(p))..];
    if rest != "" && rest[|rest| - 1] == '|' then rest[..|rest| - 1] else rest
  }

  lemma CollapseAnchor(p: string)
    ensures AnchorOf(Collapse(p)) == AnchorOf(p)
    ensures Collapse(p)[AnchorLen(AnchorOf(p))..] == Collapse(p[AnchorLen(AnchorOf(p))..])
  {
    if p != "" {
      CollapseEnds(p);
      if p[0] == '|' {
        assert p == [p[0]] + p[1..];
        CollapseCons('|', p[1..]);
        if |p| >= 2 {
          CollapseEnds(p[1..]);
          if p[1] == '|' {
            assert p[1..] == [p[1]] + p[2..];
            CollapseCons('|', p[2..]);
          }
        }
      }
    }
  }

  lemma CollapseBody(p: string)
    ensures Parse(Collapse(p)) == Parse(p).(body := Tokens(Collapse(Body(p)))) && Parse(p).body == Tokens(Body(p))
  {
    CollapseAnchor(p);
    var rest := p[AnchorLen(AnchorOf(p))..];
    if rest != "" {
      CollapseEnds(rest);
      var r, c := rest[..|rest| - 1], rest[|rest| - 1];
      assert rest == r + [c];
      if c == '|' {
        CollapseSnoc(r, c);
        assert Collapse(rest)[..|Collapse(rest)| - 1] == Collapse(r);
      }
    }
  }

  lemma TokensCons(p: string)
    requires p != ""
    ensures Tokens(p) != [] && Tokens(p)[0] == TokenOf(p[0]) && Tokens(p)[1..] == Tokens(p[1..])
  {
  }

  /** Two stars match what one matches. */
  lemma {:induction false} TwoStars(b: seq<Token>, atEnd: bool, matchCase: bool, s: string, i: nat)
    requires i <= |s| && |b| >= 2 && b[0] == Star && b[1] == Star
    ensures MatchAt(b, atEnd, matchCase, s, i) <==> MatchAt(b[1..], atEnd, matchCase, s, i)
    decreases |s| - i
  {
    if i < |s| {
      TwoStars(b, atEnd, matchCase, s, i + 1);
    }
  }

  lemma {:induction false} CollapseMatch(p: string, atEnd: bool, matchCase: bool, s: string, i: nat)
    requires i <= |s|
    ensures MatchAt(Tokens(Collapse(p)), atEnd, matchCase, s, i) <==> MatchAt(Tokens(p), atEnd, matchCase, s, i)
    decreases |p|, |s| - i
  {
    if p != "" {
      TokensCons(p);
      if |p| >= 2 && p[0] == '*' && p[1] == '*' {
        TokensCons(p[1..]);
        TwoStars(Tokens(p), atEnd, matchCase, s, i);
        CollapseMatch(p[1..], atEnd, matchCase, s, i);
      } else {
        var c := Collapse(p);
        assert c[1..] == Collapse(p[1..]);
        TokensCons(c);
        CollapseMatch(p[1..], atEnd, matchCase, s, i);
        if i < |s| {
          CollapseMatch(p[1..], atEnd, matchCase, s, i + 1);
          CollapseMatch(p, atEnd, matchCase, s, i + 1);
        }
      }
    }
  }

  /** A star in front can also match nothing, from a later position. */
  lemma {:induction false} LeadingStar(b: seq<Token>, atEnd: bool, matchCase: bool, s: string, i: nat) returns (j: nat)
    requires i <= |s| && b != [] && b[0] == Star && MatchAt(b, atEnd, matchCase, s, i)
    ensures i <= j <= |s| && MatchAt(b[1..], atEnd, matchCase, s, j)
    decreases |s| - i
  {
    if MatchAt(b[1..], atEnd, matchCase, s, i) {
      j := i;
    } else {
      j := LeadingStar(b, atEnd, matchCase, s, i + 1);
    }
  }

  lemma {:induction false} TrailingStar(b: seq<Token>, matchCase: bool, s: string, i: nat)
    requires i <= |s| && b != [] && b[|b| - 1] == Star
    ensures MatchAt(b, false, matchCase, s, i) <==> MatchAt(b[..|b| - 1], false, matchCase, s, i)
    decreases |b|, |s| - i
  {
    var c := b[..|b| - 1];
    if |b| == 1 {
      assert b[1..] == [];
    } else {
      assert c[1..] == b[1..][..|b[1..]| - 1];
      TrailingStar(b[1..], matchCase, s, i);
      if i < |s| {
        TrailingStar(b[1..], matchCase, s, i + 1);
        TrailingStar(b, matchCase, s, i + 1);
      }
    }
  }

  lemma StripFront(t: Pattern, matchCase: bool, s: string)
    requires t.anchor == Anywhere && t.body != [] && t.body[0] == Star
    ensures Matches(t.(body := t.body[1..]), matchCase, s) <==> Matches(t, matchCase, s)
  {
    hide MatchAt;
    if Matches(t, matchCase, s) {
      var i: nat :| i <= |s| && AnchorAt(t.anchor, s, i) && MatchAt(t.body, t.atEnd, matchCase, s, i);
      var j := LeadingStar(t.body, t.atEnd, matchCase, s, i);
    }
    if Matches(t.(body := t.body[1..]), matchCase, s) {
      var i: nat :| i <= |s| && AnchorAt(t.anchor, s, i) && MatchAt(t.body[1..], t.atEnd, matchCase, s, i);
      StarMatchesNothing(t.body, t.atEnd, matchCase, s, i);
    }
  }

  lemma StarMatchesNothing(b: seq<Token>, atEnd: bool, matchCase: bool, s: string, i: nat)
    requires i <= |s| && b != [] && b[0] == Star && MatchAt(b[1..], atEnd, matchCase, s, i)
    ensures MatchAt(b, atEnd, matchCase, s, i)
  {
  }

  lemma StripBack(t: Pattern, matchCase: bool, s: string)
    requires !t.atEnd && t.body != [] && t.body[|t.body| - 1] == Star
    ensures Matches(t.(body := t.body[..|t.body| - 1]), matchCase, s) <==> Matches(t, matchCase, s)
  {
    hide MatchAt;
    forall i: nat | i <= |s|
      ensures MatchAt(t.body, t.atEnd, matchCase, s, i) <==> MatchAt(t.body[..|t.body| - 1], t.atEnd, matchCase, s, i)
    {
      TrailingStar(t.body, matchCase, s, i);
    }
  }

  lemma StripKeeps(t: Pattern, matchCase: bool, s: string)
    ensures Matches(Strip(t), matchCase, s) <==> Matches(t, matchCase, s)
  {
    hide Matches;
    var t1 := if t.anchor == Anywhere && t.body != [] && t.body[0] == Star then t.(body := t.body[1..]) else t;
    if t1 != t {
      StripFront(t, matchCase, s);
    }
    if !t1.atEnd && t1.body != [] && t1.body[|t1.body| - 1] == Star {
      StripBack(t1, matchCase, s);
    }
  }

  /** Collapsing stars, and dropping the outer ones, changes nothing about what a pattern matches. */
  lemma CompileKeeps(p: string, matchCase: bool, s: string)
    ensures Matches(Compile(p), matchCase, s) <==> Matches(Parse(DropEnd(p)), matchCase, s)
  {
    CollapseDropEnd(p);
    var q := DropEnd(p);
    CollapseBody(q);
    StripKeeps(Parse(Collapse(q)), matchCase, s);
    hide MatchAt, Parse, Strip, Collapse;
    forall i: nat | i <= |s|
      ensures MatchAt(Tokens(Collapse(Body(q))), Parse(q).atEnd, matchCase, s, i) <==> MatchAt(Tokens(Body(q)), Parse(q).atEnd, matchCase, s, i)
    {
      CollapseMatch(Body(q), Parse(q).atEnd, matchCase, s, i);
    }
  }

  // ---------------------------------------------------------------- a dropped | at the end

  lemma DropEndParse(p: string)
    requires EndsSep(p)
    ensures Parse(DropEnd(p)) == Parse(p).(atEnd := false) && Parse(p).atEnd
    ensures var b := Parse(p).body; b != [] && b[|b| - 1] == Sep
  {
    var q, n := DropEnd(p), AnchorLen(AnchorOf(p));
    assert AnchorOf(q) == AnchorOf(p) && n <= |p| - 2;
    var rest := p[n..];
    assert q[n..] == rest[..|rest| - 1];
    assert rest[..|rest| - 1][|rest| - 2] == '^';
  }

  lemma {:induction false} OpenEnd(b: seq<Token>, matchCase: bool, s: string, i: nat)
    requires i <= |s| && MatchAt(b, true, matchCase, s, i)
    ensures MatchAt(b, false, matchCase, s, i)
    decreases |b|, |s| - i
  {
    if b != [] {
      if MatchAt(b[1..], true, matchCase, s, i) {
        OpenEnd(b[1..], matchCase, s, i);
      }
      if i < |s| && MatchAt(b[1..], true, matchCase, s, i + 1) {
        OpenEnd(b[1..], matchCase, s, i + 1);
      }
      if i < |s| && MatchAt(b, true, matchCase, s, i + 1) {
        OpenEnd(b, matchCase, s, i + 1);
      }
    }
  }

  /** What the pattern as it is written matches, the expression built from it matches. */
  lemma DropEndWidens(p: string, matchCase: bool, s: string)
    requires Matches(Parse(p), matchCase, s)
    ensures Matches(Compile(p), matchCase, s)
  {
    CompileKeeps(p, matchCase, s);
    if EndsSep(p) {
      DropEndParse(p);
      hide MatchAt, Parse;
      var t := Parse(p);
      var i: nat :| i <= |s| && AnchorAt(t.anchor, s, i) && MatchAt(t.body, t.atEnd, matchCase, s, i);
      OpenEnd(t.body, matchCase, s, i);
    }
  }

  /** No separator but the last character. */
  predicate SepOnlyLast(s: string) {
    forall k :: 0 <= k < |s| - 1 ==> !Separator(s[k])
  }

  /** A match that ends in a separator then ends at the end. */
  lemma {:induction false} SepAtEnd(b: seq<Token>, matchCase: bool, s: string, i: nat)
    requires i <= |s| && SepOnlyLast(s) && b != [] && b[|b| - 1] == Sep && MatchAt(b, false, matchCase, s, i)
    ensures MatchAt(b, true, matchCase, s, i)
    decreases |b|, |s| - i
  {
    if |b| == 1 {
      assert b[1..] == [];
    } else {
      assert b[1..][|b[1..]| - 1] == Sep;
      if MatchAt(b[1..], false, matchCase, s, i) {
        SepAtEnd(b[1..], matchCase, s, i);
      }
      if i < |s| && MatchAt(b[1..], false, matchCase, s, i + 1) {
        SepAtEnd(b[1..], matchCase, s, i + 1);
      }
      if i < |s| && MatchAt(b, false, matchCase, s, i + 1) {
        SepAtEnd(b, matchCase, s, i + 1);
      }
    }
  }

  /** When the two agree: for every pattern that does not end in ^|, and for every address without a
      separator before its end. */
  lemma CompileExact(p: string, matchCase: bool, s: string)
    requires !EndsSep(p) || SepOnlyLast(s)
    ensures Matches(Compile(p), matchCase, s) <==> Matches(Parse(p), matchCase, s)
  {
    hide MatchAt, Parse, Compile, SepOnlyLast, Matches;
    CompileKeeps(p, matchCase, s);
    if EndsSep(p) {
      DropEndParse(p);
      OpenOrClosed(Parse(p), matchCase, s);
    }
  }

  lemma OpenOrClosed(t: Pattern, matchCase: bool, s: string)
    requires SepOnlyLast(s) && t.atEnd && t.body != [] && t.body[|t.body| - 1] == Sep
    ensures Matches(t.(atEnd := false), matchCase, s) <==> Matches(t, matchCase, s)
  {
    hide MatchAt, SepOnlyLast, AnchorAt;
    forall i: nat | i <= |s| ensures MatchAt(t.body, false, matchCase, s, i) <==> MatchAt(t.body, true, matchCase, s, i) {
      if MatchAt(t.body, false, matchCase, s, i) {
        SepAtEnd(t.body, matchCase, s, i);
      }
      if MatchAt(t.body, true, matchCase, s, i) {
        OpenEnd(t.body, matchCase, s, i);
      }
    }
  }

  /** The pattern that stands for: up to `k` this address, and there nothing but a separator. */
  function UpTo(s: string, k: nat): string
    requires k <= |s|
  {
    "|" + s[..k] + "^|"
  }

  lemma UpToParse(s: string, k: nat)
    requires k <= |s| && forall j :: 0 <= j < k ==> !Separator(s[j])
    ensures EndsSep(UpTo(s, k)) && Parse(UpTo(s, k)) == Pattern(Start, Tokens(s[..k]) + [Sep], true)
    ensures |Tokens(s[..k])| == k && forall j :: 0 <= j < k ==> Tokens(s[..k])[j] == Lit(s[j])
  {
    var p := UpTo(s, k);
    assert k > 0 ==> p[1] == s[0];
    assert p[1..] == s[..k] + "^|" && (s[..k] + "^|")[..k + 1] == s[..k] + "^";
    assert Tokens(s[..k] + "^") == Tokens(s[..k]) + [Sep];
  }

  lemma {:induction false} UpToMatch(b: seq<Token>, atEnd: bool, matchCase: bool, s: string, i: nat, k: nat)
    requires i <= k < |s| && Separator(s[k]) && |b| == k - i + 1 && b[k - i] == Sep
    requires forall j :: 0 <= j < k - i ==> b[j] == Lit(s[i + j])
    ensures MatchAt(b, atEnd, matchCase, s, i) <==> (atEnd ==> k + 1 == |s|)
    decreases k - i
  {
    if i == k {
      assert b[1..] == [];
    } else {
      UpToMatch(b[1..], atEnd, matchCase, s, i + 1, k);
    }
  }

  /** The other way round it fails: the | says that nothing follows, the expression has forgotten it.
      So it is for every address with a separator before its end. */
  lemma DropEndFails(s: string, k: nat)
    requires k < |s| - 1 && Separator(s[k]) && forall j :: 0 <= j < k ==> !Separator(s[j])
    ensures Matches(Compile(UpTo(s, k)), true, s) && !Matches(Parse(UpTo(s, k)), true, s)
  {
    hide MatchAt, Parse, Compile, UpTo, Tokens, EndsSep;
    var p := UpTo(s, k);
    UpToParse(s, k);
    CompileKeeps(p, true, s);
    DropEndParse(p);
    UpToMatch(Parse(p).body, true, true, s, 0, k);
    UpToMatch(Parse(p).body, false, true, s, 0, k);
    assert AnchorAt(Start, s, 0);
  }

  /** One of them. */
  lemma DropEndFailsAt()
    ensures Matches(Compile("|a^|"), true, "a/b") && !Matches(Parse("|a^|"), true, "a/b")
  {
    hide Matches, Compile, Parse;
    assert UpTo("a/b", 1) == "|a^|";
    DropEndFails("a/b", 1);
  }

  /** Only for those addresses do all patterns agree with the expressions built from them. */
  lemma CompileExactIff(s: string)
    ensures SepOnlyLast(s) <==>
      forall p, matchCase :: Matches(Compile(p), matchCase, s) <==> Matches(Parse(p), matchCase, s)
  {
    if SepOnlyLast(s) {
      forall p, matchCase ensures Matches(Compile(p), matchCase, s) <==> Matches(Parse(p), matchCase, s) {
        CompileExact(p, matchCase, s);
      }
    } else {
      var k := FirstSep(s, 0);
      DropEndFails(s, k);
    }
  }

  lemma {:induction false} FirstSep(s: string, i: nat) returns (k: nat)
    requires i <= |s| && (forall j :: 0 <= j < i ==> !Separator(s[j])) && !SepOnlyLast(s)
    ensures k < |s| - 1 && Separator(s[k]) && forall j :: 0 <= j < k ==> !Separator(s[j])
    decreases |s| - i
  {
    if i < |s| && Separator(s[i]) {
      k := i;
    } else {
      assert i < |s|;
      k := FirstSep(s, i + 1);
    }
  }

  /** Nothing but stars and ^ before the last |. */
  predicate OnlyWild(p: string) {
    forall k :: 0 <= k < |p| - 1 ==> p[k] == '*' || p[k] == '^'
  }

  lemma WildParse(p: string)
    requires EndsSep(p)
    ensures var t := Parse(p);
      OnlyWild(p) <==> t.anchor == Anywhere && forall k :: 0 <= k < |t.body| ==> !t.body[k].Lit?
  {
    var t, n := Parse(p), AnchorLen(AnchorOf(p));
    var rest := p[n..|p| - 1];
    assert p[n..][..|p[n..]| - 1] == rest;
    assert t.body == Tokens(rest);
    assert t.anchor != Anywhere ==> p[0] == '|';
    if OnlyWild(p) {
      forall k | 0 <= k < |t.body| ensures !t.body[k].Lit? {
        assert rest[k] == p[n + k];
      }
    } else if t.anchor == Anywhere {
      var k :| 0 <= k < |p| - 1 && p[k] != '*' && p[k] != '^';
      assert rest[k] == p[k] && t.body[k].Lit?;
    }
  }

  lemma {:induction false} WildMatch(b: seq<Token>, matchCase: bool, s: string)
    requires forall k :: 0 <= k < |b| ==> !b[k].Lit?
    ensures MatchAt(b, true, matchCase, s, |s|)
    decreases |b|
  {
    if b != [] {
      WildMatch(b[1..], matchCase, s);
    }
  }

  /** The shortest text that the tokens match, with a line end for each ^. */
  function Word(b: seq<Token>): string {
    if b == [] then ""
    else (match b[0] case Lit(c) => [c] case Sep => "\n" case Star => "") + Word(b[1..])
  }

  lemma {:induction false} WordMatch(b: seq<Token>, s: string, i: nat)
    requires i + |Word(b)| <= |s| && s[i..i + |Word(b)|] == Word(b)
    ensures MatchAt(b, false, true, s, i)
    decreases |b|
  {
    if b != [] {
      var n := |Word(b)| - |Word(b[1..])|;
      assert s[i + n..i + |Word(b)|] == Word(b)[n..] == Word(b[1..]);
      assert n > 0 ==> s[i] == s[i..i + |Word(b)|][0];
      WordMatch(b[1..], s, i + n);
    }
  }

  /** From `r` on there is only this character, which no star and no ^ matches. */
  predicate Blocked(s: string, r: nat, y: char) {
    r <= |s| && LineEnd(y) && !Separator(y) && forall k :: r <= k < |s| ==> s[k] == y
  }

  /** More of them than there are tokens cannot be matched. */
  lemma {:induction false} TooLong(b: seq<Token>, s: string, i: nat, r: nat, y: char)
    requires i <= |s| && Blocked(s, r, y) && |s| - (if i < r then r else i) > |b|
    ensures !MatchAt(b, true, true, s, i)
    decreases |b|, |s| - i
  {
    if b != [] && i < |s| {
      TooLong(b[1..], s, i, r, y);
      if i < r || b[0].Lit? {
        TooLong(b[1..], s, i + 1, r, y);
      }
      if i < r {
        TooLong(b, s, i + 1, r, y);
      }
    }
  }

  /** Nor can another literal be matched among them. */
  lemma {:induction false} LitMissing(b: seq<Token>, s: string, i: nat, y: char, k: nat)
    requires i <= |s| && Blocked(s, i, y) && k < |b| && b[k].Lit? && b[k].c != y
    ensures !MatchAt(b, true, true, s, i)
    decreases |b|, |s| - i
  {
    if k > 0 {
      LitMissing(b[1..], s, i, y, k - 1);
      if i < |s| {
        LitMissing(b[1..], s, i + 1, y, k - 1);
        LitMissing(b, s, i + 1, y, k);
      }
    }
  }

  /** An anchored match begins before them. */
  lemma AnchorEarly(a: Anchor, s: string, i: nat, r: nat, y: char)
    requires a != Anywhere && AnchorAt(a, s, i) && Blocked(s, r, y) && i <= |s|
    ensures i <= r
  {
    if a == Domain {
      var u: nat, v: nat :| u <= |s| && v <= |s| && SchemeTo(s, u, v) && Subdomain(s, v, i);
      assert s[v - 1] == '/';
      assert i != v ==> s[i - 1] == '.';
    }
  }

  /** A beginning at which the anchor matches. */
  function Lead(a: Anchor): string {
    if a == Domain then "a:/x." else ""
  }

  lemma LeadAnchors(a: Anchor, rest: string)
    ensures AnchorAt(a, Lead(a) + rest, |Lead(a)|)
  {
    if a == Domain {
      var s := Lead(a) + rest;
      assert s[0] == 'a' && s[1] == ':' && s[2] == '/' && s[3] == 'x' && s[4] == '.';
      assert SchemeTo(s, 1, 3) && Subdomain(s, 3, 5);
    }
  }

  /** A character that blocks, and is not the literal `c`. */
  function Blocker(c: char): char {
    if c == 0x2028 as char then 0x2029 as char else 0x2028 as char
  }

  function Repeat(y: char, n: nat): string {
    seq(n, i => y)
  }

  /** For every pattern that ends in ^| and says more than that, an address that is matched though what is
      written does not match it. */
  lemma PatternFails(p: string) returns (s: string)
    requires EndsSep(p) && !OnlyWild(p)
    ensures Matches(Compile(p), true, s) && !Matches(Parse(p), true, s)
  {
    hide MatchAt, Parse, AnchorAt, Word;
    DropEndParse(p);
    WildParse(p);
    var t := Parse(p);
    var k: nat := 0;
    if t.anchor == Anywhere {
      k :| 0 <= k < |t.body| && t.body[k].Lit?;
    }
    var y := Blocker(if t.anchor == Anywhere then t.body[k].c else 'a');
    var lead := Lead(t.anchor) + Word(t.body);
    s := lead + Repeat(y, |t.body| + 1);
    BlockedTail(lead, y, |t.body| + 1);
    assert s == Lead(t.anchor) + (Word(t.body) + Repeat(y, |t.body| + 1));
    LeadAnchors(t.anchor, Word(t.body) + Repeat(y, |t.body| + 1));
    assert s[|Lead(t.anchor)|..|Lead(t.anchor)| + |Word(t.body)|] == Word(t.body);
    WordMatch(t.body, s, |Lead(t.anchor)|);
    CompileKeeps(p, true, s);
    forall i: nat | i <= |s| && AnchorAt(t.anchor, s, i) ensures !MatchAt(t.body, true, true, s, i) {
      if t.anchor != Anywhere {
        AnchorEarly(t.anchor, s, i, |lead|, y);
      }
      if i <= |lead| {
        TooLong(t.body, s, i, |lead|, y);
      } else {
        LitMissing(t.body, s, i, y, k);
      }
    }
  }

  lemma BlockedTail(lead: string, y: char, n: nat)
    requires LineEnd(y) && !Separator(y)
    ensures forall i :: |lead| <= i <= |lead| + n ==> Blocked(lead + Repeat(y, n), i, y)
  {
  }

  /** For which patterns all addresses agree: those that do not end in ^|, and those that say nothing else. */
  lemma PatternExactIff(p: string)
    ensures (!EndsSep(p) || OnlyWild(p)) <==>
      forall s, matchCase :: Matches(Compile(p), matchCase, s) <==> Matches(Parse(p), matchCase, s)
  {
    hide MatchAt, Parse, Compile, Matches, OnlyWild;
    if !EndsSep(p) || OnlyWild(p) {
      forall s, matchCase ensures Matches(Compile(p), matchCase, s) <==> Matches(Parse(p), matchCase, s) {
        if EndsSep(p) {
          WildAlways(p, matchCase, s);
          DropEndWidens(p, matchCase, s);
        } else {
          CompileExact(p, matchCase, s);
        }
      }
    } else {
      var s := PatternFails(p);
    }
  }

  lemma WildAlways(p: string, matchCase: bool, s: string)
    requires EndsSep(p) && OnlyWild(p)
    ensures Matches(Parse(p), matchCase, s)
  {
    hide Parse, MatchAt;
    WildParse(p);
    DropEndParse(p);
    WildMatch(Parse(p).body, matchCase, s);
    assert AnchorAt(Anywhere, s, |s|);
  }

  // ---------------------------------------------------------------- keywords

  /** The end of the stretch of keyword characters that starts at `i`. */
  function RunEnd(t: string, i: nat): (e: nat)
    requires i <= |t|
    ensures i <= e <= |t| && (forall k :: i <= k < e ==> KeyChar(t[k])) && (e < |t| ==> !KeyChar(t[e]))
    decreases |t| - i
  {
    if i < |t| && KeyChar(t[i]) then RunEnd(t, i + 1) else i
  }

  /** A longest stretch of keyword characters, of three at least. */
  predicate Run(t: string, a: nat, b: nat) {
    && a + 3 <= b <= |t| && (forall k :: a <= k < b ==> KeyChar(t[k]))
    && (a == 0 || !KeyChar(t[a - 1])) && (b == |t| || !KeyChar(t[b]))
  }

  /** With a character on either side that is no star. */
  predicate Enclosed(t: string, a: nat, b: nat) {
    0 < a <= |t| && b < |t| && t[a - 1] != '*' && t[b] != '*'
  }

  /** The runs from position `i` on: all of them, or the enclosed ones. */
  function Found(t: string, i: nat, enclosed: bool): seq<string>
    requires i <= |t|
    decreases |t| - i
  {
    if i == |t| then []
    else if !KeyChar(t[i]) then Found(t, i + 1, enclosed)
    else
      var e := RunEnd(t, i);
      (if i + 3 <= e && (enclosed ==> Enclosed(t, i, e)) then [t[i..e]] else []) + Found(t, e, enclosed)
  }

  /** What matchesAny looks up: /[a-z0-9%]{3,}/g on the address, in lower case. */
  function AddressWords(s: string): seq<string> {
    Found(LowerAll(s), 0, false)
  }

  /** What findKeyword chooses from: /[^a-z0-9%*][a-z0-9%]{3,}(?=[^a-z0-9%*])/g on the pattern. */
  function Candidates(p: string): seq<string> {
    Found(LowerAll(p), 0, true)
  }

  ghost predicate Wanted(t: string, a: nat, b: nat, enclosed: bool, w: string) {
    Run(t, a, b) && (enclosed ==> Enclosed(t, a, b)) && w == t[a..b]
  }

  /** From the start of a run, exactly that run comes first. */
  lemma RunUnique(t: string, i: nat, a: nat, b: nat)
    requires i < |t| && KeyChar(t[i]) && (i == 0 || !KeyChar(t[i - 1])) && Run(t, a, b) && i <= a
    ensures (a == i && b == RunEnd(t, i)) || RunEnd(t, i) <= a
  {
    var e := RunEnd(t, i);
    var beforeRun, afterRun, afterEnd := t[if a == 0 then 0 else a - 1..], t[b..], t[e..];
    assert (a > 0 ==> beforeRun[0] == t[a - 1]) && (b < |t| ==> afterRun[0] == t[b]) && (e < |t| ==> afterEnd[0] == t[e]);
  }

  lemma {:induction false} FoundSound(t: string, i: nat, enclosed: bool, w: string)
    requires i <= |t| && w in Found(t, i, enclosed) && (i == 0 || i == |t| || !KeyChar(t[i - 1]) || !KeyChar(t[i]))
    ensures exists a: nat, b: nat :: i <= a && Wanted(t, a, b, enclosed, w)
    decreases |t| - i
  {
    if !KeyChar(t[i]) {
      FoundSound(t, i + 1, enclosed, w);
    } else {
      var e := RunEnd(t, i);
      if w in Found(t, e, enclosed) {
        FoundSound(t, e, enclosed, w);
      } else {
        assert Wanted(t, i, e, enclosed, w);
      }
    }
  }

  lemma {:induction false} FoundComplete(t: string, i: nat, enclosed: bool, a: nat, b: nat, w: string)
    requires i <= a && Wanted(t, a, b, enclosed, w) && (i == 0 || !KeyChar(t[i - 1]) || !KeyChar(t[i]))
    ensures w in Found(t, i, enclosed)
    decreases |t| - i
  {
    if !KeyChar(t[i]) {
      FoundComplete(t, i + 1, enclosed, a, b, w);
    } else {
      RunUnique(t, i, a, b);
      if a > i {
        FoundComplete(t, RunEnd(t, i), enclosed, a, b, w);
      }
    }
  }

  // ---------------------------------------------------------------- where a keyword is matched

  /** What the token before a position says of the character before it. */
  predicate BeforeOk(k: Token, matchCase: bool, s: string, x: nat)
    requires x <= |s|
  {
    match k
    case Lit(c) => 0 < x && Same(matchCase, c, s[x - 1])
    case Sep => x == |s| || (0 < x && Separator(s[x - 1]))
    case Star => true
  }

  /** The position where the tokens from the n-th on are matched. */
  lemma {:induction false} SplitMatch(b: seq<Token>, n: nat, atEnd: bool, matchCase: bool, s: string, i: nat) returns (x: nat)
    requires n <= |b| && i <= |s| && MatchAt(b, atEnd, matchCase, s, i)
    ensures i <= x <= |s| && MatchAt(b[n..], atEnd, matchCase, s, x)
    ensures if n == 0 then x == i else BeforeOk(b[n - 1], matchCase, s, x)
    decreases |b|, |s| - i
  {
    if n == 0 {
      x := i;
    } else {
      assert b[1..][n - 1..] == b[n..];
      if b[0].Star? {
        if MatchAt(b[1..], atEnd, matchCase, s, i) {
          x := SplitMatch(b[1..], n - 1, atEnd, matchCase, s, i);
        } else {
          x := SplitMatch(b, n, atEnd, matchCase, s, i + 1);
        }
      } else {
        x := SplitMatch(b[1..], n - 1, atEnd, matchCase, s, if i < |s| then i + 1 else i);
      }
    }
  }

  /** The literal text `q` stands in `s` at `x`. */
  ghost predicate TextAt(matchCase: bool, q: string, s: string, x: nat) {
    x + |q| <= |s| && forall k :: 0 <= k < |q| ==> Same(matchCase, q[k], s[x + k])
  }

  ghost predicate Literals(b: seq<Token>, q: string) {
    |q| <= |b| && forall k :: 0 <= k < |q| ==> b[k] == Lit(q[k])
  }

  lemma {:induction false} LitsMatch(b: seq<Token>, q: string, atEnd: bool, matchCase: bool, s: string, x: nat)
    requires Literals(b, q) && x <= |s| && MatchAt(b, atEnd, matchCase, s, x)
    ensures TextAt(matchCase, q, s, x) && MatchAt(b[|q|..], atEnd, matchCase, s, x + |q|)
    decreases |q|
  {
    if q != "" {
      assert b[0] == Lit(q[0]);
      assert Literals(b[1..], q[1..]);
      LitsMatch(b[1..], q[1..], atEnd, matchCase, s, x + 1);
      assert b[1..][|q| - 1..] == b[|q|..];
      forall k | 0 <= k < |q| ensures Same(matchCase, q[k], s[x + k]) {
        if k > 0 {
          assert q[1..][k - 1] == q[k];
        }
      }
    }
  }

  /** What comes before the matched keyword is no keyword character. */
  lemma LeftEdge(k: Token, matchCase: bool, s: string, x: nat)
    requires x < |s| && BeforeOk(k, matchCase, s, x) && Edge(k)
    ensures 0 < x && !KeyChar(Lower(s[x - 1]))
  {
  }

  lemma RightEdge(b: seq<Token>, atEnd: bool, matchCase: bool, s: string, y: nat)
    requires y <= |s| && MatchAt(b, atEnd, matchCase, s, y)
    requires if b == [] then atEnd else Edge(b[0])
    ensures y == |s| || !KeyChar(Lower(s[y]))
  {
  }

  lemma AnchorEdge(a: Anchor, s: string, i: nat)
    requires i <= |s| && a != Anywhere && AnchorAt(a, s, i)
    ensures i == 0 || !KeyChar(Lower(s[i - 1]))
  {
    if a == Domain {
      var c: nat, b: nat :| c <= |s| && b <= |s| && SchemeTo(s, c, b) && Subdomain(s, b, i);
      if b == i {
        assert s[b - 1] == '/';
      }
    }
  }

  /** The token is matched by no keyword character, and is no star. */
  predicate Edge(k: Token) {
    k.Sep? || (k.Lit? && !KeyChar(Lower(k.c)))
  }

  lemma RunChars(p: string, a: nat, b: nat)
    requires Run(LowerAll(p), a, b) && Enclosed(LowerAll(p), a, b)
    ensures forall k :: a <= k < b ==> KeyChar(Lower(p[k]))
    ensures Edge(TokenOf(p[a - 1])) && Edge(TokenOf(p[b])) && p[a - 1] != '*' && p[b] != '*'
    ensures 0 < a && a + 3 <= b < |DropEnd(p)|
  {
    forall k | a <= k < b ensures KeyChar(Lower(p[k])) {
      assert KeyChar(LowerAll(p)[k]);
    }
    assert Lower(p[a - 1]) == LowerAll(p)[a - 1] && Lower(p[b]) == LowerAll(p)[b];
    assert KeyChar(Lower(p[b - 1]));
  }

  lemma ParsedAt(q: string, k: nat)
    requires var t := Parse(q); AnchorLen(t.anchor) <= k < |q|
    ensures var t := Parse(q); var off := AnchorLen(t.anchor);
      if k - off < |t.body| then t.body[k - off] == TokenOf(q[k]) else k == |q| - 1 && k - off == |t.body| && t.atEnd
  {
  }

  /** Where the keyword at [a, b) of the pattern is, among the tokens of the parsed pattern. */
  lemma KeywordTokens(p: string, a: nat, b: nat) returns (n: nat)
    requires Run(LowerAll(p), a, b) && Enclosed(LowerAll(p), a, b)
    ensures var t := Parse(DropEnd(p));
      && n <= |t.body| && Literals(t.body[n..], p[a..b])
      && (if n == 0 then t.anchor != Anywhere else Edge(t.body[n - 1]))
      && (if n + (b - a) == |t.body| then t.atEnd else Edge(t.body[n + (b - a)]))
  {
    hide Parse, DropEnd, Run, Enclosed, LowerAll, KeyChar, Lower, TokenOf;
    RunChars(p, a, b);
    DropEndPrefix(p);
    var q := DropEnd(p);
    AnchorBefore(q, a);
    var off := AnchorLen(Parse(q).anchor);
    n := a - off;
    TokensAt(q, p, off, a, b);
    if n > 0 {
      ParsedAt(q, a - 1);
    }
    ParsedAt(q, b);
    assert q[a - 1] == p[a - 1] && q[b] == p[b];
  }

  lemma TokensAt(q: string, p: string, off: nat, a: nat, b: nat)
    requires off == AnchorLen(Parse(q).anchor) <= a <= b < |q| <= |p| && (forall k :: 0 <= k < |q| ==> q[k] == p[k])
    requires forall k :: a <= k < b ==> KeyChar(Lower(p[k]))
    ensures a - off <= |Parse(q).body| && Literals(Parse(q).body[a - off..], p[a..b])
  {
    hide Parse, AnchorLen;
    var body := Parse(q).body;
    ParsedAt(q, a);
    ParsedAt(q, b);
    forall k | 0 <= k < b - a ensures a - off + k < |body| && body[a - off..][k] == Lit(p[a..b][k]) {
      ParsedAt(q, a + k);
      assert KeyChar(Lower(p[a + k]));
    }
  }

  lemma DropEndPrefix(p: string)
    ensures |DropEnd(p)| <= |p| && forall k :: 0 <= k < |DropEnd(p)| ==> DropEnd(p)[k] == p[k]
  {
  }

  lemma AnchorBefore(q: string, a: nat)
    requires a < |q| && KeyChar(Lower(q[a]))
    ensures AnchorLen(Parse(q).anchor) <= a
  {
  }

  /** Whatever a pattern matches contains each of its keywords as a whole word. */
  lemma KeywordMatched(p: string, matchCase: bool, s: string, w: string)
    requires w in Candidates(p) && Matches(Compile(p), matchCase, s)
    ensures w in AddressWords(s)
  {
    hide MatchAt, Compile, Found, Parse, DropEnd, Same, AnchorAt, Literals, Edge, BeforeOk, TextAt;
    CompileKeeps(p, matchCase, s);
    FoundSound(LowerAll(p), 0, true, w);
    var a: nat, b: nat :| Wanted(LowerAll(p), a, b, true, w);
    RunChars(p, a, b);
    var t := Parse(DropEnd(p));
    var n := KeywordTokens(p, a, b);
    var i: nat :| i <= |s| && AnchorAt(t.anchor, s, i) && MatchAt(t.body, t.atEnd, matchCase, s, i);
    var x := SplitMatch(t.body, n, t.atEnd, matchCase, s, i);
    KeywordAt(t, n, p[a..b], matchCase, s, i, x);
    assert LowerAll(p[a..b]) == w;
  }

  lemma KeywordAt(t: Pattern, n: nat, q: string, matchCase: bool, s: string, i: nat, x: nat)
    requires n <= |t.body| && Literals(t.body[n..], q) && |q| >= 3 && forall k :: 0 <= k < |q| ==> KeyChar(Lower(q[k]))
    requires if n == 0 then t.anchor != Anywhere else Edge(t.body[n - 1])
    requires if n + |q| == |t.body| then t.atEnd else Edge(t.body[n + |q|])
    requires i <= |s| && AnchorAt(t.anchor, s, i) && x <= |s| && MatchAt(t.body[n..], t.atEnd, matchCase, s, x)
    requires if n == 0 then x == i else BeforeOk(t.body[n - 1], matchCase, s, x)
    ensures LowerAll(q) in AddressWords(s)
  {
    LitsMatch(t.body[n..], q, t.atEnd, matchCase, s, x);
    assert t.body[n..][|q|..] == t.body[n + |q|..];
    hide MatchAt, AnchorAt;
    RightEdge(t.body[n + |q|..], t.atEnd, matchCase, s, x + |q|);
    if n == 0 {
      AnchorEdge(t.anchor, s, i);
    } else {
      LeftEdge(t.body[n - 1], matchCase, s, x);
    }
    WordAt(q, matchCase, s, x);
  }

  lemma WordAt(q: string, matchCase: bool, s: string, x: nat)
    requires TextAt(matchCase, q, s, x) && |q| >= 3 && forall k :: 0 <= k < |q| ==> KeyChar(Lower(q[k]))
    requires x == 0 || !KeyChar(Lower(s[x - 1]))
    requires x + |q| == |s| || !KeyChar(Lower(s[x + |q|]))
    ensures LowerAll(q) in AddressWords(s)
  {
    var u, y := LowerAll(s), x + |q|;
    assert u[x..y] == LowerAll(q) by {
      forall k | 0 <= k < |q| ensures u[x..y][k] == LowerAll(q)[k] {
        assert Same(matchCase, q[k], s[x + k]);
      }
    }
    forall k | x <= k < y ensures KeyChar(u[k]) {
      assert u[x..y][k - x] == LowerAll(q)[k - x] == Lower(q[k - x]);
    }
    FoundComplete(u, 0, false, x, y, LowerAll(q));
  }
}
