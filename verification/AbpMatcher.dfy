/** The filter matcher and its result cache. */
module AbpMatcher {
  // Filters are filed under one of their keywords; verdicts are kept until the filters change.

  import opened AbpPattern
  import M = AbpMeaning
  import opened Options
  import opened Sequences

  /** A blocking or whitelist filter. `raw` filters are regular expressions of their own, `slow`
      is the test of findKeyword for such a text. */
  datatype Filter = Filter(text: string, white: bool, pattern: string, matchCase: bool, raw: bool, slow: bool)

  /** What lies outside: how texts become filters (one filter for each text), what raw regular
      expressions match, and on which domains filters are active. */
  datatype World = World(parse: string -> Filter, rawTest: (string, string) -> bool, active: (string, string) -> bool)

  ghost predicate ParsesTo(w: World, text: string) {
    w.parse(text).text == text && (w.parse(text).raw ==> w.parse(text).slow)
  }

  ghost predicate Sound(w: World) {
    forall text :: ParsesTo(w, text)
  }

  /** RegExpFilter.matches */
  predicate FilterMatches(w: World, f: Filter, address: string, domain: string) {
    && (if f.raw then w.rawTest(f.text, address) else Matches(Compile(f.pattern), f.matchCase, address))
    && w.active(f.text, domain)
  }

  /** Which queries a filter matches: those whose address its text matches, character by character, on
      the domains it is active on. */
  lemma FilterExact(w: World, f: Filter, front: string, q: string, back: string, address: string, domain: string)
    requires f.pattern == front + q + back && M.Written(front, q, back)
    ensures f.raw ==> (FilterMatches(w, f, address, domain) <==> w.rawTest(f.text, address) && w.active(f.text, domain))
    ensures !f.raw ==> (FilterMatches(w, f, address, domain) <==>
      && w.active(f.text, domain)
      && exists c :: M.Cuts(q, M.AtEnd(q, back), f.matchCase, address, c) && M.Begins(front, address, c[0]))
  {
    M.MatchesExact(front, q, back, f.matchCase, address);
    hide M.Cuts, Matches, Compile;
  }

  /** A keyword a filter may be filed under. */
  ghost predicate KeywordOf(f: Filter, keyword: string) {
    keyword == "" || (!f.slow && keyword in Candidates(f.pattern))
  }

  /** Looking under the words of the address and under the empty keyword finds every filter that
      matches. */
  lemma FiledWhereLookedUp(w: World, f: Filter, keyword: string, address: string, domain: string)
    requires KeywordOf(f, keyword) && (f.raw ==> f.slow) && FilterMatches(w, f, address, domain)
    ensures keyword in AddressWords(address) + [""]
  {
    hide Candidates, AddressWords, Matches, Compile;
    if keyword != "" {
      KeywordMatched(f.pattern, f.matchCase, address, keyword);
    }
  }

  // ---------------------------------------------------------------- entries

  /** One filter, or a list of two and more. */
  datatype Entry = Single(f: Filter) | Many(list: seq<Filter>)

  function List(e: Entry): seq<Filter> {
    match e case Single(f) => [f] case Many(list) => list
  }

  ghost predicate EntryOk(w: World, byFilter: map<string, string>, keyword: string, e: Entry) {
    && (e.Many? ==> |e.list| >= 2) && Once(List(e))
    && forall f :: f in List(e) ==> f == w.parse(f.text) && f.text in byFilter && byFilter[f.text] == keyword
  }

  ghost predicate FiledOk(w: World, byKeyword: map<string, Entry>, text: string, keyword: string) {
    keyword in byKeyword && w.parse(text) in List(byKeyword[keyword]) && KeywordOf(w.parse(text), keyword)
  }

  /** The two dictionaries agree. */
  ghost predicate Filed(w: World, byKeyword: map<string, Entry>, byFilter: map<string, string>) {
    && (forall k :: k in byKeyword ==> EntryOk(w, byFilter, k, byKeyword[k]))
    && (forall t :: t in byFilter ==> FiledOk(w, byKeyword, t, byFilter[t]))
  }

  /** Adding a filter to the entry of its keyword. */
  function Added(byKeyword: map<string, Entry>, keyword: string, f: Filter): Entry {
    if keyword in byKeyword then Many(List(byKeyword[keyword]) + [f]) else Single(f)
  }

  /** The filter is filed under a keyword of its own. */
  ghost predicate AddedTo(byKeyword: map<string, Entry>, byKeyword': map<string, Entry>, f: Filter) {
    exists k :: KeywordOf(f, k) && byKeyword' == byKeyword[k := Added(byKeyword, k, f)]
  }

  lemma AddEntry(w: World, byFilter: map<string, string>, keyword: string, f: Filter, k: string, e: Entry)
    requires EntryOk(w, byFilter, k, e) && f == w.parse(f.text) && f.text !in byFilter
    ensures EntryOk(w, byFilter[f.text := keyword], k, e)
    ensures k == keyword ==> EntryOk(w, byFilter[f.text := keyword], k, Many(List(e) + [f]))
  {
    assert f !in List(e);
  }

  lemma AddFiled(w: World, byKeyword: map<string, Entry>, byFilter: map<string, string>, keyword: string, f: Filter)
    requires Filed(w, byKeyword, byFilter) && Sound(w) && f == w.parse(f.text) && f.text !in byFilter && KeywordOf(f, keyword)
    ensures Filed(w, byKeyword[keyword := Added(byKeyword, keyword, f)], byFilter[f.text := keyword])
  {
    hide KeywordOf, EntryOk;
    var byKeyword', byFilter' := byKeyword[keyword := Added(byKeyword, keyword, f)], byFilter[f.text := keyword];
    forall k | k in byKeyword' ensures EntryOk(w, byFilter', k, byKeyword'[k]) {
      if k in byKeyword {
        AddEntry(w, byFilter, keyword, f, k, byKeyword[k]);
      } else {
        NewEntry(w, byFilter, keyword, f);
      }
    }
    forall t | t in byFilter' ensures FiledOk(w, byKeyword', t, byFilter'[t]) {
      if t in byFilter && t != f.text {
        assert FiledOk(w, byKeyword, t, byFilter[t]);
      }
    }
  }

  lemma NewEntry(w: World, byFilter: map<string, string>, keyword: string, f: Filter)
    requires f == w.parse(f.text)
    ensures EntryOk(w, byFilter[f.text := keyword], keyword, Single(f))
  {
  }

  function Removed(list: seq<Filter>, i: nat): Entry
    requires i < |list| && |list| >= 2
  {
    if |list| == 2 then Single(Cut(list, i)[0]) else Many(Cut(list, i))
  }

  /** The entries after the removal of the i-th filter of entry `k`. */
  function Rest(byKeyword: map<string, Entry>, k: string, i: nat): map<string, Entry>
    requires k in byKeyword && i < |List(byKeyword[k])|
  {
    if |List(byKeyword[k])| <= 1 then byKeyword - {k} else byKeyword[k := Removed(List(byKeyword[k]), i)]
  }

  lemma RemoveEntry(w: World, byFilter: map<string, string>, f: Filter, k: string, e: Entry)
    requires EntryOk(w, byFilter, k, e) && f == w.parse(f.text) && f.text in byFilter && k != byFilter[f.text]
    ensures EntryOk(w, byFilter - {f.text}, k, e)
  {
  }

  lemma ShrinkEntry(w: World, byFilter: map<string, string>, f: Filter, k: string, e: Entry, i: nat)
    requires EntryOk(w, byFilter, k, e) && f == w.parse(f.text) && |List(e)| >= 2 && i < |List(e)| && List(e)[i] == f
    ensures EntryOk(w, byFilter - {f.text}, k, Removed(List(e), i))
    ensures forall g :: g in List(Removed(List(e), i)) <==> g in List(e) && g != f
  {
    var list := List(e);
    CutMembers(list, i);
    assert List(Removed(list, i)) == Cut(list, i);
    hide Once, Cut;
  }

  lemma RemoveFiled(w: World, byKeyword: map<string, Entry>, byFilter: map<string, string>, f: Filter, i: nat)
    requires Filed(w, byKeyword, byFilter) && f == w.parse(f.text) && f.text in byFilter && Sound(w)
    requires var k := byFilter[f.text]; k in byKeyword && i < |List(byKeyword[k])| && List(byKeyword[k])[i] == f
    ensures Filed(w, Rest(byKeyword, byFilter[f.text], i), byFilter - {f.text})
  {
    hide KeywordOf, EntryOk, Cut, Removed;
    var k := byFilter[f.text];
    var list := List(byKeyword[k]);
    var byKeyword', byFilter' := Rest(byKeyword, k, i), byFilter - {f.text};
    if |list| >= 2 {
      ShrinkEntry(w, byFilter, f, k, byKeyword[k], i);
    }
    forall l | l in byKeyword' ensures EntryOk(w, byFilter', l, byKeyword'[l]) {
      if l != k {
        RemoveEntry(w, byFilter, f, l, byKeyword[l]);
      }
    }
    forall t | t in byFilter' ensures FiledOk(w, byKeyword', t, byFilter'[t]) {
      assert FiledOk(w, byKeyword, t, byFilter[t]) && ParsesTo(w, t);
    }
  }

  lemma FiledEntry(w: World, byKeyword: map<string, Entry>, byFilter: map<string, string>, f: Filter)
    requires Filed(w, byKeyword, byFilter) && f == w.parse(f.text) && f.text in byFilter
    ensures var k := byFilter[f.text];
      k in byKeyword && f in List(byKeyword[k]) && (byKeyword[k].Many? ==> |byKeyword[k].list| >= 2)
  {
    hide KeywordOf;
    assert FiledOk(w, byKeyword, f.text, byFilter[f.text]);
    assert EntryOk(w, byFilter, byFilter[f.text], byKeyword[byFilter[f.text]]);
  }

  // ---------------------------------------------------------------- what a lookup finds

  /** Some filter with a text of `texts` matches. */
  ghost predicate SomeMatches(w: World, texts: set<string>, address: string, domain: string) {
    exists t :: t in texts && FilterMatches(w, w.parse(t), address, domain)
  }

  /** `r` is a filter of `texts` that matches, and none only if there is none. */
  ghost predicate Answers(w: World, texts: set<string>, r: Option<Filter>, address: string, domain: string) {
    match r
    case None => !SomeMatches(w, texts, address, domain)
    case Some(f) => f.text in texts && f == w.parse(f.text) && FilterMatches(w, f, address, domain)
  }

  ghost predicate NoneUnder(w: World, byKeyword: map<string, Entry>, keyword: string, address: string, domain: string) {
    keyword in byKeyword ==> forall f :: f in List(byKeyword[keyword]) ==> !FilterMatches(w, f, address, domain)
  }

  lemma HitFiled(w: World, byKeyword: map<string, Entry>, byFilter: map<string, string>, keyword: string, f: Filter)
    requires Filed(w, byKeyword, byFilter) && keyword in byKeyword && f in List(byKeyword[keyword])
    ensures f.text in byFilter && f == w.parse(f.text)
  {
    hide KeywordOf;
    assert EntryOk(w, byFilter, keyword, byKeyword[keyword]);
  }

  /** If nothing matches under the words of the address and the empty keyword, nothing matches. */
  lemma NoHit(w: World, byKeyword: map<string, Entry>, byFilter: map<string, string>, address: string, domain: string)
    requires Filed(w, byKeyword, byFilter) && Sound(w)
    requires var c := AddressWords(address) + [""]; forall j :: 0 <= j < |c| ==> NoneUnder(w, byKeyword, c[j], address, domain)
    ensures !SomeMatches(w, byFilter.Keys, address, domain)
  {
    hide FilterMatches, AddressWords, KeywordOf, EntryOk;
    forall t | t in byFilter ensures !FilterMatches(w, w.parse(t), address, domain) {
      assert FiledOk(w, byKeyword, t, byFilter[t]) && ParsesTo(w, t);
      if FilterMatches(w, w.parse(t), address, domain) {
        FiledWhereLookedUp(w, w.parse(t), byFilter[t], address, domain);
      }
    }
  }

  // ---------------------------------------------------------------- the text that stops a search

  /** What a filter object has at index 0, to say that it is its own list. A filter object compares
      with a text by its own text, so the filter of this text is taken for that mark. */
  const THIS := "#this"

  /** A search gives an answer, or it calls `matches` of an array, which has none, and throws. */
  datatype Outcome = Answer(r: Option<Filter>) | Threw

  /** In a list of two and more filters the search throws at the filter of that text, if no filter before
      it matches. */
  ghost predicate ThrowsAt(w: World, e: Entry, i: int, address: string, domain: string) {
    && e.Many? && 0 <= i < |e.list| && e.list[i].text == THIS
    && forall j :: 0 <= j < i ==> !FilterMatches(w, e.list[j], address, domain)
  }

  ghost predicate ThrowsUnder(w: World, byKeyword: map<string, Entry>, keyword: string, address: string, domain: string) {
    keyword in byKeyword && exists i :: ThrowsAt(w, byKeyword[keyword], i, address, domain)
  }

  ghost predicate NoneBefore(w: World, byKeyword: map<string, Entry>, c: seq<string>, k: int, address: string, domain: string) {
    forall j :: 0 <= j < k <= |c| ==> NoneUnder(w, byKeyword, c[j], address, domain)
  }

  /** The search under the keywords of `c`, one after the other, throws under one of them, with no hit
      under those before it. */
  ghost predicate ThrowsAmong(w: World, byKeyword: map<string, Entry>, c: seq<string>, address: string, domain: string) {
    exists k :: 0 <= k < |c| && ThrowsUnder(w, byKeyword, c[k], address, domain) && NoneBefore(w, byKeyword, c, k, address, domain)
  }

  /** The same of the search through both matchers: it stops at a whitelist hit, and looks for no second
      blocking filter. */
  ghost predicate EitherThrows(w: World, white: map<string, Entry>, black: map<string, Entry>, c: seq<string>, address: string, domain: string) {
    exists k :: 0 <= k < |c| && EitherThrowsAt(w, white, black, c, k, address, domain)
  }

  ghost predicate EitherThrowsAt(w: World, white: map<string, Entry>, black: map<string, Entry>, c: seq<string>, k: nat,
                                 address: string, domain: string)
    requires k < |c|
  {
    && NoneBefore(w, white, c, k, address, domain)
    && (ThrowsUnder(w, white, c[k], address, domain)
      || (NoneUnder(w, white, c[k], address, domain) && NoneBefore(w, black, c, k, address, domain)
        && ThrowsUnder(w, black, c[k], address, domain)))
  }

  /** A search that throws under a keyword meets the filter of that text there. */
  lemma ThrowsFiled(w: World, byKeyword: map<string, Entry>, byFilter: map<string, string>, keyword: string, i: int, address: string, domain: string)
    requires Filed(w, byKeyword, byFilter) && keyword in byKeyword && ThrowsAt(w, byKeyword[keyword], i, address, domain)
    ensures THIS in byFilter && byFilter[THIS] == keyword && byKeyword[keyword].list[i] == w.parse(THIS)
  {
    hide KeywordOf, FilterMatches;
    assert EntryOk(w, byFilter, keyword, byKeyword[keyword]);
    assert byKeyword[keyword].list[i] in List(byKeyword[keyword]);
  }

  /** Without it, no search throws. */
  lemma NoThis(w: World, byKeyword: map<string, Entry>, byFilter: map<string, string>, c: seq<string>, address: string, domain: string)
    requires Filed(w, byKeyword, byFilter) && THIS !in byFilter
    ensures forall keyword :: !ThrowsUnder(w, byKeyword, keyword, address, domain)
    ensures !ThrowsAmong(w, byKeyword, c, address, domain)
  {
    hide Filed, NoneBefore, ThrowsAt;
    forall keyword ensures !ThrowsUnder(w, byKeyword, keyword, address, domain) {
      if ThrowsUnder(w, byKeyword, keyword, address, domain) {
        var i :| ThrowsAt(w, byKeyword[keyword], i, address, domain);
        ThrowsFiled(w, byKeyword, byFilter, keyword, i, address, domain);
      }
    }
  }

  /** The text has no keyword of its own. */
  lemma ThisKeyword(keyword: string, f: Filter)
    requires KeywordOf(f, keyword) && f.pattern == THIS
    ensures keyword == ""
  {
    var t := LowerAll(THIS);
    assert |t| == 5 && KeyChar(t[1]) && KeyChar(t[2]) && KeyChar(t[3]) && KeyChar(t[4]);
    if keyword in Candidates(THIS) {
      FoundSound(t, 0, true, keyword);
    }
  }

  lemma WordsLong(address: string)
    ensures "" !in AddressWords(address)
    ensures var words := AddressWords(address); forall j :: 0 <= j < |words| ==> (words + [""])[j] != ""
  {
    if "" in AddressWords(address) {
      FoundSound(LowerAll(address), 0, false, "");
    }
    hide AddressWords;
    var words := AddressWords(address);
    assert forall j :: 0 <= j < |words| ==> words[j] in words;
  }

  /** No filter of the list matches before the one of that text. */
  ghost predicate NoHitBeforeThis(w: World, list: seq<Filter>, address: string, domain: string) {
    forall i, j :: 0 <= j < i < |list| && list[i].text == THIS ==> !FilterMatches(w, list[j], address, domain)
  }

  /** When a search throws: the matcher holds the filter of the text, which is parsed as a pattern; another
      filter without a keyword is in its list; and there is no hit before, neither under a word of the
      address nor in that list. */
  lemma ThrowsExactly(w: World, byKeyword: map<string, Entry>, byFilter: map<string, string>, address: string, domain: string)
    requires Filed(w, byKeyword, byFilter) && Sound(w) && w.parse(THIS).pattern == THIS
    ensures var words := AddressWords(address);
      ThrowsAmong(w, byKeyword, words + [""], address, domain) <==>
        && THIS in byFilter && "" in byKeyword && |List(byKeyword[""])| >= 2
        && NoneBefore(w, byKeyword, words + [""], |words|, address, domain)
        && NoHitBeforeThis(w, List(byKeyword[""]), address, domain)
  {
    hide AddressWords, FilterMatches, NoneBefore, ThrowsUnder, Filed, NoHitBeforeThis;
    var words := AddressWords(address);
    var c := words + [""];
    assert c[|words|] == "";
    EmptyThrowsExactly(w, byKeyword, byFilter, address, domain);
    if ThrowsAmong(w, byKeyword, c, address, domain) {
      var k :| 0 <= k < |c| && ThrowsUnder(w, byKeyword, c[k], address, domain) && NoneBefore(w, byKeyword, c, k, address, domain);
      ThrowsLast(w, byKeyword, byFilter, c, k, address, domain);
    }
  }

  lemma EmptyThrowsExactly(w: World, byKeyword: map<string, Entry>, byFilter: map<string, string>, address: string, domain: string)
    requires Filed(w, byKeyword, byFilter) && Sound(w) && w.parse(THIS).pattern == THIS
    ensures ThrowsUnder(w, byKeyword, "", address, domain) <==>
      THIS in byFilter && "" in byKeyword && |List(byKeyword[""])| >= 2 && NoHitBeforeThis(w, List(byKeyword[""]), address, domain)
  {
    hide FilterMatches, KeywordOf, Filed;
    if ThrowsUnder(w, byKeyword, "", address, domain) {
      var i :| ThrowsAt(w, byKeyword[""], i, address, domain);
      ThrowsFiled(w, byKeyword, byFilter, "", i, address, domain);
      ThisFiled(w, byKeyword, byFilter);
      OnlyThis(w, byFilter, byKeyword[""], i);
      hide EntryOk;
    }
    if THIS in byFilter && "" in byKeyword && |List(byKeyword[""])| >= 2 && NoHitBeforeThis(w, List(byKeyword[""]), address, domain) {
      ThisFiled(w, byKeyword, byFilter);
      hide EntryOk;
      var list := List(byKeyword[""]);
      var i :| 0 <= i < |list| && list[i] == w.parse(THIS);
      assert ParsesTo(w, THIS);
      assert ThrowsAt(w, byKeyword[""], i, address, domain);
    }
  }

  lemma ThisFiled(w: World, byKeyword: map<string, Entry>, byFilter: map<string, string>)
    requires Filed(w, byKeyword, byFilter) && THIS in byFilter && w.parse(THIS).pattern == THIS
    ensures byFilter[THIS] == "" && "" in byKeyword && w.parse(THIS) in List(byKeyword[""]) && EntryOk(w, byFilter, "", byKeyword[""])
    ensures byKeyword[""].Many? ==> |byKeyword[""].list| >= 2
  {
    assert FiledOk(w, byKeyword, THIS, byFilter[THIS]);
    ThisKeyword(byFilter[THIS], w.parse(THIS));
    hide KeywordOf;
  }

  /** It stands in its list once. */
  lemma OnlyThis(w: World, byFilter: map<string, string>, e: Entry, i: int)
    requires EntryOk(w, byFilter, "", e) && 0 <= i < |List(e)| && List(e)[i].text == THIS
    ensures forall j :: 0 <= j < |List(e)| && List(e)[j].text == THIS ==> j == i
  {
    var list := List(e);
    forall j | 0 <= j < |list| && list[j].text == THIS ensures j == i {
      assert list[i] in list && list[j] in list;
      assert list[i] == w.parse(THIS) && list[j] == w.parse(THIS);
    }
  }

  /** With the text a blocking filter, as it is parsed, the search through both matchers throws if and only
      if no whitelist filter matches and the search for a blocking filter throws. */
  lemma EitherThrowsExactly(w: World, white: map<string, Entry>, black: map<string, Entry>, whites: map<string, string>,
                            blacks: map<string, string>, address: string, domain: string)
    requires Filed(w, white, whites) && Filed(w, black, blacks) && Sound(w) && THIS !in whites && w.parse(THIS).pattern == THIS
    ensures var c := AddressWords(address) + [""];
      EitherThrows(w, white, black, c, address, domain) <==>
        !SomeMatches(w, whites.Keys, address, domain) && ThrowsAmong(w, black, c, address, domain)
  {
    hide AddressWords, FilterMatches, KeywordOf, Filed, ThrowsAt, Sound, EntryOk;
    var words := AddressWords(address);
    var c := words + [""];
    NoThis(w, white, whites, c, address, domain);
    assert c[|words|] == "" && |c| == |words| + 1;
    if EitherThrows(w, white, black, c, address, domain) {
      var k: nat :| k < |c| && EitherThrowsAt(w, white, black, c, k, address, domain);
      assert ThrowsUnder(w, black, c[k], address, domain);
      ThrowsLast(w, black, blacks, c, k, address, domain);
      NoHit(w, white, whites, address, domain);
    }
    if !SomeMatches(w, whites.Keys, address, domain) && ThrowsAmong(w, black, c, address, domain) {
      NoMatchNoneUnder(w, white, whites, address, domain);
      var k :| 0 <= k < |c| && ThrowsUnder(w, black, c[k], address, domain) && NoneBefore(w, black, c, k, address, domain);
      assert EitherThrowsAt(w, white, black, c, k, address, domain);
    }
  }

  /** A search throws under the empty keyword, the last one. */
  lemma ThrowsLast(w: World, byKeyword: map<string, Entry>, byFilter: map<string, string>, c: seq<string>, k: nat, address: string, domain: string)
    requires Filed(w, byKeyword, byFilter) && w.parse(THIS).pattern == THIS
    requires c == AddressWords(address) + [""] && k < |c| && ThrowsUnder(w, byKeyword, c[k], address, domain)
    ensures k == |c| - 1
  {
    hide AddressWords, FilterMatches, KeywordOf;
    WordsLong(address);
    var i :| ThrowsAt(w, byKeyword[c[k]], i, address, domain);
    ThrowsFiled(w, byKeyword, byFilter, c[k], i, address, domain);
    ThisFiled(w, byKeyword, byFilter);
  }

  lemma NoMatchNoneUnder(w: World, byKeyword: map<string, Entry>, byFilter: map<string, string>, address: string, domain: string)
    requires Filed(w, byKeyword, byFilter) && !SomeMatches(w, byFilter.Keys, address, domain)
    ensures forall keyword :: NoneUnder(w, byKeyword, keyword, address, domain)
  {
    hide FilterMatches, KeywordOf, EntryOk, Filed;
    forall keyword | keyword in byKeyword ensures NoneUnder(w, byKeyword, keyword, address, domain) {
      forall f | f in List(byKeyword[keyword]) ensures !FilterMatches(w, f, address, domain) {
        HitFiled(w, byKeyword, byFilter, keyword, f);
      }
    }
  }

  // ---------------------------------------------------------------- one matcher

  const MAX_COUNT := 16777215

  class Matcher {
    const w: World
    var filterByKeyword: map<string, Entry>
    var keywordByFilter: map<string, string>

    ghost predicate Valid()
      reads this
    {
      Sound(w) && Filed(w, filterByKeyword, keywordByFilter)
    }

    /** The texts of the filters that are in. */
    ghost function Texts(): set<string>
      reads this`keywordByFilter
    {
      keywordByFilter.Keys
    }

    constructor (w: World)
      requires Sound(w)
      ensures Valid() && Texts() == {} && this.w == w && filterByKeyword == map[]
    {
      this.w, filterByKeyword, keywordByFilter := w, map[], map[];
    }

    function Count(keyword: string): nat
      reads this`filterByKeyword
    {
      if keyword in filterByKeyword then |List(filterByKeyword[keyword])| else 0
    }

    /** `a` is the better keyword: fewer filters are filed under it, or as many and it is longer. */
    predicate Better(a: string, b: string)
      reads this`filterByKeyword
    {
      Count(a) < Count(b) || (Count(a) == Count(b) && |a| >= |b|)
    }

    method FindKeyword(f: Filter) returns (result: string)
      ensures KeywordOf(f, result)
      ensures !f.slow && (exists c :: c in Candidates(f.pattern) && Count(c) <= MAX_COUNT) ==> result in Candidates(f.pattern)
      ensures result != "" ==> forall c :: c in Candidates(f.pattern) ==> Better(result, c)
    {
      result := "";
      if f.slow {
        return;
      }
      var candidates := Candidates(f.pattern);
      var resultCount, resultLength := MAX_COUNT, 0;
      var i := 0;
      while i < |candidates|
        invariant 0 <= i <= |candidates| && resultLength == |result|
        invariant result == "" || result in candidates
        invariant result != "" ==> resultCount == Count(result)
        invariant result == "" ==> resultCount == MAX_COUNT && forall j :: 0 <= j < i ==> Count(candidates[j]) > MAX_COUNT
        invariant result != "" ==> forall j :: 0 <= j < i ==> Better(result, candidates[j])
      {
        var candidate := candidates[i];
        var count := Count(candidate);
        CandidateLong(f.pattern, candidate);
        if count < resultCount || (count == resultCount && |candidate| > resultLength) {
          result, resultCount, resultLength := candidate, count, |candidate|;
        }
        i := i + 1;
      }
    }

    method Add(f: Filter)
      requires Valid() && f == w.parse(f.text)
      modifies this
      ensures Valid() && Texts() == old(Texts()) + {f.text}
      ensures if f.text in old(Texts()) then filterByKeyword == old(filterByKeyword)
        else AddedTo(old(filterByKeyword), filterByKeyword, f)
    {
      if f.text in keywordByFilter {
        return;
      }
      var keyword := FindKeyword(f);
      AddFiled(w, filterByKeyword, keywordByFilter, keyword, f);
      hide Filed, Sound, KeywordOf;
      if keyword !in filterByKeyword {
        filterByKeyword := filterByKeyword[keyword := Single(f)];
      } else {
        var oldEntry := filterByKeyword[keyword];
        match oldEntry {
          case Single(g) => filterByKeyword := filterByKeyword[keyword := Many([g, f])];
            assert [g, f] == [g] + [f];
          case Many(list) => filterByKeyword := filterByKeyword[keyword := Many(list + [f])];
        }
      }
      keywordByFilter := keywordByFilter[f.text := keyword];
    }

    method Remove(f: Filter)
      requires Valid() && f == w.parse(f.text)
      modifies this
      ensures Valid() && Texts() == old(Texts()) - {f.text}
    {
      if f.text !in keywordByFilter {
        return;
      }
      var keyword := keywordByFilter[f.text];
      hide Filed, Sound, Rest;
      FiledEntry(w, filterByKeyword, keywordByFilter, f);
      ghost var before := filterByKeyword;
      ghost var place := DropFrom(keyword, f);
      RemoveFiled(w, before, keywordByFilter, f, place);
      keywordByFilter := keywordByFilter - {f.text};
    }

    /** Takes the filter out of the entry of its keyword. */
    method DropFrom(keyword: string, f: Filter) returns (ghost place: nat)
      requires keyword in filterByKeyword && f in List(filterByKeyword[keyword])
      requires filterByKeyword[keyword].Many? ==> |filterByKeyword[keyword].list| >= 2
      modifies `filterByKeyword
      ensures place < |List(old(filterByKeyword)[keyword])| && List(old(filterByKeyword)[keyword])[place] == f
      ensures filterByKeyword == Rest(old(filterByKeyword), keyword, place)
    {
      match filterByKeyword[keyword] {
        case Single(g) =>
          place := 0;
          filterByKeyword := filterByKeyword - {keyword};
        case Many(list) =>
          var index, rest := TakeOut(list, f);
          place := index;
          filterByKeyword := filterByKeyword[keyword := rest];
      }
    }

    method TakeOut(list: seq<Filter>, f: Filter) returns (index: nat, rest: Entry)
      requires f in list && |list| >= 2
      ensures index < |list| && list[index] == f && rest == Removed(list, index)
    {
      index := IndexOf(list, f);
      var shorter := list[..index] + list[index + 1..];
      rest := if |shorter| == 1 then Single(shorter[0]) else Many(shorter);
    }

    /** _checkEntryMatch */
    method CheckEntryMatch(keyword: string, address: string, domain: string) returns (s: Outcome)
      requires keyword in filterByKeyword
      ensures s.Threw? <==> ThrowsUnder(w, filterByKeyword, keyword, address, domain)
      ensures s.Answer? && s.r.Some? ==>
        s.r.value in List(filterByKeyword[keyword]) && FilterMatches(w, s.r.value, address, domain)
      ensures s.Answer? && s.r.None? ==> NoneUnder(w, filterByKeyword, keyword, address, domain)
    {
      hide FilterMatches;
      var entry := filterByKeyword[keyword];
      var list := List(entry);
      var i := 0;
      while i < |list|
        invariant 0 <= i <= |list|
        invariant forall j :: 0 <= j < i ==> !FilterMatches(w, list[j], address, domain)
        invariant forall j :: 0 <= j < i ==> !ThrowsAt(w, entry, j, address, domain)
      {
        if entry.Many? && list[i].text == THIS {
          assert ThrowsAt(w, entry, i, address, domain);
          return Threw;
        }
        if FilterMatches(w, list[i], address, domain) {
          return Answer(Some(list[i]));
        }
        i := i + 1;
      }
      s := Answer(None);
    }

    /** matchesAny of one matcher. */
    method MatchesAny(address: string, domain: string) returns (s: Outcome)
      requires Valid()
      ensures s.Answer? ==> Answers(w, Texts(), s.r, address, domain)
      ensures s.Threw? <==> ThrowsAmong(w, filterByKeyword, AddressWords(address) + [""], address, domain)
      ensures THIS !in Texts() ==> s.Answer?
    {
      hide FilterMatches, Filed, AddressWords, ThrowsUnder;
      var candidates := AddressWords(address) + [""];
      if THIS !in keywordByFilter {
        NoThis(w, filterByKeyword, keywordByFilter, candidates, address, domain);
      }
      var i := 0;
      while i < |candidates|
        invariant 0 <= i <= |candidates| && NoneBefore(w, filterByKeyword, candidates, i, address, domain)
        invariant forall j :: 0 <= j < i ==> !ThrowsUnder(w, filterByKeyword, candidates[j], address, domain)
      {
        if candidates[i] in filterByKeyword {
          s := CheckEntryMatch(candidates[i], address, domain);
          if s.Threw? {
            return;
          }
          if s.r.Some? {
            HitFiled(w, filterByKeyword, keywordByFilter, candidates[i], s.r.value);
            HitStops(w, filterByKeyword, candidates, i, s.r.value, address, domain);
            return;
          }
        } else {
          NotThere(w, filterByKeyword, candidates[i], address, domain);
        }
        i := i + 1;
      }
      NoHit(w, filterByKeyword, keywordByFilter, address, domain);
      s := Answer(None);
    }
  }

  lemma NotThere(w: World, byKeyword: map<string, Entry>, keyword: string, address: string, domain: string)
    requires keyword !in byKeyword
    ensures !ThrowsUnder(w, byKeyword, keyword, address, domain) && NoneUnder(w, byKeyword, keyword, address, domain)
  {
  }

  /** A hit under a keyword ends the search. */
  lemma HitStops(w: World, byKeyword: map<string, Entry>, c: seq<string>, i: nat, f: Filter, address: string, domain: string)
    requires i < |c| && c[i] in byKeyword && f in List(byKeyword[c[i]]) && FilterMatches(w, f, address, domain)
    requires forall j :: 0 <= j <= i ==> !ThrowsUnder(w, byKeyword, c[j], address, domain)
    ensures !ThrowsAmong(w, byKeyword, c, address, domain)
  {
    hide FilterMatches, ThrowsUnder;
    assert !NoneUnder(w, byKeyword, c[i], address, domain);
  }

  lemma CandidateLong(p: string, c: string)
    requires c in Candidates(p)
    ensures |c| >= 3
  {
    FoundSound(LowerAll(p), 0, true, c);
  }

  method IndexOf(list: seq<Filter>, f: Filter) returns (index: nat)
    requires f in list
    ensures index < |list| && list[index] == f
    ensures forall j :: 0 <= j < index ==> list[j] != f
  {
    index := 0;
    while list[index] != f
      invariant index < |list|
      invariant forall j :: 0 <= j < index ==> list[j] != f
      decreases |list| - index
    {
      var k :| 0 <= k < |list| && list[k] == f;
      index := index + 1;
    }
  }

  // ---------------------------------------------------------------- the cache

  /** The key of a query in the cache. */
  function KeyOf(address: string, domain: string): string {
    address + " " + domain + " "
  }

  datatype Query = Query(address: string, domain: string) {
    function Key(): string {
      KeyOf(address, domain)
    }
  }

  /** Query `q` with its address cut short at a space, the rest given to the domain. */
  predicate SplitAt(q: Query, q': Query, x: string) {
    q.address == q'.address + " " + x && q'.domain == x + " " + q.domain
  }

  /** Two queries have the same key exactly if they are the same, or the same text split into address
      and domain at two different spaces. */
  lemma KeyCollision(q: Query, q': Query)
    ensures q.Key() == q'.Key() <==> q == q' || (exists x :: SplitAt(q, q', x)) || (exists x :: SplitAt(q', q, x))
  {
    if q.Key() == q'.Key() {
      if |q.address| <= |q'.address| {
        KeySplit(q', q);
      } else {
        KeySplit(q, q');
      }
    }
    forall x | SplitAt(q, q', x) ensures q.Key() == q'.Key() {
      SplitKey(q, q', x);
    }
    forall x | SplitAt(q', q, x) ensures q.Key() == q'.Key() {
      SplitKey(q', q, x);
    }
    hide KeyOf, SplitAt;
  }

  lemma SplitKey(q: Query, q': Query, x: string)
    requires SplitAt(q, q', x)
    ensures q.Key() == q'.Key()
  {
    assert q'.address + " " + x + " " + q.domain + " " == q'.address + " " + (x + " " + q.domain) + " ";
  }

  lemma KeySplit(q: Query, q': Query)
    requires q.Key() == q'.Key() && |q'.address| <= |q.address|
    ensures if |q'.address| == |q.address| then q == q' else SplitAt(q, q', q.address[|q'.address| + 1..])
  {
    var a, d, b, e := q.address, q.domain, q'.address, q'.domain;
    var n, m, k := |a|, |b|, KeyOf(a, d);
    assert k[..n] == a && k[n] == ' ' && k[n + 1..|k| - 1] == d;
    assert k[..m] == b && k[m] == ' ' && k[m + 1..|k| - 1] == e;
    assert n + |d| == m + |e| == |k| - 2;
    if m < n {
      var x := a[m + 1..];
      assert a == k[..m] + [k[m]] + k[m + 1..n] && x == k[m + 1..n] && [k[m]] == " ";
      assert e == k[m + 1..n] + [k[n]] + k[n + 1..|k| - 1] && [k[n]] == " ";
    }
  }

  /** A query shares its key with another one exactly if its address or its domain holds a space. */
  lemma KeySharedIff(q: Query)
    ensures (exists q': Query :: q' != q && q'.Key() == q.Key()) <==> ' ' in q.address || ' ' in q.domain
  {
    if i :| 0 <= i < |q.address| && q.address[i] == ' ' {
      var q' := Query(q.address[..i], q.address[i + 1..] + " " + q.domain);
      assert q.address == q'.address + " " + q.address[i + 1..];
      assert SplitAt(q, q', q.address[i + 1..]);
      KeyCollision(q, q');
      assert q' != q;
    }
    if i :| 0 <= i < |q.domain| && q.domain[i] == ' ' {
      var q' := Query(q.address + " " + q.domain[..i], q.domain[i + 1..]);
      assert q.domain == q.domain[..i] + " " + q.domain[i + 1..];
      assert SplitAt(q', q, q.domain[..i]);
      KeyCollision(q, q');
      assert q' != q;
    }
    forall q': Query | q' != q && q'.Key() == q.Key() ensures ' ' in q.address || ' ' in q.domain {
      SharedSpace(q, q');
    }
  }

  /** Two different queries with one key: one has a space in its address, the other one in its domain. */
  lemma SharedSpace(q: Query, q': Query)
    requires q != q' && q.Key() == q'.Key()
    ensures (' ' in q.address && ' ' in q'.domain) || (' ' in q'.address && ' ' in q.domain)
    ensures q.address != q'.address
  {
    KeyCollision(q, q');
    forall x | SplitAt(q, q', x) ensures ' ' in q.address && ' ' in q'.domain && |q'.address| < |q.address| {
      assert q.address[|q'.address|] == ' ' && q'.domain[|x|] == ' ';
    }
    forall x | SplitAt(q', q, x) ensures ' ' in q'.address && ' ' in q.domain && |q.address| < |q'.address| {
      assert q'.address[|q.address|] == ' ' && q.domain[|x|] == ' ';
    }
    hide KeyOf, SplitAt;
  }

  // ---------------------------------------------------------------- blocking and whitelist filters together

  /** The linear rule: a whitelist filter that matches wins; else any blocking filter that
      matches; else nothing. */
  ghost predicate Verdict(w: World, whites: set<string>, blacks: set<string>, r: Option<Filter>, address: string, domain: string) {
    if SomeMatches(w, whites, address, domain) then r.Some? && Answers(w, whites, r, address, domain)
    else Answers(w, blacks, r, address, domain)
  }

  /** What the cache holds was right for some query with that key. */
  ghost predicate CachedOk(w: World, whites: set<string>, blacks: set<string>, key: string, r: Option<Filter>, q: Query) {
    KeyOf(q.address, q.domain) == key && Verdict(w, whites, blacks, r, q.address, q.domain)
  }

  // ---------------------------------------------------------------- what a shared key does

  /** A world in which every text is the pattern of a blocking filter that is active everywhere. */
  function PlainWorld(): World {
    World((text: string) => Filter(text, false, text, false, false, false), (t: string, a: string) => false,
          (t: string, d: string) => true)
  }

  /** The characters with a meaning of their own, all of them separators, as ^. */
  function Plain(a: string): string {
    seq(|a|, i requires 0 <= i < |a| => if a[i] == '*' || a[i] == '^' || a[i] == '|' then '^' else a[i])
  }

  /** The pattern of the addresses that begin like `a`, followed by a space. */
  function Prefixed(a: string): string {
    "|" + Plain(a) + " "
  }

  lemma {:induction false} NoStars(p: string)
    requires '*' !in p
    ensures Collapse(p) == p
  {
    if p != "" {
      NoStars(p[1..]);
    }
  }

  lemma PrefixedParse(a: string)
    ensures Compile(Prefixed(a)) == Pattern(Start, Tokens(Plain(a)) + [Lit(' ')], false)
  {
    var p, b := Prefixed(a), Plain(a) + " ";
    assert '*' !in p;
    NoStars(p);
    assert p[|p| - 1] == ' ' && !EndsSep(p);
    assert a != "" ==> p[1] == Plain(a)[0];
    assert AnchorOf(p) == Start && p[1..] == b && b[|b| - 1] == ' ';
    assert Tokens(b) == Tokens(Plain(a)) + [Lit(' ')];
  }

  lemma {:induction false} PrefixedMatch(a: string, s: string, i: nat)
    requires i <= |a| <= |s| && s[..|a|] == a
    ensures MatchAt((Tokens(Plain(a)) + [Lit(' ')])[i..], false, false, s, i) <==> |a| < |s| && s[|a|] == ' '
    decreases |a| - i
  {
    var b := Tokens(Plain(a)) + [Lit(' ')];
    if i == |a| {
      assert b[i..] == [Lit(' ')] && b[i..][1..] == [];
    } else {
      PrefixedMatch(a, s, i + 1);
      assert b[i..][1..] == b[i + 1..];
      assert s[i] == s[..|a|][i] == a[i];
    }
  }

  /** The pattern that only the longer of the two addresses matches. */
  function Divider(q: Query, q': Query): string {
    Prefixed(if |q.address| < |q'.address| then q.address else q'.address)
  }

  /** For every two different queries with the same key there is a filter that blocks one and not the
      other: whatever answers one of them right answers the other one wrong. */
  lemma SharedKeyWrong(q: Query, q': Query)
    requires q != q' && q.Key() == q'.Key()
    ensures Sound(PlainWorld())
    ensures var w, blacks := PlainWorld(), {Divider(q, q')};
      forall r :: (Verdict(w, {}, blacks, r, q.address, q.domain) ==> !Verdict(w, {}, blacks, r, q'.address, q'.domain))
  {
    KeyCollision(q, q');
    SharedSpace(q, q');
    var short, long := if |q.address| < |q'.address| then q else q', if |q.address| < |q'.address| then q' else q;
    KeySplit(long, short);
    var a, s := short.address, long.address;
    var text := Divider(q, q');
    hide SplitAt;
    assert s == a + " " + s[|a| + 1..];
    assert s[|a|] == ' ' && s[..|a|] == a;
    PrefixedDiffers(a, s);
    var w := PlainWorld();
    assert w.parse(text) == Filter(text, false, text, false, false, false);
    hide Matches, Compile;
    assert FilterMatches(w, w.parse(text), s, long.domain) && !FilterMatches(w, w.parse(text), a, short.domain);
    OneFilter(w, text, s, long.domain);
    OneFilter(w, text, a, short.domain);
  }

  lemma PrefixedDiffers(a: string, s: string)
    requires |a| < |s| && s[..|a|] == a && s[|a|] == ' '
    ensures Matches(Compile(Prefixed(a)), false, s) && !Matches(Compile(Prefixed(a)), false, a)
  {
    PrefixedParse(a);
    var b := Tokens(Plain(a)) + [Lit(' ')];
    PrefixedMatch(a, s, 0);
    PrefixedMatch(a, a, 0);
    assert b[0..] == b && a[..|a|] == a;
    hide MatchAt, Compile;
    assert AnchorAt(Start, s, 0);
  }

  /** With one blocking filter the answer tells whether it matches. */
  lemma OneFilter(w: World, text: string, address: string, domain: string)
    requires w.parse(text).text == text
    ensures forall r :: Verdict(w, {}, {text}, r, address, domain) ==> (r.Some? <==> FilterMatches(w, w.parse(text), address, domain))
  {
    hide FilterMatches;
  }

  const MAX_CACHE_ENTRIES := 1000

  /** Whitelist filters are on one side, blocking filters on the other. */
  ghost predicate Sides(w: World, whites: set<string>, blacks: set<string>) {
    (forall t :: t in whites ==> w.parse(t).white) && (forall t :: t in blacks ==> !w.parse(t).white)
  }

  lemma SidesAdd(w: World, whites: set<string>, blacks: set<string>, f: Filter)
    requires Sides(w, whites, blacks) && f == w.parse(f.text)
    ensures f.white ==> Sides(w, whites + {f.text}, blacks)
    ensures !f.white ==> Sides(w, whites, blacks + {f.text})
    ensures f.white ==> whites + {f.text} + blacks == whites + blacks + {f.text}
    ensures !f.white ==> whites + (blacks + {f.text}) == whites + blacks + {f.text}
  {
  }

  lemma SidesRemove(w: World, whites: set<string>, blacks: set<string>, f: Filter)
    requires Sides(w, whites, blacks) && f == w.parse(f.text)
    ensures f.white ==> Sides(w, whites - {f.text}, blacks)
    ensures !f.white ==> Sides(w, whites, blacks - {f.text})
    ensures f.white ==> whites - {f.text} + blacks == whites + blacks - {f.text}
    ensures !f.white ==> whites + (blacks - {f.text}) == whites + blacks - {f.text}
  {
  }

  ghost predicate CacheOk(w: World, whites: set<string>, blacks: set<string>, cache: map<string, Option<Filter>>, entries: int,
                          asked: map<string, Query>)
  {
    && entries == |cache| <= MAX_CACHE_ENTRIES && asked.Keys == cache.Keys
    && forall k :: k in cache ==> CachedOk(w, whites, blacks, k, cache[k], asked[k])
  }

  lemma CacheEmpty(w: World, whites: set<string>, blacks: set<string>)
    ensures CacheOk(w, whites, blacks, map[], 0, map[])
  {
  }

  lemma CacheCount(w: World, whites: set<string>, blacks: set<string>, cache: map<string, Option<Filter>>, entries: int,
                   asked: map<string, Query>)
    requires CacheOk(w, whites, blacks, cache, entries, asked)
    ensures entries == |cache| == |asked|
  {
    assert |asked| == |asked.Keys| == |cache.Keys| == |cache|;
  }

  lemma MoreCached(cache: map<string, Option<Filter>>, key: string, r: Option<Filter>)
    requires key !in cache
    ensures |cache[key := r]| == |cache| + 1
  {
    assert cache[key := r].Keys == cache.Keys + {key};
  }

  lemma CacheStore(w: World, whites: set<string>, blacks: set<string>, cache: map<string, Option<Filter>>, entries: int,
                   asked: map<string, Query>, q: Query, r: Option<Filter>)
    requires CacheOk(w, whites, blacks, cache, entries, asked) && entries < MAX_CACHE_ENTRIES
    requires KeyOf(q.address, q.domain) !in cache && Verdict(w, whites, blacks, r, q.address, q.domain)
    ensures var key := KeyOf(q.address, q.domain);
      CacheOk(w, whites, blacks, cache[key := r], entries + 1, asked[key := q])
  {
    hide Verdict, KeyOf;
    var key := KeyOf(q.address, q.domain);
    assert CachedOk(w, whites, blacks, key, r, q);
    hide CachedOk;
    MoreCached(cache, key, r);
  }

  /** The queries behind the cached results once `q` has been asked. */
  ghost function Asking(asked: map<string, Query>, entries: nat, q: Query): map<string, Query> {
    if q.Key() in asked then asked else (if entries >= MAX_CACHE_ENTRIES then map[] else asked)[q.Key() := q]
  }

  class CombinedMatcher {
    const w: World
    const blacklist: Matcher
    const whitelist: Matcher
    var resultCache: map<string, Option<Filter>>
    var cacheEntries: nat
    /** The query each cached result was computed for. */
    ghost var asked: map<string, Query>

    ghost predicate Valid()
      reads this, blacklist, whitelist
    {
      && Matchers()
      && CacheOk(w, whitelist.Texts(), blacklist.Texts(), resultCache, cacheEntries, asked)
    }

    ghost predicate Matchers()
      reads blacklist, whitelist
    {
      && blacklist != whitelist && blacklist.Valid() && whitelist.Valid() && blacklist.w == w && whitelist.w == w
      && Sides(w, whitelist.Texts(), blacklist.Texts())
    }

    /** The texts of all filters. */
    ghost function Texts(): set<string>
      reads this, blacklist, whitelist
    {
      whitelist.Texts() + blacklist.Texts()
    }

    /** No address asked for has a space; no domain has one. */
    ghost predicate AddressesSpaceless()
      reads this`asked
    {
      forall k :: k in asked ==> ' ' !in asked[k].address
    }

    ghost predicate DomainsSpaceless()
      reads this`asked
    {
      forall k :: k in asked ==> ' ' !in asked[k].domain
    }

    /** The query's key has not been used for another query: it has no space at all, or its address
        has none and no address so far, or its domain has none and no domain so far. */
    ghost predicate Separate(address: string, domain: string)
      reads this`asked
    {
      || (' ' !in address && ' ' !in domain)
      || (' ' !in address && AddressesSpaceless())
      || (' ' !in domain && DomainsSpaceless())
    }

    lemma SeparateOwn(address: string, domain: string)
      requires Valid() && Separate(address, domain) && KeyOf(address, domain) in asked
      ensures asked[KeyOf(address, domain)] == Query(address, domain)
    {
      var q, q' := Query(address, domain), asked[KeyOf(address, domain)];
      assert CachedOk(w, whitelist.Texts(), blacklist.Texts(), q.Key(), resultCache[q.Key()], q');
      hide KeyOf;
      if q != q' {
        SharedSpace(q, q');
      }
    }

    constructor (w: World)
      requires Sound(w)
      ensures Valid() && Texts() == {} && asked == map[] && this.w == w
      ensures fresh(blacklist) && fresh(whitelist)
      ensures whitelist.filterByKeyword == map[] && blacklist.filterByKeyword == map[]
    {
      this.w := w;
      blacklist := new Matcher(w);
      whitelist := new Matcher(w);
      resultCache, cacheEntries, asked := map[], 0, map[];
    }

    method Add(f: Filter)
      requires Valid() && f == w.parse(f.text)
      modifies this, blacklist, whitelist
      ensures Valid() && Texts() == old(Texts()) + {f.text} && asked == map[]
      ensures f.text !in old(Texts()) && !f.white ==>
        && whitelist.filterByKeyword == old(whitelist.filterByKeyword)
        && AddedTo(old(blacklist.filterByKeyword), blacklist.filterByKeyword, f)
    {
      hide CacheOk, Sides, Filed, Sound, AddedTo;
      CacheCount(w, whitelist.Texts(), blacklist.Texts(), resultCache, cacheEntries, asked);
      AddToSide(f);
      ForgetResults();
      CacheEmpty(w, whitelist.Texts(), blacklist.Texts());
    }

    /** The matcher for filters of its kind gets the filter. */
    method AddToSide(f: Filter)
      requires Matchers() && f == w.parse(f.text)
      modifies blacklist, whitelist
      ensures Matchers() && Texts() == old(Texts()) + {f.text}
      ensures f.text !in old(Texts()) && !f.white ==>
        && whitelist.filterByKeyword == old(whitelist.filterByKeyword)
        && AddedTo(old(blacklist.filterByKeyword), blacklist.filterByKeyword, f)
    {
      hide Sides, Filed, Sound, AddedTo;
      SidesAdd(w, whitelist.Texts(), blacklist.Texts(), f);
      if f.white {
        whitelist.Add(f);
      } else {
        blacklist.Add(f);
      }
    }

    method Remove(f: Filter)
      requires Valid() && f == w.parse(f.text)
      modifies this, blacklist, whitelist
      ensures Valid() && Texts() == old(Texts()) - {f.text} && asked == map[]
    {
      hide CacheOk, Sides, Filed, Sound;
      SidesRemove(w, whitelist.Texts(), blacklist.Texts(), f);
      CacheCount(w, whitelist.Texts(), blacklist.Texts(), resultCache, cacheEntries, asked);
      if f.white {
        whitelist.Remove(f);
      } else {
        blacklist.Remove(f);
      }
      ForgetResults();
      CacheEmpty(w, whitelist.Texts(), blacklist.Texts());
    }

    /** Whatever changes the filters empties the cache. */
    method ForgetResults()
      requires cacheEntries == |resultCache| == |asked|
      modifies `resultCache, `cacheEntries, `asked
      ensures resultCache == map[] && cacheEntries == 0 && asked == map[]
    {
      if cacheEntries > 0 {
        resultCache, cacheEntries, asked := map[], 0, map[];
      }
    }

    /** When matchesAnyInternal throws. */
    ghost predicate Throws(address: string, domain: string)
      reads this, blacklist, whitelist
    {
      EitherThrows(w, whitelist.filterByKeyword, blacklist.filterByKeyword, AddressWords(address) + [""], address, domain)
    }

    lemma NeverThrows(address: string, domain: string)
      requires Valid() && THIS !in Texts()
      ensures !Throws(address, domain)
    {
      hide FilterMatches, Filed, AddressWords, CacheOk, Sides, ThrowsUnder;
      var c := AddressWords(address) + [""];
      NoThis(w, whitelist.filterByKeyword, whitelist.keywordByFilter, c, address, domain);
      NoThis(w, blacklist.filterByKeyword, blacklist.keywordByFilter, c, address, domain);
    }

    /** matchesAnyInternal */
    method MatchesAnyInternal(address: string, domain: string) returns (s: Outcome)
      requires Valid()
      ensures s.Answer? ==> Verdict(w, whitelist.Texts(), blacklist.Texts(), s.r, address, domain)
      ensures s.Threw? <==> Throws(address, domain)
    {
      hide FilterMatches, Filed, AddressWords, CachedOk, ThrowsUnder, CacheOk, Sides;
      var candidates := AddressWords(address) + [""];
      ghost var white, black := whitelist.filterByKeyword, blacklist.filterByKeyword;
      var blacklistHit := None;
      ghost var hit := 0;
      var i := 0;
      while i < |candidates|
        invariant 0 <= i <= |candidates| && NoneBefore(w, white, candidates, i, address, domain)
        invariant forall j :: 0 <= j < i ==> !EitherThrowsAt(w, white, black, candidates, j, address, domain)
        invariant blacklistHit.None? ==> NoneBefore(w, black, candidates, i, address, domain)
        invariant blacklistHit.Some? ==> Answers(w, blacklist.Texts(), blacklistHit, address, domain)
        invariant blacklistHit.Some? ==> 0 <= hit < i && !NoneUnder(w, black, candidates[hit], address, domain)
      {
        var substr := candidates[i];
        if substr in whitelist.filterByKeyword {
          s := whitelist.CheckEntryMatch(substr, address, domain);
          if s.Threw? {
            assert EitherThrowsAt(w, white, black, candidates, i, address, domain);
            return;
          }
          if s.r.Some? {
            HitFiled(w, white, whitelist.keywordByFilter, substr, s.r.value);
            WhiteStops(w, white, black, candidates, i, s.r.value, address, domain);
            return;
          }
        } else {
          NotThere(w, white, substr, address, domain);
        }
        if substr in blacklist.filterByKeyword && blacklistHit.None? {
          s := blacklist.CheckEntryMatch(substr, address, domain);
          if s.Threw? {
            assert EitherThrowsAt(w, white, black, candidates, i, address, domain);
            return;
          }
          blacklistHit, hit := s.r, i;
          if blacklistHit.Some? {
            HitFiled(w, black, blacklist.keywordByFilter, substr, blacklistHit.value);
          }
        } else if blacklistHit.None? {
          NotThere(w, black, substr, address, domain);
        }
        i := i + 1;
      }
      NoHit(w, white, whitelist.keywordByFilter, address, domain);
      if blacklistHit.None? {
        NoHit(w, black, blacklist.keywordByFilter, address, domain);
      }
      s := Answer(blacklistHit);
    }

    /** matchesAny, with the cache. The result is right for the first query that was asked with the
        same key, since the filters changed or the cache was full. A search that throws leaves everything
        as it was. */
    method MatchesAny(address: string, domain: string) returns (s: Outcome)
      requires Valid()
      modifies this
      ensures Valid() && Texts() == old(Texts())
      ensures s.Threw? <==> KeyOf(address, domain) !in old(asked) && old(Throws(address, domain))
      ensures THIS !in Texts() ==> s.Answer?
      ensures asked == if s.Threw? then old(asked) else Asking(old(asked), old(cacheEntries), Query(address, domain))
      ensures s.Answer? ==>
        CachedOk(w, whitelist.Texts(), blacklist.Texts(), KeyOf(address, domain), s.r, asked[KeyOf(address, domain)])
      ensures s.Answer? && old(Separate(address, domain)) ==>
        Verdict(w, whitelist.Texts(), blacklist.Texts(), s.r, address, domain)
      ensures old(AddressesSpaceless()) && ' ' !in address ==> AddressesSpaceless()
      ensures old(DomainsSpaceless()) && ' ' !in domain ==> DomainsSpaceless()
    {
      hide Filed, Sound, Verdict, KeyOf, EitherThrows;
      var key := KeyOf(address, domain);
      if THIS !in Texts() {
        NeverThrows(address, domain);
      }
      if key in resultCache {
        if Separate(address, domain) {
          SeparateOwn(address, domain);
        }
        return Answer(resultCache[key]);
      }
      s := MatchesAnyInternal(address, domain);
      if s.Answer? {
        Remember(address, domain, s.r);
      }
    }

    /** The new result is cached. */
    method Remember(address: string, domain: string, r: Option<Filter>)
      requires Valid() && KeyOf(address, domain) !in resultCache
      requires Verdict(w, whitelist.Texts(), blacklist.Texts(), r, address, domain)
      modifies `resultCache, `cacheEntries, `asked
      ensures Valid() && asked == Asking(old(asked), old(cacheEntries), Query(address, domain))
    {
      hide Filed, Sound, Verdict, KeyOf;
      var key := KeyOf(address, domain);
      if cacheEntries >= MAX_CACHE_ENTRIES {
        resultCache, cacheEntries, asked := map[], 0, map[];
        CacheEmpty(w, whitelist.Texts(), blacklist.Texts());
      }
      CacheStore(w, whitelist.Texts(), blacklist.Texts(), resultCache, cacheEntries, asked, Query(address, domain), r);
      resultCache := resultCache[key := r];
      asked := asked[key := Query(address, domain)];
      cacheEntries := cacheEntries + 1;
    }

    /** FindProxyForURL: the proxy is used exactly if no whitelist filter matches and some blocking
        filter does. It throws as matchesAny does. */
    method FindProxyForURL(address: string, host: string) returns (ok: bool, useProxy: bool)
      requires Valid()
      modifies this
      ensures Valid() && Texts() == old(Texts())
      ensures !ok <==> KeyOf(address, host) !in old(asked) && old(Throws(address, host))
      ensures THIS !in Texts() ==> ok
      ensures ok && old(Separate(address, host)) ==> (useProxy <==>
        !SomeMatches(w, whitelist.Texts(), address, host) && SomeMatches(w, blacklist.Texts(), address, host))
      ensures old(AddressesSpaceless()) && ' ' !in address ==> AddressesSpaceless()
      ensures old(DomainsSpaceless()) && ' ' !in host ==> DomainsSpaceless()
    {
      hide EitherThrows, KeyOf;
      var s := MatchesAny(address, host);
      ok := s.Answer?;
      useProxy := ok && s.r.Some? && !s.r.value.white;
    }
  }

  /** A whitelist hit ends the search. */
  lemma WhiteStops(w: World, white: map<string, Entry>, black: map<string, Entry>, c: seq<string>, i: nat, f: Filter, address: string, domain: string)
    requires i < |c| && c[i] in white && f in List(white[c[i]]) && FilterMatches(w, f, address, domain)
    requires !ThrowsUnder(w, white, c[i], address, domain)
    requires forall j :: 0 <= j < i ==> !EitherThrowsAt(w, white, black, c, j, address, domain)
    ensures !EitherThrows(w, white, black, c, address, domain)
  {
    hide FilterMatches, ThrowsUnder;
    assert !NoneUnder(w, white, c[i], address, domain);
  }

  /** The filter of the text `#this`, and then a second one without a keyword: from then on every search
      throws, whatever is asked. */
  method AddThisFirst(text: string, address: string, domain: string) returns (m: CombinedMatcher, s: Outcome)
    requires text != THIS && Candidates(text) == []
    ensures fresh(m) && m.Valid() && m.Texts() == {THIS, text} && s.Threw?
  {
    hide AddressWords, FilterMatches, Candidates, EitherThrows, AddedTo, CacheOk, Sides, Filed, KeyOf;
    var w := PlainWorld();
    m := new CombinedMatcher(w);
    m.Add(w.parse(THIS));
    ghost var first := m.blacklist.filterByKeyword;
    m.Add(w.parse(text));
    ThisFirst(first, m.blacklist.filterByKeyword, text, address, domain);
    s := m.MatchesAny(address, domain);
  }

  lemma ThisFirst(first: map<string, Entry>, black: map<string, Entry>, text: string, address: string, domain: string)
    requires Candidates(text) == []
    requires AddedTo(map[], first, PlainWorld().parse(THIS)) && AddedTo(first, black, PlainWorld().parse(text))
    ensures EitherThrows(PlainWorld(), map[], black, AddressWords(address) + [""], address, domain)
  {
    hide AddressWords, FilterMatches, Candidates;
    var w, words := PlainWorld(), AddressWords(address);
    var c := words + [""];
    var k :| KeywordOf(w.parse(THIS), k) && first == map[][k := Added(map[], k, w.parse(THIS))];
    ThisKeyword(k, w.parse(THIS));
    assert first == map["" := Single(w.parse(THIS))];
    assert black[""] == Many([w.parse(THIS)] + [w.parse(text)]) && black.Keys == {""};
    WordsLong(address);
    assert ThrowsAt(w, black[""], 0, address, domain);
    assert forall j :: 0 <= j < |words| ==> c[j] in words;
    assert c[|words|] == "" && EitherThrowsAt(w, map[], black, c, |words|, address, domain);
  }

  /** For every two different queries with the same key there is a filter with which asking one of them
      first makes the answer to the other one wrong. */
  method AskBoth(q: Query, q': Query) returns (m: CombinedMatcher, s: Outcome)
    requires q != q' && q.Key() == q'.Key()
    ensures fresh(m) && m.Valid() && m.asked == map[q.Key() := q]
    ensures s.Answer? && !Verdict(m.w, m.whitelist.Texts(), m.blacklist.Texts(), s.r, q'.address, q'.domain)
  {
    DividerNotThis(q, q');
    hide Verdict, KeyOf, Sound, Divider, EitherThrows;
    SharedKeyWrong(q, q');
    var w, text := PlainWorld(), Divider(q, q');
    m := new CombinedMatcher(w);
    m.Add(w.parse(text));
    OnlyBlocking(m.w, m.whitelist.Texts(), m.blacklist.Texts(), text);
    s := m.MatchesAny(q.address, q.domain);
    s := m.MatchesAny(q'.address, q'.domain);
  }

  lemma DividerNotThis(q: Query, q': Query)
    ensures Divider(q, q') != THIS
  {
    assert Divider(q, q')[0] == '|' && THIS[0] == '#';
  }

  lemma OnlyBlocking(w: World, whites: set<string>, blacks: set<string>, text: string)
    requires Sides(w, whites, blacks) && whites + blacks == {text} && !w.parse(text).white
    ensures whites == {} && blacks == {text}
  {
    assert forall t :: t in whites ==> t in whites + blacks;
  }
}
