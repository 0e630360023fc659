/** Which texts are IPv6 addresses. */
module Ipv6Grammar {
  // The texts the parser accepts, said without reading them from left to right.

  import opened Options
  import opened Ipv6Text
  import opened Ipv6Digits

  // ---------------------------------------------------------------- four decimal numbers

  /** Numbers with dots between them. */
  function Dotted(ns: seq<nat>): string {
    if ns == [] then "" else Dec(ns[0]) + (if |ns| > 1 then "." else "") + Dotted(ns[1..])
  }

  predicate FourBytes(ns: seq<nat>) {
    |ns| == 4 && forall i :: 0 <= i < 4 ==> ns[i] <= 255
  }

  lemma DecShape(n: nat)
    requires n <= 255
    ensures n < 10 ==> Dec(n) == [HexChar(n)]
    ensures 10 <= n < 100 ==> Dec(n) == [HexChar(n / 10), HexChar(n % 10)]
    ensures 100 <= n ==> Dec(n) == [HexChar(n / 100), HexChar(n / 10 % 10), HexChar(n % 10)]
  {
    if n >= 10 {
      assert Dec(n) == Dec(n / 10) + [HexChar(n % 10)];
      if n >= 100 {
        assert Dec(n / 10) == Dec(n / 100) + [HexChar(n / 10 % 10)];
      }
    }
  }

  lemma OneDigit(d: nat, rest: string, bytes: seq<nat>, byte: nat, empty: bool)
    requires d < 10 && (empty ==> byte == 0) && (!empty ==> byte != 0) && 10 * byte + d <= 255
    ensures Scan4([HexChar(d)] + rest, bytes, byte, empty) == Scan4(rest, bytes, 10 * byte + d, false)
  {
    var s := [HexChar(d)] + rest;
    assert s[0] == HexChar(d) && s[1..] == rest;
  }

  /** A number without leading zeros is read as that number. */
  lemma ScanNumber(n: nat, rest: string, bytes: seq<nat>)
    requires n <= 255
    ensures Scan4(Dec(n) + rest, bytes, 0, true) == Scan4(rest, bytes, n, false)
  {
    hide Scan4, Dec;
    DecShape(n);
    var a, b, c := n / 100, n / 10 % 10, n % 10;
    if n < 10 {
      OneDigit(n, rest, bytes, 0, true);
    } else if n < 100 {
      assert [HexChar(n / 10), HexChar(c)] + rest == [HexChar(n / 10)] + ([HexChar(c)] + rest);
      OneDigit(n / 10, [HexChar(c)] + rest, bytes, 0, true);
      OneDigit(c, rest, bytes, n / 10, false);
    } else {
      assert [HexChar(a), HexChar(b), HexChar(c)] + rest == [HexChar(a)] + ([HexChar(b)] + ([HexChar(c)] + rest));
      OneDigit(a, [HexChar(b)] + ([HexChar(c)] + rest), bytes, 0, true);
      OneDigit(b, [HexChar(c)] + rest, bytes, a, false);
      OneDigit(c, rest, bytes, n / 10, false);
    }
  }

  lemma {:induction false} ScanDotted(ns: seq<nat>, bytes: seq<nat>)
    requires ns != [] && |bytes| + |ns| == 4 && forall i :: 0 <= i < |ns| ==> ns[i] <= 255
    ensures Scan4(Dotted(ns), bytes, 0, true) == Some(bytes + ns)
    decreases |ns|
  {
    hide Dec;
    var rest := (if |ns| > 1 then "." else "") + Dotted(ns[1..]);
    assert Dotted(ns) == Dec(ns[0]) + rest;
    ScanNumber(ns[0], rest, bytes);
    if |ns| > 1 {
      assert rest[0] == '.' && rest[1..] == Dotted(ns[1..]);
      ScanDotted(ns[1..], bytes + [ns[0]]);
      assert bytes + [ns[0]] + ns[1..] == bytes + ns;
    } else {
      assert rest == "" && ns == [ns[0]];
    }
  }

  /** What has been read of a number, and what follows, are the numbers from here on. */
  ghost predicate Explains4(s: string, bytes: seq<nat>, byte: nat, empty: bool, b: seq<nat>) {
    && |b| == 4 && |bytes| <= 3 && b[..|bytes|] == bytes && (forall i :: |bytes| <= i < 4 ==> b[i] <= 255)
    && (if empty then "" else Dec(byte)) + s == Dotted(b[|bytes|..])
  }

  lemma DotExplained(s: string, bytes: seq<nat>, byte: nat, b: seq<nat>)
    requires s != "" && s[0] == '.' && byte <= 255 && Explains4(s[1..], bytes + [byte], 0, true, b)
    ensures Explains4(s, bytes, byte, false, b)
  {
    hide Dec;
    var k := |bytes|;
    var r := b[k..];
    assert s == "." + s[1..] && b[k + 1..] == r[1..] && "" + s[1..] == s[1..];
    assert b[k] == b[..k + 1][k] == byte && b[..k] == b[..k + 1][..k];
    Joined3(Dec(byte), ".", s[1..]);
  }

  lemma DigitExplained4(s: string, bytes: seq<nat>, byte: nat, empty: bool, b: seq<nat>)
    requires s != "" && 0 <= DecDigit(s[0]) && (if empty then byte == 0 else byte != 0)
    requires Explains4(s[1..], bytes, 10 * byte + DecDigit(s[0]), false, b)
    ensures Explains4(s, bytes, byte, empty, b)
  {
    var d := DecDigit(s[0]);
    assert s[0] == HexChar(d) && s == [s[0]] + s[1..];
    DecGrows(byte, d, empty);
    hide Dec, Dotted;
    Joined3(if empty then "" else Dec(byte), [s[0]], s[1..]);
  }

  lemma {:induction false} Scan4Sound(s: string, bytes: seq<nat>, byte: nat, empty: bool)
    requires Scan4(s, bytes, byte, empty).Some? && byte <= 255 && |bytes| <= 3 && (empty ==> byte == 0)
    ensures Explains4(s, bytes, byte, empty, Scan4(s, bytes, byte, empty).value)
    decreases |s|
  {
    hide Dec, Explains4;
    var b := Scan4(s, bytes, byte, empty).value;
    if s == "" {
      LastExplained(bytes, byte);
    } else if s[0] == '.' {
      Scan4Sound(s[1..], bytes + [byte], 0, true);
      DotExplained(s, bytes, byte, b);
    } else {
      Scan4Sound(s[1..], bytes, 10 * byte + DecDigit(s[0]), false);
      DigitExplained4(s, bytes, byte, empty, b);
    }
  }

  lemma LastExplained(bytes: seq<nat>, byte: nat)
    requires |bytes| == 3 && byte <= 255
    ensures Explains4("", bytes, byte, false, bytes + [byte])
  {
    hide Dec;
    var b := bytes + [byte];
    assert b[3..] == [byte] && [byte][1..] == [] && b[..3] == bytes;
    assert Dotted([byte]) == Dec(byte) + "" + "";
  }

  lemma DecGrows(byte: nat, d: nat, empty: bool)
    requires d < 10 && (if empty then byte == 0 else byte != 0)
    ensures Dec(10 * byte + d) == (if empty then "" else Dec(byte)) + [HexChar(d)]
  {
  }

  /** The embedded form: exactly four numbers up to 255, without leading zeros. */
  lemma Scan4Exact(s: string, b: seq<nat>)
    ensures Scan4(s, [], 0, true) == Some(b) <==> FourBytes(b) && s == Dotted(b)
  {
    if Scan4(s, [], 0, true) == Some(b) {
      Scan4Sound(s, [], 0, true);
      assert b[0..] == b && "" + s == s;
    }
    if FourBytes(b) && s == Dotted(b) {
      ScanDotted(b, []);
      assert [] + b == b;
    }
  }

  // ---------------------------------------------------------------- groups of hexadecimal digits

  predicate AllHex(g: string) {
    forall i :: 0 <= i < |g| ==> Place(g[i]) >= 0
  }

  function HexVal(g: string, n: nat): nat
    requires AllHex(g)
  {
    if g == "" then n else HexVal(g[1..], 16 * n + Place(g[0]))
  }

  /** Any number of leading zeros is allowed. */
  predicate Group(g: string) {
    g != "" && AllHex(g) && HexVal(g, 0) <= UINT16_MAX
  }

  lemma {:induction false} HexValGrows(g: string, n: nat)
    requires AllHex(g)
    ensures HexVal(g, n) >= n
  {
    hide Place;
    if g != "" {
      HexValGrows(g[1..], 16 * n + Place(g[0]));
    }
  }

  lemma {:induction false} HexValSnoc(g: string, c: char, n: nat)
    requires AllHex(g) && Place(c) >= 0
    ensures AllHex(g + [c]) && HexVal(g + [c], n) == 16 * HexVal(g, n) + Place(c)
  {
    hide Place;
    if g == "" {
      assert g + [c] == [c] && [c][1..] == "";
    } else {
      HexValSnoc(g[1..], c, 16 * n + Place(g[0]));
      assert (g + [c])[1..] == g[1..] + [c];
    }
  }

  /** The digits of a group, read in some state. */
  lemma {:induction false} ScanGroup(g: string, rest: string, st: St)
    requires AllHex(g) && HexVal(g, st.block) <= UINT16_MAX
    ensures Scan(g + rest, st)
         == Scan(rest, if g == "" then st else St(st.blocks, st.compress, HexVal(g, st.block), false, st.digits + g, false))
    decreases |g|
  {
    hide Place;
    var s := g + rest;
    if g == "" {
      assert s == rest;
    } else {
      var d := HexDigit(g[0]);
      PlaceIs(g[0]);
      HexValGrows(g[1..], 16 * st.block + d);
      assert s[0] == g[0] && s[1..] == g[1..] + rest && s != "";
      assert g[0] != '.' && g[0] != ':';
      var st1 := St(st.blocks, st.compress, 16 * st.block + d, false, st.digits + [g[0]], false);
      assert Digit(st, g[0]) == Some(st1);
      ScanGroup(g[1..], rest, st1);
      assert st.digits + [g[0]] + g[1..] == st.digits + g;
      assert g[1..] == "" ==> st.digits + g == st.digits + [g[0]];
    }
  }

  // ---------------------------------------------------------------- the form of an address

  /** Groups of digits with colons between them, two colons before the one with index `c`. */
  function Body(ps: seq<string>, c: int): string {
    if ps == [] then "" else ps[0] + (if c == 1 then "::" else if |ps| > 1 then ":" else "") + Body(ps[1..], c - 1)
  }

  function Show(ps: seq<string>, c: int): string {
    (if c == 0 then "::" else "") + Body(ps, c)
  }

  predicate Quad(s: string) {
    Scan4(s, [], 0, true).Some?
  }

  function Quarters(s: string): (bs: seq<nat>)
    requires Quad(s)
    ensures |bs| == 2
  {
    Scan4Sound(s, [], 0, true);
    var b := Scan4(s, [], 0, true).value;
    [256 * b[0] + b[1], 256 * b[2] + b[3]]
  }

  /** All are groups; with `quad`, the last one is four decimal numbers instead. */
  predicate PiecesOk(ps: seq<string>, quad: bool) {
    if ps == [] then !quad
    else if quad && |ps| == 1 then Quad(ps[0])
    else Group(ps[0]) && PiecesOk(ps[1..], quad)
  }

  function Vals(ps: seq<string>, quad: bool): seq<nat>
    requires PiecesOk(ps, quad)
  {
    if ps == [] then []
    else if quad && |ps| == 1 then Quarters(ps[0])
    else [HexVal(ps[0], 0)] + Vals(ps[1..], quad)
  }

  function Groups(ps: seq<string>, quad: bool): int {
    if quad then |ps| - 1 else |ps|
  }

  /** Eight blocks; or two colons somewhere, in front of a group, of the four numbers or at the end, at
      most seven groups before them and at most eight blocks in all. */
  predicate Form(ps: seq<string>, c: int, quad: bool) {
    && PiecesOk(ps, quad)
    && if c == -1 then |Vals(ps, quad)| == 8 else 0 <= c <= 7 && c <= Groups(ps, quad) && |Vals(ps, quad)| <= 8
  }

  /** Block `i` when the blocks behind the first `c` stand at the end and zeros before them. */
  function Slot(vs: seq<nat>, c: nat, i: nat): nat
    requires c <= |vs| <= 8 && i < 8
  {
    if i < c then vs[i] else if i < 8 - |vs| + c then 0 else vs[i - 8 + |vs|]
  }

  /** The eight blocks: all that are written; or those before the two colons, zeros, and those behind them. */
  lemma DoneExact(vs: seq<nat>, c: int, bs: seq<nat>)
    ensures Done(vs, c) == Some(bs) <==>
      if c == -1 then |vs| == 8 && bs == vs
      else 0 <= c <= |vs| <= 8 == |bs| && forall i: nat :: i < 8 ==> bs[i] == Slot(vs, c, i)
  {
    if 0 <= c <= |vs| <= 8 == |bs| {
      var ds := vs[..c] + Zeros(8 - |vs|) + vs[c..];
      assert forall i: nat :: i < 8 ==> ds[i] == Slot(vs, c, i);
      hide Slot;
      if forall i: nat :: i < 8 ==> bs[i] == Slot(vs, c, i) {
        assert bs == ds;
      }
    }
  }

  // ---------------------------------------------------------------- what is accepted has the form

  /** What the state remembers is what was read. */
  ghost predicate StOk(st: St) {
    && AllHex(st.digits) && st.block == HexVal(st.digits, 0) <= UINT16_MAX && (st.empty <==> st.digits == "")
    && !st.first && |st.blocks| <= 7 && -1 <= st.compress <= |st.blocks|
  }

  /** The gap: known already, or yet to come. */
  predicate GapAt(st: St, c: int) {
    if st.compress != -1 then c == st.compress else c == -1 || |st.blocks| < c <= 7
  }

  ghost predicate Explains(s: string, st: St, ps: seq<string>, c: int, quad: bool) {
    && PiecesOk(ps, quad) && GapAt(st, c) && c <= |st.blocks| + Groups(ps, quad)
    && st.digits + s == Body(ps, c - |st.blocks|)
    && Scan(s, st) == Done(st.blocks + Vals(ps, quad), c)
  }

  lemma EndExplained(st: St) returns (ps: seq<string>)
    requires StOk(st) && Finish(st).Some?
    ensures Explains("", st, ps, st.compress, false)
  {
    hide Place;
    if st.empty {
      ps := [];
      assert st.blocks + [] == st.blocks;
    } else {
      ps := [st.digits];
      assert ps[1..] == [] && st.digits + "" + "" == st.digits;
      assert Vals(ps, false) == [st.block];
      assert PiecesOk(ps, false);
      assert Body(ps, st.compress - |st.blocks|) == st.digits;
    }
    assert Scan("", st) == Finish(st);
  }

  lemma QuadExplained(s: string, st: St)
    requires StOk(st) && s != "" && s[0] == '.' && Scan(s, st).Some?
    ensures Explains(s, st, [st.digits + s], st.compress, true)
  {
    hide Place;
    var ps, q := [st.digits + s], st.digits + s;
    assert ps[1..] == [] && q + "" + "" == q;
    Scan4Sound(q, [], 0, true);
    assert Vals(ps, true) == Quarters(q);
    assert Body(ps, st.compress - |st.blocks|) == q;
    assert PiecesOk(ps, true);
    assert Scan(s, st) == Ending4(s, st);
  }

  lemma BodyCons(x: string, ps: seq<string>, c: int)
    ensures Body([x] + ps, c) == x + (if c == 1 then "::" else if ps != [] then ":" else "") + Body(ps, c - 1)
  {
    assert ([x] + ps)[1..] == ps;
  }

  lemma ValsCons(x: string, ps: seq<string>, quad: bool)
    requires PiecesOk(ps, quad) && Group(x)
    ensures PiecesOk([x] + ps, quad) && Vals([x] + ps, quad) == [HexVal(x, 0)] + Vals(ps, quad)
  {
    hide Place;
    assert ([x] + ps)[1..] == ps;
  }

  lemma ColonExplained(s: string, st: St, ps: seq<string>, c: int, quad: bool)
    requires StOk(st) && s != "" && s[0] == ':' && Scan(s, st).Some?
    requires var double := |s| > 1 && s[1] == ':';
      && Colon(st, double).Some?
      && Explains(s[if double then 2 else 1..], Colon(st, double).value, ps, c, quad)
    ensures Explains(s, st, [st.digits] + ps, c, quad)
  {
    hide Place, Scan, Done, Body, Vals, PiecesOk, HexVal, AllHex;
    var double := |s| > 1 && s[1] == ':';
    var st', s' := Colon(st, double).value, s[if double then 2 else 1..];
    ColonStep(s, st);
    ValsCons(st.digits, ps, quad);
    Joined(st.blocks, st.block, Vals(ps, quad));
    ColonBody(s, st, st', ps, c);
  }

  /** The text: the digits, the colons, and the pieces that follow. */
  lemma ColonBody(s: string, st: St, st': St, ps: seq<string>, c: int)
    requires s != "" && s[0] == ':' && !st.first && GapAt(st', c) && -1 <= st.compress <= |st.blocks| <= 7
    requires var double := |s| > 1 && s[1] == ':'; var s' := s[if double then 2 else 1..];
      && Colon(st, double) == Some(st') && s' == Body(ps, c - |st'.blocks|) && Scan(s', st').Some?
    ensures GapAt(st, c) && st.digits + s == Body([st.digits] + ps, c - |st.blocks|)
  {
    hide Scan, Body;
    var double := |s| > 1 && s[1] == ':';
    var s' := s[if double then 2 else 1..];
    assert s == (if double then "::" else ":") + s';
    BodyCons(st.digits, ps, c - |st.blocks|);
    if !double && ps == [] {
      LastColon1(s', st', c);
    }
    Joined3(st.digits, if double then "::" else ":", s');
  }

  lemma Joined(a: seq<nat>, x: nat, b: seq<nat>)
    ensures a + ([x] + b) == a + [x] + b
  {
  }

  lemma Joined3(a: string, b: string, c: string)
    ensures a + (b + c) == a + b + c
  {
  }

  lemma ColonStep(s: string, st: St)
    requires s != "" && s[0] == ':' && Colon(st, |s| > 1 && s[1] == ':').Some?
    ensures var double := |s| > 1 && s[1] == ':';
      Scan(s, st) == Scan(s[if double then 2 else 1..], Colon(st, double).value)
  {
  }

  /** A single colon at the end is never accepted. */
  lemma LastColon1(s: string, st: St, c: int)
    requires st.digits == "" && st.empty && |st.blocks| != st.compress && st.digits + s == Body([], c - |st.blocks|)
    ensures Scan(s, st).None?
  {
    assert s == "";
  }

  lemma {:induction false} ScanSound(s: string, st: St) returns (ps: seq<string>, c: int, quad: bool)
    requires StOk(st) && Scan(s, st).Some?
    ensures Explains(s, st, ps, c, quad)
    decreases |s|
  {
    hide Place;
    if s == "" {
      ps := EndExplained(st);
      c, quad := st.compress, false;
    } else if s[0] == '.' {
      QuadExplained(s, st);
      ps, c, quad := [st.digits + s], st.compress, true;
    } else if s[0] == ':' {
      var double := |s| > 1 && s[1] == ':';
      ps, c, quad := ScanSound(s[if double then 2 else 1..], Colon(st, double).value);
      ColonExplained(s, st, ps, c, quad);
      ps := [st.digits] + ps;
    } else {
      PlaceIs(s[0]);
      HexValSnoc(st.digits, s[0], 0);
      var st' := Digit(st, s[0]).value;
      ps, c, quad := ScanSound(s[1..], st');
      Joined3(st.digits, [s[0]], s[1..]);
      assert s == [s[0]] + s[1..];
    }
    hide Body, Vals, PiecesOk, Done;
  }

  lemma ParseSound(s: string) returns (ps: seq<string>, c: int, quad: bool)
    requires Parse(s).Some?
    ensures Form(ps, c, quad) && s == Show(ps, c) && Parse(s) == Done(Vals(ps, quad), c)
  {
    hide Place;
    var st, s' := FirstState(s);
    ps, c, quad := ScanSound(s', st);
    hide Scan, Done, Body, Vals, PiecesOk, HexVal, AllHex;
    ValsSize(ps, quad);
    assert [] + Vals(ps, quad) == Vals(ps, quad) && "" + Body(ps, c) == Body(ps, c);
  }

  /** The state after the first digit, or after two colons at the beginning. */
  lemma FirstState(s: string) returns (st: St, s': string)
    requires Parse(s).Some?
    ensures StOk(st) && st.blocks == [] && (st.compress == 0 || st.compress == -1)
    ensures s == (if st.compress == 0 then "::" else "") + (st.digits + s') && Parse(s) == Scan(s', st)
  {
    hide Place;
    if s[0] == ':' {
      st, s' := St([], 0, 0, true, "", false), s[2..];
      assert "" + s' == s' && s == "::" + s';
    } else {
      PlaceIs(s[0]);
      HexValSnoc("", s[0], 0);
      st, s' := Digit(START, s[0]).value, s[1..];
      assert "" + [s[0]] == [s[0]] && [s[0]] + s' == s && "" + s == s;
    }
  }

  // ---------------------------------------------------------------- what has the form is accepted

  lemma QuadStart(q: string)
    requires Quad(q)
    ensures q != "" && 0 <= DecDigit(q[0])
  {
  }

  lemma PieceStart(ps: seq<string>, c: int, quad: bool)
    requires ps != [] && PiecesOk(ps, quad)
    ensures Body(ps, c) != "" && Body(ps, c)[0] != ':'
  {
    hide Place;
    if quad && |ps| == 1 {
      QuadStart(ps[0]);
    } else {
      PlaceIs(ps[0][0]);
    }
  }

  /** The four numbers: the first one is read as a group, then all again. */
  lemma ScanQuad(q: string, st: St)
    requires Quad(q) && st.empty && st.digits == "" && st.block == 0
    requires |st.blocks| <= 6 && (st.blocks != [] || st.compress != -1)
    ensures Scan(q, st) == Done(st.blocks + Quarters(q), st.compress)
  {
    hide Place;
    var b := Scan4(q, [], 0, true).value;
    Scan4Exact(q, b);
    hide Scan4;
    var g, rest := Dec(b[0]), "." + Dotted(b[1..]);
    assert q == g + rest;
    DecIsGroup(b[0]);
    ScanGroup(g, rest, st);
    assert "" + g == g && rest[0] == '.';
  }

  lemma DecIsGroup(n: nat)
    requires n <= 255
    ensures Group(Dec(n))
  {
    hide Place;
    DecShape(n);
    hide Dec;
    var g := Dec(n);
    Places();
    assert forall i :: 0 <= i < |g| ==> 0 <= HexDigit(g[i]) < 16;
    ShortHex(g);
  }

  lemma ShortHex(g: string)
    requires AllHex(g) && |g| <= 3
    ensures HexVal(g, 0) <= UINT16_MAX
  {
    hide Place;
    HexBound(g, 0);
    assert Pow16(0) == 1 && Pow16(1) == 16 && Pow16(2) == 0x100 && Pow16(3) == 0x1000;
  }

  lemma {:induction false} HexBound(g: string, n: nat)
    requires AllHex(g)
    ensures HexVal(g, n) < (n + 1) * Pow16(|g|)
  {
    hide Place;
    if g != "" {
      var d := Place(g[0]);
      PlaceIs(g[0]);
      assert 0 <= d < 16;
      HexBound(g[1..], 16 * n + d);
      Scaled(n, d, Pow16(|g| - 1));
    }
  }

  lemma Scaled(n: nat, d: nat, p: nat)
    requires d < 16
    ensures (16 * n + d + 1) * p <= (n + 1) * (16 * p)
  {
    assert (16 * n + 16) * p == (n + 1) * (16 * p);
    assert (15 - d) * p >= 0;
  }

  ghost predicate Ready(st: St, ps: seq<string>, c: int, quad: bool) {
    && st.empty && st.digits == "" && st.block == 0 && (st.first ==> st.blocks == [])
    && PiecesOk(ps, quad) && ps != [] && GapAt(st, c) && c <= |st.blocks| + Groups(ps, quad)
    && -1 <= st.compress <= |st.blocks| && |st.blocks| + |Vals(ps, quad)| <= 8
    && (quad && |ps| == 1 ==> st.blocks != [] || st.compress != -1)
  }

  lemma {:induction false} ScanBody(ps: seq<string>, c: int, quad: bool, st: St)
    requires Ready(st, ps, c, quad)
    ensures Scan(Body(ps, c - |st.blocks|), st) == Done(st.blocks + Vals(ps, quad), c)
    decreases |ps|
  {
    hide Place;
    var k := |st.blocks|;
    if quad && |ps| == 1 {
      assert ps[1..] == [] && ps[0] + "" + "" == ps[0];
      ScanQuad(ps[0], st);
    } else {
      hide Scan, Done, HexVal, Body, Vals, Ready, PiecesOk, Between, Behind;
      ReadyParts(ps, c, quad, st);
      ScanFirst(ps, c, quad, st);
      if |ps| > 1 {
        ScanBody(ps[1..], c, quad, Behind(st, ps, c));
        assert ps == [ps[0]] + ps[1..];
        ValsCons(ps[0], ps[1..], quad);
        Joined(st.blocks, HexVal(ps[0], 0), Vals(ps[1..], quad));
      }
    }
  }

  /** The first group, and what stands behind it. */
  lemma ScanFirst(ps: seq<string>, c: int, quad: bool, st: St)
    requires Ready(st, ps, c, quad) && !(quad && |ps| == 1) && Group(ps[0])
    ensures var s := Scan(Body(ps, c - |st.blocks|), st);
      if |ps| > 1 then Ready(Behind(st, ps, c), ps[1..], c, quad) && s == Scan(Body(ps[1..], c - |st.blocks| - 1), Behind(st, ps, c))
      else s == Done(st.blocks + Vals(ps, quad), c)
  {
    hide Place, Scan, Done, HexVal, Vals, PiecesOk, Between, Behind;
    var g, k := ps[0], |st.blocks|;
    assert "" + g == g;
    BodySplit(ps, c - k);
    ScanGroup(g, Between(ps, c - k) + Body(ps[1..], c - k - 1), st);
    AfterGroup(ps, c, quad, st, St(st.blocks, st.compress, HexVal(g, 0), false, g, false));
    hide Ready, Body;
  }

  lemma BodySplit(ps: seq<string>, c: int)
    requires ps != []
    ensures Body(ps, c) == ps[0] + (Between(ps, c) + Body(ps[1..], c - 1))
  {
    Joined3(ps[0], Between(ps, c), Body(ps[1..], c - 1));
  }

  lemma ReadyParts(ps: seq<string>, c: int, quad: bool, st: St)
    requires Ready(st, ps, c, quad) && !(quad && |ps| == 1)
    ensures Group(ps[0]) && PiecesOk(ps[1..], quad) && st.block == 0 && st.digits == "" && (|ps| == 1 || ps[1..] != [])
    ensures Behind(st, ps, c).blocks == st.blocks + [HexVal(ps[0], 0)]
  {
    hide Place;
  }

  /** What stands behind the first piece. */
  function Between(ps: seq<string>, c: int): string {
    if c == 1 then "::" else if |ps| > 1 then ":" else ""
  }

  /** The state behind that. */
  function Behind(st: St, ps: seq<string>, c: int): St
    requires ps != [] && AllHex(ps[0])
  {
    St(st.blocks + [HexVal(ps[0], 0)], if c - |st.blocks| == 1 then c else st.compress, 0, true, "", false)
  }

  /** What comes behind a group. */
  lemma AfterGroup(ps: seq<string>, c: int, quad: bool, st: St, st1: St)
    requires Ready(st, ps, c, quad) && !(quad && |ps| == 1)
    requires st1 == St(st.blocks, st.compress, HexVal(ps[0], 0), false, ps[0], false)
    ensures var k := |st.blocks|;
      var more := Body(ps[1..], c - k - 1);
      if |ps| > 1 then Ready(Behind(st, ps, c), ps[1..], c, quad) && Scan(Between(ps, c - k) + more, st1) == Scan(more, Behind(st, ps, c))
      else Scan(Between(ps, c - k) + more, st1) == Done(st.blocks + Vals(ps, quad), c)
  {
    hide Place;
    var k, v := |st.blocks|, HexVal(ps[0], 0);
    var more, st2 := Body(ps[1..], c - k - 1), Behind(st, ps, c);
    var s := Between(ps, c - k) + more;
    if |ps| > 1 {
      PieceStart(ps[1..], c - k - 1, quad);
      ValsSize(ps[1..], quad);
      assert s[0] == ':' && (s[1] == ':' <==> c - k == 1) && s[if c - k == 1 then 2 else 1..] == more;
      assert Colon(st1, c - k == 1) == Some(st2);
      ColonStep(s, st1);
    } else {
      assert ps[1..] == [] && more == "" && s == Between(ps, c - k);
      assert Vals(ps, quad) == [v];
      if c - k == 1 {
        assert Colon(st1, true) == Some(st2);
        ColonStep(s, st1);
        assert s[2..] == "";
      }
    }
  }

  lemma {:induction false} ValsSize(ps: seq<string>, quad: bool)
    requires PiecesOk(ps, quad)
    ensures |Vals(ps, quad)| == Groups(ps, quad) + if quad then 2 else 0
  {
    hide Place;
    if ps != [] && !(quad && |ps| == 1) {
      ValsSize(ps[1..], quad);
    }
  }

  lemma ParseComplete(ps: seq<string>, c: int, quad: bool)
    requires Form(ps, c, quad)
    ensures Parse(Show(ps, c)) == Done(Vals(ps, quad), c) && Done(Vals(ps, quad), c).Some?
  {
    hide Place;
    var vs := Vals(ps, quad);
    ValsSize(ps, quad);
    assert [] + vs == vs;
    if c == 0 {
      var st := St([], 0, 0, true, "", false);
      var s := Show(ps, c);
      assert s[0] == ':' && s[1] == ':' && s[2..] == Body(ps, 0);
      ColonStep(s, START);
      if ps != [] {
        ScanBody(ps, c, quad, st);
      }
    } else {
      assert ps != [];
      assert "" + Body(ps, c) == Body(ps, c);
      ScanBody(ps, c, quad, START);
    }
  }

  /** The parser accepts exactly the texts of this form, and reads them as what they say. */
  lemma ParseExact(s: string, bs: seq<nat>)
    ensures Parse(s) == Some(bs) <==>
      exists ps, c, quad :: Form(ps, c, quad) && s == Show(ps, c) && Done(Vals(ps, quad), c) == Some(bs)
  {
    hide Show, Done, Vals;
    if Parse(s) == Some(bs) {
      var ps, c, quad := ParseSound(s);
    }
    forall ps, c, quad | Form(ps, c, quad) && s == Show(ps, c) && Done(Vals(ps, quad), c) == Some(bs)
      ensures Parse(s) == Some(bs)
    {
      ParseComplete(ps, c, quad);
    }
  }
}
