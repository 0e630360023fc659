/** IPv6 addresses as text: printing, and parsing of what was printed and more. */
module Ipv6Text {
  import opened Bytes
  import opened Options

  const UINT16_MAX: int := 0xffff

  /** An address is eight 16-bit blocks, two bytes each, the high one first. */
  ghost predicate Blocks(bs: seq<nat>) {
    forall i :: 0 <= i < |bs| ==> bs[i] <= UINT16_MAX
  }

  function Zeros(n: nat): seq<nat> {
    seq(n, i => 0)
  }

  // ---------------------------------------------------------------- digits

  /** decode_hex_digit */
  function HexDigit(c: char): int {
    if '0' <= c <= '9' then c as int - '0' as int
    else if 'a' <= c <= 'f' then 10 + c as int - 'a' as int
    else if 'A' <= c <= 'F' then 10 + c as int - 'A' as int
    else -1
  }

  function DecDigit(c: char): int {
    if '0' <= c <= '9' then c as int - '0' as int else -1
  }

  function HexChar(d: nat): (c: char)
    requires d < 16
    ensures HexDigit(c) == d && c != ':' && c != '.' && c != '/'
  {
    if d < 10 then ('0' as int + d) as char else ('a' as int + d - 10) as char
  }

  /** The text of a number, lower-case hexadecimal without leading zeros. */
  function Hex(b: nat): string {
    if b < 16 then [HexChar(b)] else Hex(b / 16) + [HexChar(b % 16)]
  }

  function Pow16(n: nat): nat {
    if n == 0 then 1 else 16 * Pow16(n - 1)
  }

  lemma {:induction false} HexShort(b: nat, n: nat)
    requires 0 < n && b < Pow16(n)
    ensures 1 <= |Hex(b)| <= n
    decreases b
  {
    if b >= 16 {
      assert n > 1;
      HexShort(b / 16, n - 1);
    }
  }

  lemma HexSize(b: nat)
    requires b <= UINT16_MAX
    ensures 1 <= |Hex(b)| <= 4
  {
    assert Pow16(1) == 16 && Pow16(2) == 0x100 && Pow16(3) == 0x1000 && Pow16(4) == 0x1_0000;
    HexShort(b, 4);
  }

  // ---------------------------------------------------------------- the parser's state

  /** The blocks so far, where `::` was, the number being read and its digits, whether it has
      none, and whether nothing has been read at all. */
  datatype St = St(blocks: seq<nat>, compress: int, block: nat, empty: bool, digits: string, first: bool)

  const START: St := St([], -1, 0, true, "", true)

  /** The common end: the blocks after `::` go to the end, zeros fill the gap. */
  function Done(blocks: seq<nat>, compress: int): Option<seq<nat>> {
    if compress == -1 then if |blocks| != 8 then None else Some(blocks)
    else if 0 <= compress <= |blocks| <= 8 then Some(blocks[..compress] + Zeros(8 - |blocks|) + blocks[compress..])
    else None
  }

  function Finish(st: St): Option<seq<nat>> {
    if !st.empty then Done(st.blocks + [st.block], st.compress)
    else if |st.blocks| != st.compress then None
    else Done(st.blocks, st.compress)
  }

  /** One digit of a block. */
  function Digit(st: St, c: char): Option<St> {
    var d := HexDigit(c);
    if d < 0 then None
    else if st.block > UINT16_MAX / 16 then None
    else if d > UINT16_MAX - 16 * st.block then None
    else Some(St(st.blocks, st.compress, 16 * st.block + d, false, st.digits + [c], false))
  }

  /** One or two colons. */
  function Colon(st: St, double: bool): Option<St> {
    if !st.first && (st.empty || |st.blocks| == 7) then None
    else if st.first && !double then None
    else
      var blocks := if st.first then st.blocks else st.blocks + [st.block];
      if double && st.compress != -1 then None
      else Some(St(blocks, if double then |blocks| else st.compress, 0, true, "", false))
  }

  /** The four decimal numbers of an embedded IPv4 address. */
  function Scan4(s: string, bytes: seq<nat>, byte: nat, empty: bool): Option<seq<nat>> {
    if s == "" then if |bytes| != 3 || empty then None else Some(bytes + [byte])
    else if s[0] == '.' then
      if empty || |bytes| == 3 then None else Scan4(s[1..], bytes + [byte], 0, true)
    else if !empty && byte == 0 then None
    else
      var d := DecDigit(s[0]);
      if d < 0 then None
      else if byte > 25 then None
      else if d > 255 - 10 * byte then None
      else Scan4(s[1..], bytes, 10 * byte + d, false)
  }

  function Ending4(s: string, st: St): Option<seq<nat>> {
    if st.empty || (st.blocks == [] && st.compress == -1) then None
    else
      match Scan4(st.digits + s, [], 0, true)
      case None => None
      case Some(b) =>
        if 8 - |st.blocks| < 2 || |b| != 4 then None
        else Done(st.blocks + [256 * b[0] + b[1], 256 * b[2] + b[3]], st.compress)
  }

  /** ipaddr6_parse_ipv6_addr from some state on. */
  function Scan(s: string, st: St): Option<seq<nat>>
    decreases |s|
  {
    if s == "" then Finish(st)
    else if s[0] == '.' then Ending4(s, st)
    else if s[0] == ':' then
      var double := |s| > 1 && s[1] == ':';
      match Colon(st, double)
      case None => None
      case Some(st') => Scan(s[if double then 2 else 1..], st')
    else
      match Digit(st, s[0])
      case None => None
      case Some(st') => Scan(s[1..], st')
  }

  function Parse(s: string): Option<seq<nat>> {
    Scan(s, START)
  }

  // ---------------------------------------------------------------- printing

  /** Blocks, each with a colon after it or before it. */
  function After(bs: seq<nat>): string {
    if bs == [] then "" else Hex(bs[0]) + ":" + After(bs[1..])
  }

  function Before(bs: seq<nat>): string {
    if bs == [] then "" else ":" + Hex(bs[0]) + Before(bs[1..])
  }

  /** The text when the `len` blocks from `start` on are compressed, none if `len` is at most 1. */
  function Text(bs: seq<nat>, start: nat, len: nat): string
    requires start + len <= |bs|
  {
    if len > 1 then
      After(bs[..start]) + (if start == 0 then ":" else "") + Before(bs[start + len..]) + (if start + len == |bs| then ":" else "")
    else if bs == [] then "" else Hex(bs[0]) + Before(bs[1..])
  }

  ghost predicate ZeroRun(bs: seq<nat>, start: nat, len: nat) {
    start + len <= |bs| && forall i :: start <= i < start + len ==> bs[i] == 0
  }

  /** The first of the longest runs of zero blocks. */
  ghost predicate FirstLongest(bs: seq<nat>, start: nat, len: nat) {
    && ZeroRun(bs, start, len)
    && forall a: nat, n: nat :: ZeroRun(bs, a, n) && n > 0 ==> n < len || (n == len && start <= a)
  }

  // ---------------------------------------------------------------- parsing what was printed

  /** Digits of a number, read from its beginning. */
  lemma {:induction false} ScanHex(b: nat, rest: string, st: St)
    requires b <= UINT16_MAX && st.block == 0 && st.digits == ""
    ensures Scan(Hex(b) + rest, st) == Scan(rest, St(st.blocks, st.compress, b, false, Hex(b), false))
    decreases b
  {
    if b < 16 {
      var s := Hex(b) + rest;
      assert s[0] == HexChar(b) && s[1..] == rest;
      assert "" + [HexChar(b)] == Hex(b);
    } else {
      var c := [HexChar(b % 16)] + rest;
      assert Hex(b) + rest == Hex(b / 16) + c;
      ScanHex(b / 16, c, st);
      assert c[0] == HexChar(b % 16) && c[1..] == rest;
    }
  }

  /** The blocks of a stretch without `::`, with colons between them. */
  function Join(bs: seq<nat>): string {
    if bs == [] then "" else Hex(bs[0]) + Before(bs[1..])
  }

  lemma {:induction false} BeforeIs(bs: seq<nat>)
    requires bs != []
    ensures Before(bs) == ":" + Join(bs)
  {
  }

  lemma Glue(h: string, j: string)
    ensures h + ":" + (j + ":") == (h + (":" + j)) + ":"
  {
  }

  lemma {:induction false} AfterIs(bs: seq<nat>)
    ensures bs != [] ==> After(bs) == Join(bs) + ":"
  {
    if bs != [] {
      var cs := bs[1..];
      assert After(bs) == Hex(bs[0]) + ":" + After(cs) && Join(bs) == Hex(bs[0]) + Before(cs);
      if cs != [] {
        AfterIs(cs);
        BeforeIs(cs);
        hide Before, After, Join, Hex;
        Glue(Hex(bs[0]), Join(cs));
      } else {
        assert After(cs) == "" && Before(cs) == "";
        hide Before, After, Join, Hex;
        assert Hex(bs[0]) + ":" + "" == (Hex(bs[0]) + "") + ":";
      }
    }
  }

  /** The printed text in other words. */
  lemma TextIs(bs: seq<nat>, start: nat, len: nat)
    requires start + len <= |bs|
    ensures Text(bs, start, len) == if len > 1 then Join(bs[..start]) + "::" + Join(bs[start + len..]) else Join(bs)
  {
    if len > 1 {
      var a, b := bs[..start], bs[start + len..];
      AfterIs(a);
      if b != [] {
        BeforeIs(b);
      }
      assert a == [] ==> After(a) == "" && Join(a) == "";
      assert b == [] ==> Before(b) == "" && Join(b) == "";
      hide Before, After, Join;
      var p := if start == 0 then "" else Join(a);
      assert After(a) + (if start == 0 then ":" else "") == p + ":";
      assert Before(b) + (if start + len == |bs| then ":" else "") == ":" + Join(b);
      assert p + ":" + (":" + Join(b)) == p + "::" + Join(b);
      assert (After(a) + (if start == 0 then ":" else "")) + (Before(b) + (if start + len == |bs| then ":" else ""))
        == After(a) + (if start == 0 then ":" else "") + Before(b) + (if start + len == |bs| then ":" else "");
    }
  }

  predicate Fresh(st: St) {
    st.block == 0 && st.empty && st.digits == "" && (st.first ==> st.blocks == [])
  }

  lemma JoinMore(bs: seq<nat>, rest: string)
    requires bs != []
    ensures |bs| == 1 ==> Join(bs) == Hex(bs[0])
    ensures |bs| > 1 ==> Join(bs) + rest == Hex(bs[0]) + (":" + (Join(bs[1..]) + rest))
  {
    var cs := bs[1..];
    assert Join(bs) == Hex(bs[0]) + Before(cs);
    if cs != [] {
      BeforeIs(cs);
    } else {
      assert Before(cs) == "";
    }
    hide Join, Before, Hex;
    assert Hex(bs[0]) + (":" + Join(cs)) + rest == Hex(bs[0]) + (":" + (Join(cs) + rest));
  }

  lemma LastOf(bs: seq<nat>, front: seq<nat>)
    requires |bs| > 1
    ensures bs[1..] != [] && bs[1..][|bs[1..]| - 1] == bs[|bs| - 1]
    ensures front + [bs[0]] + bs[1..][..|bs[1..]| - 1] == front + bs[..|bs| - 1]
  {
    assert bs[..|bs| - 1] == [bs[0]] + bs[1..][..|bs[1..]| - 1];
  }

  /** Blocks with colons between them, read one after the other. */
  lemma {:induction false} ScanJoin(bs: seq<nat>, rest: string, st: St)
    requires bs != [] && Blocks(bs) && Fresh(st) && |st.blocks| + |bs| <= 8
    ensures var last := bs[|bs| - 1];
      Scan(Join(bs) + rest, st) == Scan(rest, St(st.blocks + bs[..|bs| - 1], st.compress, last, false, Hex(last), false))
    decreases |bs|
  {
    hide Hex, Scan, Join;
    JoinMore(bs, rest);
    if |bs| == 1 {
      ScanHex(bs[0], rest, st);
      assert st.blocks + bs[..0] == st.blocks;
    } else {
      var cs, tail := bs[1..], Join(bs[1..]) + rest;
      ScanHex(bs[0], ":" + tail, st);
      JoinStart(cs, rest);
      OneColon(tail, St(st.blocks, st.compress, bs[0], false, Hex(bs[0]), false));
      ScanJoin(cs, rest, St(st.blocks + [bs[0]], st.compress, 0, true, "", false));
      LastOf(bs, st.blocks);
    }
  }

  lemma {:induction false} HexStart(b: nat)
    ensures Hex(b) != "" && Hex(b)[0] != ':'
  {
    if b >= 16 {
      HexStart(b / 16);
    }
  }

  lemma JoinStart(bs: seq<nat>, rest: string)
    requires bs != []
    ensures var s := Join(bs) + rest; s != "" && s[0] != ':'
  {
    HexStart(bs[0]);
    hide Hex;
  }

  lemma OneColon(tail: string, st: St)
    requires tail != "" && tail[0] != ':' && !st.first && !st.empty && |st.blocks| < 7
    ensures Scan(":" + tail, st) == Scan(tail, St(st.blocks + [st.block], st.compress, 0, true, "", false))
  {
    var s := ":" + tail;
    assert s[0] == ':' && s[1] == tail[0] && s[1..] == tail;
  }

  lemma TwoColons(tail: string, st: St)
    requires st.compress == -1 && (if st.first then st.blocks == [] else !st.empty && |st.blocks| < 7)
    ensures var bs := if st.first then [] else st.blocks + [st.block];
      Scan("::" + tail, st) == Scan(tail, St(bs, |bs|, 0, true, "", false))
  {
    var s := "::" + tail;
    assert s[0] == ':' && s[1] == ':' && s[2..] == tail;
  }

  lemma ScanEnd(st: St)
    ensures Scan("", st) == Finish(st)
  {
  }

  /** Reading the blocks up to the end of the text. */
  lemma ScanLast(bs: seq<nat>, st: St)
    requires Blocks(bs) && Fresh(st) && |st.blocks| + |bs| <= 8 && (bs == [] ==> |st.blocks| == st.compress)
    ensures Scan(Join(bs), st) == Done(st.blocks + bs, st.compress)
  {
    hide Scan, Hex, Done;
    if bs == [] {
      ScanEnd(st);
      assert st.blocks + bs == st.blocks;
    } else {
      ScanJoin(bs, "", st);
      assert Join(bs) + "" == Join(bs);
      var last := bs[|bs| - 1];
      var st1 := St(st.blocks + bs[..|bs| - 1], st.compress, last, false, Hex(last), false);
      ScanEnd(st1);
      assert st.blocks + bs[..|bs| - 1] + [last] == st.blocks + bs by {
        assert bs == bs[..|bs| - 1] + [last];
      }
    }
  }

  /** The first part and the double colon. */
  lemma ScanFront(a: seq<nat>, tail: string)
    requires Blocks(a) && |a| <= 6
    ensures Scan(Join(a) + ("::" + tail), START) == Scan(tail, St(a, |a|, 0, true, "", false))
  {
    hide Scan, Join, Hex;
    if a == [] {
      JoinEmpty();
      assert "" + ("::" + tail) == "::" + tail;
      TwoColons(tail, START);
    } else {
      ScanJoin(a, "::" + tail, START);
      var front, last := a[..|a| - 1], a[|a| - 1];
      assert [] + front == front;
      TwoColons(tail, St(front, -1, last, false, Hex(last), false));
      assert front + [last] == a;
    }
  }

  lemma DoneGap(a: seq<nat>, len: nat, b: seq<nat>)
    requires |a| + len + |b| == 8
    ensures Done(a + b, |a|) == Some(a + Zeros(len) + b)
  {
    assert (a + b)[..|a|] == a && (a + b)[|a|..] == b;
  }

  lemma ParseCompressed(a: seq<nat>, len: nat, b: seq<nat>)
    requires Blocks(a) && Blocks(b) && len > 1 && |a| + len + |b| == 8
    ensures Parse(Join(a) + "::" + Join(b)) == Some(a + Zeros(len) + b)
  {
    hide Scan, Join;
    assert Join(a) + "::" + Join(b) == Join(a) + ("::" + Join(b));
    ScanFront(a, Join(b));
    ScanLast(b, St(a, |a|, 0, true, "", false));
    DoneGap(a, len, b);
  }

  /** Any printed form of an address is read back as that address. */
  lemma ParseText(bs: seq<nat>, start: nat, len: nat)
    requires |bs| == 8 && Blocks(bs) && ZeroRun(bs, start, len)
    ensures Parse(Text(bs, start, len)) == Some(bs)
  {
    TextIs(bs, start, len);
    hide Text, Scan, Join;
    if len <= 1 {
      ScanLast(bs, START);
      assert [] + bs == bs;
    } else {
      var a, b := bs[..start], bs[start + len..];
      ParseCompressed(a, len, b);
      assert bs == a + Zeros(len) + b;
    }
  }

  lemma JoinEmpty()
    ensures Join([]) == ""
  {
  }

  // ---------------------------------------------------------------- sizes

  lemma {:induction false} JoinSize(bs: seq<nat>)
    requires Blocks(bs)
    ensures |Join(bs)| <= if bs == [] then 0 else 5 * |bs| - 1
  {
    if bs != [] {
      HexSize(bs[0]);
      JoinSize(bs[1..]);
      if bs[1..] != [] {
        BeforeIs(bs[1..]);
      }
    }
  }

  const PRINT_MAX: int := 44

  /** With the longest prefix length and the end of the string it still fits. */
  lemma TextSize(bs: seq<nat>, start: nat, len: nat)
    requires |bs| == 8 && Blocks(bs) && start + len <= |bs|
    ensures |Text(bs, start, len)| + |"/128"| + 1 <= PRINT_MAX
  {
    TextIs(bs, start, len);
    hide Text;
    if len > 1 {
      JoinSize(bs[..start]);
      JoinSize(bs[start + len..]);
    } else {
      JoinSize(bs);
    }
  }

  // ---------------------------------------------------------------- addresses with a prefix length

  function Dec(n: nat): string {
    if n < 10 then [HexChar(n)] else Dec(n / 10) + [HexChar(n % 10)]
  }

  function DecVal(s: string, n: nat): Option<nat> {
    if s == "" then Some(n)
    else if DecDigit(s[0]) < 0 then None
    else DecVal(s[1..], 10 * n + DecDigit(s[0]))
  }

  /** ipaddr6_parse_ipv6_prefix */
  function ParsePrefix(s: string): Option<nat> {
    if s == "" then None
    else match DecVal(s, 0)
      case None => None
      case Some(d) => if d > 128 then None else Some(d)
  }

  function FindChar(s: string, c: char): nat {
    if s == "" || s[0] == c then 0 else 1 + FindChar(s[1..], c)
  }

  /** ipaddr6_parse_ipv6_ifaddr */
  function ParseIfaddr(s: string): Option<(seq<nat>, nat)> {
    var k := FindChar(s, '/');
    if k >= |s| then None
    else match Parse(s[..k])
      case None => None
      case Some(addr) => match ParsePrefix(s[k + 1..])
        case None => None
        case Some(prefix) => Some((addr, prefix))
  }

  function TextIfaddr(bs: seq<nat>, start: nat, len: nat, prefix: nat): string
    requires start + len <= |bs|
  {
    Text(bs, start, len) + "/" + Dec(prefix)
  }

  lemma {:induction false} DecValDec(n: nat, rest: string)
    ensures DecVal(Dec(n) + rest, 0) == DecVal(rest, n) && Dec(n) != ""
  {
    if n < 10 {
      assert (Dec(n) + rest)[0] == HexChar(n) && (Dec(n) + rest)[1..] == rest;
    } else {
      var c := [HexChar(n % 10)] + rest;
      assert Dec(n) + rest == Dec(n / 10) + c;
      DecValDec(n / 10, c);
      assert c[0] == HexChar(n % 10) && c[1..] == rest;
    }
  }

  lemma {:induction false} HexNoSlash(b: nat)
    ensures '/' !in Hex(b)
  {
    if b >= 16 {
      HexNoSlash(b / 16);
    }
  }

  lemma {:induction false} JoinNoSlash(bs: seq<nat>)
    ensures '/' !in Join(bs)
  {
    if bs != [] {
      HexNoSlash(bs[0]);
      if bs[1..] != [] {
        BeforeIs(bs[1..]);
        JoinNoSlash(bs[1..]);
      }
    }
  }

  lemma {:induction false} FindFirst(s: string, rest: string, c: char)
    requires c !in s
    ensures FindChar(s + [c] + rest, c) == |s|
  {
    if s == "" {
      assert s + [c] + rest == [c] + rest;
    } else {
      FindFirst(s[1..], rest, c);
      assert (s + [c] + rest)[1..] == s[1..] + [c] + rest && s == [s[0]] + s[1..];
    }
  }

  lemma TextNoSlash(bs: seq<nat>, start: nat, len: nat)
    requires start + len <= |bs|
    ensures '/' !in Text(bs, start, len)
  {
    TextIs(bs, start, len);
    hide Text;
    JoinNoSlash(bs);
    JoinNoSlash(bs[..start]);
    JoinNoSlash(bs[start + len..]);
    hide Join;
  }

  lemma SplitAtSlash(t: string, d: string)
    requires '/' !in t
    ensures var s := t + "/" + d;
      FindChar(s, '/') == |t| < |s| && s[..|t|] == t && s[|t| + 1..] == d
  {
    FindFirst(t, d, '/');
    assert "/" == ['/'];
  }

  lemma ParseDec(prefix: nat)
    requires prefix <= 128
    ensures ParsePrefix(Dec(prefix)) == Some(prefix)
  {
    DecValDec(prefix, "");
    assert Dec(prefix) + "" == Dec(prefix);
  }

  /** Printing an address with its prefix length and reading it gives both back. */
  lemma ParseTextIfaddr(bs: seq<nat>, start: nat, len: nat, prefix: nat)
    requires |bs| == 8 && Blocks(bs) && ZeroRun(bs, start, len) && prefix <= 128
    ensures ParseIfaddr(TextIfaddr(bs, start, len, prefix)) == Some((bs, prefix))
  {
    assert start + len <= |bs|;
    hide Text, Scan, Join, Dec, FindChar, Parse, ParsePrefix, ZeroRun;
    ParseText(bs, start, len);
    TextNoSlash(bs, start, len);
    SplitAtSlash(Text(bs, start, len), Dec(prefix));
    ParseDec(prefix);
  }

  // ---------------------------------------------------------------- printing, in place

  function BlockAt(addr: seq<byte>, i: nat): nat
    requires 2 * i + 1 < |addr|
  {
    256 * (addr[2 * i] as int) + (addr[2 * i + 1] as int)
  }

  function BlocksOf(addr: seq<byte>): (bs: seq<nat>)
    requires |addr| == 16
    ensures Blocks(bs) && |bs| == 8
  {
    seq(8, i requires 0 <= i < 8 => BlockAt(addr, i))
  }

  lemma {:induction false} AfterSnoc(bs: seq<nat>, b: nat)
    ensures After(bs + [b]) == After(bs) + Hex(b) + ":"
  {
    if bs == [] {
      assert bs + [b] == [b] && [b][1..] == [];
    } else {
      AfterSnoc(bs[1..], b);
      assert (bs + [b])[1..] == bs[1..] + [b];
    }
  }

  lemma {:induction false} BeforeSnoc(bs: seq<nat>, b: nat)
    ensures Before(bs + [b]) == Before(bs) + (":" + Hex(b))
  {
    if bs == [] {
      assert bs + [b] == [b] && [b][1..] == [];
    } else {
      BeforeSnoc(bs[1..], b);
      assert (bs + [b])[1..] == bs[1..] + [b];
    }
  }

  /** The first loop of ipaddr6_print_addr. */
  method LargestRun(addr: seq<byte>) returns (largestStart: nat, largestLen: nat)
    requires |addr| == 16
    ensures FirstLongest(BlocksOf(addr), largestStart, largestLen)
  {
    ghost var bs := BlocksOf(addr);
    largestStart, largestLen := 0, 0;
    var currentStart: nat, currentLen: nat := 0, 0;
    for i := 0 to 8
      invariant currentStart + currentLen == i && ZeroRun(bs, currentStart, currentLen)
      invariant currentStart > 0 ==> bs[currentStart - 1] != 0
      invariant ZeroRun(bs, largestStart, largestLen) && largestStart + largestLen <= i && currentLen <= largestLen
      invariant forall a: nat, n: nat :: ZeroRun(bs, a, n) && n > 0 && a + n <= i ==> n < largestLen || (n == largestLen && largestStart <= a)
    {
      assert bs[i] == BlockAt(addr, i);
      if addr[2 * i] == 0 && addr[2 * i + 1] == 0 {
        RunsUpTo(bs, i, currentStart, currentLen);
        currentLen := currentLen + 1;
        if currentLen > largestLen {
          largestStart, largestLen := currentStart, currentLen;
        }
      } else {
        currentStart, currentLen := i + 1, 0;
      }
    }
  }

  /** The runs that end with a zero block begin where the current one begins, or later. */
  lemma RunsUpTo(bs: seq<nat>, i: nat, start: nat, len: nat)
    requires i < |bs| && start + len == i && ZeroRun(bs, start, len) && bs[i] == 0 && (start > 0 ==> bs[start - 1] != 0)
    ensures ZeroRun(bs, start, len + 1)
    ensures forall a: nat, n: nat :: ZeroRun(bs, a, n) && n > 0 && a + n == i + 1 ==> start <= a
  {
  }

  method PrintCompressed(addr: seq<byte>, largestStart: nat, largestLen: nat) returns (out: string)
    requires |addr| == 16 && largestStart + largestLen <= 8 && largestLen > 1
    ensures out == Text(BlocksOf(addr), largestStart, largestLen)
  {
    hide Hex, After, Before;
    ghost var bs := BlocksOf(addr);
    out := "";
    AfterNone();
    for i := 0 to largestStart
      invariant out == After(bs[..i])
    {
      assert bs[..i + 1] == bs[..i] + [bs[i]];
      AfterSnoc(bs[..i], bs[i]);
      out := out + Hex(BlockAt(addr, i)) + ":";
    }
    if largestStart == 0 {
      out := out + ":";
    }
    ghost var front, k := out, largestStart + largestLen;
    assert bs[k..k] == [];
    for i := largestStart + largestLen to 8
      invariant out == front + Before(bs[k..i])
    {
      assert bs[k..i + 1] == bs[k..i] + [bs[i]];
      BeforeSnoc(bs[k..i], bs[i]);
      assert front + Before(bs[k..i]) + (":" + Hex(bs[i])) == front + (Before(bs[k..i]) + (":" + Hex(bs[i])));
      out := out + (":" + Hex(BlockAt(addr, i)));
    }
    assert bs[k..8] == bs[k..];
    if largestStart + largestLen == 8 {
      out := out + ":";
    }
  }

  lemma AfterNone()
    ensures After([]) == "" && Before([]) == ""
  {
  }

  method PrintPlain(addr: seq<byte>) returns (out: string)
    requires |addr| == 16
    ensures out == Join(BlocksOf(addr))
  {
    hide Hex, Before;
    ghost var bs := BlocksOf(addr);
    out := "";
    var prefix := "";
    AfterNone();
    for i := 0 to 8
      invariant prefix == if i == 0 then "" else ":"
      invariant out == if i == 0 then "" else Hex(bs[0]) + Before(bs[1..i])
    {
      if i > 0 {
        assert bs[1..i + 1] == bs[1..i] + [bs[i]];
        BeforeSnoc(bs[1..i], bs[i]);
      } else {
        assert bs[1..1] == [];
      }
      out := out + (prefix + Hex(BlockAt(addr, i)));
      prefix := ":";
    }
    assert bs[1..8] == bs[1..];
  }

  /** ipaddr6_print_addr: the first longest run of at least two zero blocks is compressed. */
  method PrintAddr(addr: seq<byte>) returns (out: string, ghost start: nat, ghost len: nat)
    requires |addr| == 16
    ensures FirstLongest(BlocksOf(addr), start, len) && out == Text(BlocksOf(addr), start, len)
    ensures forall i: nat :: i < 8 ==> BlocksOf(addr)[i] == 256 * (addr[2 * i] as int) + (addr[2 * i + 1] as int)
    ensures Parse(out) == Some(BlocksOf(addr)) && |out| + |"/128"| + 1 <= PRINT_MAX
  {
    hide FirstLongest, Text, Parse, Join;
    ghost var bs := BlocksOf(addr);
    var largestStart, largestLen := LargestRun(addr);
    start, len := largestStart, largestLen;
    RunOfFirst(bs, start, len);
    ParseText(bs, start, len);
    TextSize(bs, start, len);
    TextIs(bs, start, len);
    if largestLen > 1 {
      out := PrintCompressed(addr, largestStart, largestLen);
    } else {
      out := PrintPlain(addr);
    }
  }

  lemma RunOfFirst(bs: seq<nat>, start: nat, len: nat)
    requires FirstLongest(bs, start, len)
    ensures ZeroRun(bs, start, len) && start + len <= |bs|
  {
  }

  // ---------------------------------------------------------------- parsing, in place

  /** The first bytes of `out` hold the blocks. */
  ghost predicate Holds(out: seq<byte>, bs: seq<nat>) {
    2 * |bs| <= |out| == 16 && forall k :: 0 <= k < |bs| ==> BlockAt(out, k) == bs[k]
  }

  lemma HoldsNext(out: seq<byte>, out': seq<byte>, bs: seq<nat>, b: nat)
    requires Holds(out, bs) && |out'| == 16 && |bs| < 8 && b <= UINT16_MAX
    requires forall k :: 0 <= k < 2 * |bs| ==> out'[k] == out[k]
    requires (out'[2 * |bs|] as int) == b / 256 && (out'[2 * |bs| + 1] as int) == b % 256
    ensures Holds(out', bs + [b])
  {
  }

  /** Where in the text the parser is: what is left gives the result, and the digits of the number
      being read are the characters since the last colon. */
  ghost predicate Reading(name: string, i: nat, st: St) {
    && i <= |name| && Parse(name) == Scan(name[i..], st) && (st.first <==> i == 0)
    && |st.digits| <= i && name[i - |st.digits|..i] == st.digits && ':' !in st.digits && (st.empty <==> st.digits == "")
    && (|st.digits| < i ==> name[i - |st.digits| - 1] == ':')
    && (st.blocks != [] || st.compress != -1 ==> |st.digits| < i)
    && |st.blocks| <= 7 && -1 <= st.compress <= |st.blocks| && st.block <= UINT16_MAX
    && (st.first ==> st.blocks == [] && st.compress == -1 && st.block == 0 && st.empty)
  }

  lemma ReadingStart(name: string)
    ensures Reading(name, 0, START)
  {
    assert name[0..] == name;
  }

  lemma ReadingDigit(name: string, i: nat, st: St)
    requires Reading(name, i, st) && i < |name| && name[i] != '.' && name[i] != ':'
    ensures Digit(st, name[i]).None? ==> Parse(name) == None
    ensures Digit(st, name[i]).Some? ==> Reading(name, i + 1, Digit(st, name[i]).value)
  {
    var s := name[i..];
    assert s[0] == name[i] && s[1..] == name[i + 1..];
    if Digit(st, name[i]).Some? {
      var st' := Digit(st, name[i]).value;
      assert name[i + 1 - |st'.digits|..i + 1] == name[i - |st.digits|..i] + [name[i]];
    }
  }

  lemma ReadingColon(name: string, i: nat, st: St)
    requires Reading(name, i, st) && i < |name| && name[i] == ':'
    ensures var double := i + 1 < |name| && name[i + 1] == ':';
      && (Colon(st, double).None? ==> Parse(name) == None)
      && (Colon(st, double).Some? ==> Reading(name, if double then i + 2 else i + 1, Colon(st, double).value))
  {
    var s, double := name[i..], i + 1 < |name| && name[i + 1] == ':';
    assert s[0] == name[i] && s[1..] == name[i + 1..] && (double ==> s[1] == ':' && s[2..] == name[i + 2..]);
    var n := if double then i + 2 else i + 1;
    assert n <= |name| && name[n..n] == "";
  }

  lemma ReadingEnd(name: string, st: St)
    requires Reading(name, |name|, st)
    ensures Parse(name) == Finish(st)
  {
    assert name[|name|..] == "";
  }

  lemma ReadingDot(name: string, i: nat, st: St)
    requires Reading(name, i, st) && i < |name| && name[i] == '.'
    ensures Parse(name) == Ending4(name[i..], st)
    ensures st.digits + name[i..] == name[i - |st.digits|..]
  {
    assert name[i..][0] == '.';
    assert name[i - |st.digits|..] == name[i - |st.digits|..i] + name[i..];
  }

  /** ipaddr6_parse_ipv6_addr. What is in `out` after a failure does not matter. */
  method ParseAddr(name: string, out: array<byte>) returns (ok: bool)
    requires out.Length == 16
    modifies out
    ensures ok <==> Parse(name).Some?
    ensures ok ==> Parse(name) == Some(BlocksOf(out[..]))
    ensures ok ==> forall i: nat :: i < 8 ==> 256 * (out[2 * i] as int) + (out[2 * i + 1] as int) == BlocksOf(out[..])[i]
  {
    hide Reading, Scan, Holds;
    var numBlocks: nat, compressPos: int := 0, -1;
    var block: nat, empty := 0, true;
    var i: nat := 0;
    ghost var st := START;
    ReadingStart(name);
    HoldsNone(out[..]);
    while i < |name|
      invariant Reading(name, i, st) && Holds(out[..], st.blocks)
      invariant |st.blocks| == numBlocks && st.compress == compressPos && st.block == block && st.empty == empty
      decreases |name| - i
    {
      ReadingBounds(name, i, st);
      if name[i] == '.' {
        ok := ParseEnding4(name, i, numBlocks, compressPos, empty, out, st);
        return;
      } else if name[i] == ':' {
        var isDouble := i + 1 < |name| && name[i + 1] == ':';
        ReadingColon(name, i, st);
        ghost var c := Colon(st, isDouble);
        if i > 0 {
          if empty || numBlocks == 7 {
            return false;
          }
          StoreBlock(numBlocks, block, out, st.blocks);
          numBlocks, block, empty := numBlocks + 1, 0, true;
        } else if !isDouble {
          return false;
        }
        if isDouble {
          if compressPos != -1 {
            return false;
          }
          compressPos := numBlocks;
        }
        st := c.value;
        i := if isDouble then i + 2 else i + 1;
      } else {
        ReadingDigit(name, i, st);
        ghost var c := Digit(st, name[i]);
        var digit := HexDigit(name[i]);
        if digit < 0 {
          return false;
        }
        if block > UINT16_MAX / 16 {
          return false;
        }
        block := block * 16;
        if digit > UINT16_MAX - block {
          return false;
        }
        block := block + digit;
        empty := false;
        st := c.value;
        i := i + 1;
      }
    }
    ReadingBounds(name, i, st);
    ReadingEnd(name, st);
    ghost var blocks := st.blocks;
    if !empty {
      StoreBlock(numBlocks, block, out, blocks);
      blocks := blocks + [block];
      numBlocks := numBlocks + 1;
    } else if numBlocks != compressPos {
      return false;
    }
    ok := Finishing(numBlocks, compressPos, out, blocks);
  }

  lemma HoldsNone(out: seq<byte>)
    requires |out| == 16
    ensures Holds(out, [])
  {
  }

  lemma ReadingBounds(name: string, i: nat, st: St)
    requires Reading(name, i, st)
    ensures i <= |name| && |st.blocks| <= 7 && -1 <= st.compress <= |st.blocks| && st.block <= UINT16_MAX && (st.first <==> i == 0)
    ensures st.first ==> st.blocks == [] && st.compress == -1 && st.block == 0 && st.empty
  {
  }

  method StoreBlock(n: nat, block: nat, out: array<byte>, ghost bs: seq<nat>)
    requires out.Length == 16 && n == |bs| < 8 && block <= UINT16_MAX && Holds(out[..], bs)
    modifies out
    ensures Holds(out[..], bs + [block])
  {
    ghost var was := out[..];
    hide Holds;
    out[2 * n] := block / 256;
    out[2 * n + 1] := block % 256;
    HoldsNext(was, out[..], bs, block);
  }

  /** The end of the parser: the blocks behind `::` are moved, the gap is filled. */
  method Finishing(numBlocks: nat, compress: int, out: array<byte>, ghost bs: seq<nat>) returns (ok: bool)
    requires out.Length == 16 && numBlocks == |bs| <= 8 && Holds(out[..], bs) && -1 <= compress <= numBlocks
    modifies out
    ensures ok <==> Done(bs, compress).Some?
    ensures ok ==> Done(bs, compress) == Some(BlocksOf(out[..]))
  {
    var compressPos := compress;
    if compressPos == -1 {
      if numBlocks != 8 {
        return false;
      }
      compressPos := 0;
    }
    ghost var was := out[..];
    var numRear := numBlocks - compressPos;
    forall k | 0 <= k < 2 * numRear {
      out[2 * (8 - numRear) + k] := out[2 * compressPos + k];
    }
    ghost var moved := out[..];
    forall k | 0 <= k < 2 * (8 - numRear - compressPos) {
      out[2 * compressPos + k] := 0;
    }
    MovedBlocks(was, moved, out[..], bs, compressPos);
    if compress == -1 {
      assert bs[..0] + Zeros(0) + bs[0..] == bs;
    }
    ok := true;
  }

  lemma MovedBlocks(was: seq<byte>, moved: seq<byte>, out: seq<byte>, bs: seq<nat>, c: nat)
    requires |was| == |moved| == |out| == 16 && c <= |bs| <= 8 && Holds(was, bs)
    requires var rear := |bs| - c; var to := 2 * (8 - rear);
      && (forall j :: to <= j < 16 ==> moved[j] == was[j - to + 2 * c])
      && (forall j :: 0 <= j < to ==> moved[j] == was[j])
      && (forall j :: 2 * c <= j < to ==> out[j] == 0)
      && (forall j :: 0 <= j < 2 * c || to <= j < 16 ==> out[j] == moved[j])
    ensures BlocksOf(out) == bs[..c] + Zeros(8 - |bs|) + bs[c..]
  {
    var rear := |bs| - c;
    var r := bs[..c] + Zeros(8 - |bs|) + bs[c..];
    forall i | 0 <= i < 8 ensures BlockAt(out, i) == r[i] {
      if i < c {
        assert BlockAt(was, i) == bs[i];
      } else if i >= 8 - rear {
        assert BlockAt(was, i - (8 - rear) + c) == bs[i - (8 - rear) + c];
      }
    }
  }

  /** ipv4_ending: back to the last colon, then four decimal numbers. */
  method ParseEnding4(name: string, dot: nat, numBlocks: nat, compressPos: int, isEmpty: bool, out: array<byte>, ghost st: St)
    returns (ok: bool)
    requires Reading(name, dot, st) && dot < |name| && name[dot] == '.' && out.Length == 16 && Holds(out[..], st.blocks)
    requires |st.blocks| == numBlocks && st.compress == compressPos && st.empty == isEmpty
    modifies out
    ensures ok <==> Parse(name).Some?
    ensures ok ==> Parse(name) == Some(BlocksOf(out[..]))
  {
    ReadingDot(name, dot, st);
    if isEmpty || (numBlocks == 0 && compressPos == -1) {
      return false;
    }
    var i := dot;
    while name[i - 1] != ':'
      invariant dot - |st.digits| <= i <= dot
      decreases i
    {
      assert i > dot - |st.digits|;
      i := i - 1;
    }
    LastColon(name, dot, i, st);
    hide Reading, Holds, Parse;
    var some, bytes := ParseFour(name, i);
    if !some || 8 - numBlocks < 2 {
      return false;
    }
    StoreBlock(numBlocks, 256 * bytes[0] + bytes[1], out, st.blocks);
    StoreBlock(numBlocks + 1, 256 * bytes[2] + bytes[3], out, st.blocks + [256 * bytes[0] + bytes[1]]);
    ghost var bs := st.blocks + [256 * bytes[0] + bytes[1]] + [256 * bytes[2] + bytes[3]];
    assert bs == st.blocks + [256 * bytes[0] + bytes[1], 256 * bytes[2] + bytes[3]];
    ok := Finishing(numBlocks + 2, compressPos, out, bs);
  }

  lemma DigitsNoColon(name: string, dot: nat, st: St)
    requires Reading(name, dot, st)
    ensures forall j :: dot - |st.digits| <= j < dot ==> name[j] != ':'
  {
    forall j | dot - |st.digits| <= j < dot ensures name[j] != ':' {
      assert name[j] == st.digits[j - (dot - |st.digits|)];
    }
  }

  /** The digits begin behind the last colon. */
  lemma LastColon(name: string, dot: nat, i: nat, st: St)
    requires Reading(name, dot, st) && dot <= |name| && dot - |st.digits| <= i <= dot && 0 < i && name[i - 1] == ':'
    ensures i == dot - |st.digits|
  {
    DigitsNoColon(name, dot, st);
  }

  /** The four numbers, each at most 255 and without leading zeros. */
  method ParseFour(name: string, start: nat) returns (ok: bool, bytes: seq<nat>)
    requires start <= |name|
    ensures ok <==> Scan4(name[start..], [], 0, true).Some?
    ensures ok ==> Scan4(name[start..], [], 0, true) == Some(bytes) && |bytes| == 4 && forall k :: 0 <= k < 4 ==> bytes[k] <= 255
  {
    bytes := [];
    var byte: nat, empty, i := 0, true, start;
    while i < |name|
      invariant start <= i <= |name| && |bytes| <= 3 && byte <= 255 && forall k :: 0 <= k < |bytes| ==> bytes[k] <= 255
      invariant Scan4(name[start..], [], 0, true) == Scan4(name[i..], bytes, byte, empty)
    {
      ghost var s := name[i..];
      assert s[0] == name[i] && s[1..] == name[i + 1..];
      if name[i] == '.' {
        if empty || |bytes| == 3 {
          return false, [];
        }
        bytes, byte, empty := bytes + [byte], 0, true;
      } else {
        if !empty && byte == 0 {
          return false, [];
        }
        var digit := DecDigit(name[i]);
        if digit < 0 {
          return false, [];
        }
        if byte > 255 / 10 {
          return false, [];
        }
        byte := byte * 10;
        if digit > 255 - byte {
          return false, [];
        }
        byte, empty := byte + digit, false;
      }
      i := i + 1;
    }
    assert name[i..] == "";
    if |bytes| != 3 || empty {
      return false, [];
    }
    bytes, ok := bytes + [byte], true;
  }
}
