/** The digits in the text of an address. */
module Ipv6Digits {
  // What a digit stands for is said by its place in these two strings.

  import opened Bytes
  import opened Options
  import opened Ipv6Text

  const LOWER := "0123456789abcdef"
  const UPPER := "0123456789ABCDEF"

  lemma Tables()
    ensures |LOWER| == |UPPER| == 16
    ensures forall k :: 0 <= k < 10 ==> LOWER[k] as int == UPPER[k] as int == '0' as int + k
    ensures forall k :: 10 <= k < 16 ==> LOWER[k] as int == 'a' as int + k - 10 && UPPER[k] as int == 'A' as int + k - 10
  {
  }

  lemma HexDigitExact(c: char, k: nat)
    requires k < 16
    ensures HexDigit(c) == k <==> c == LOWER[k] || c == UPPER[k]
    ensures HexDigit(c) == -1 <==> c !in LOWER && c !in UPPER
  {
    Tables();
    var d := HexDigit(c);
    if d >= 0 {
      assert c == LOWER[d] || c == UPPER[d];
    }
  }

  lemma DecDigitExact(c: char, k: nat)
    requires k < 10
    ensures DecDigit(c) == k <==> c == LOWER[k]
    ensures DecDigit(c) == -1 <==> c !in LOWER[..10]
  {
    Tables();
    var d := DecDigit(c);
    if d >= 0 {
      assert c == LOWER[..10][d];
    }
  }

  // ---------------------------------------------------------------- the place of a digit

  lemma {:induction false} FoundAt(s: string, c: char)
    ensures c in s ==> FindChar(s, c) < |s| && s[FindChar(s, c)] == c
    ensures c !in s ==> FindChar(s, c) == |s|
    ensures c !in s[..FindChar(s, c)]
  {
    if s != "" && s[0] != c {
      FoundAt(s[1..], c);
      assert s == [s[0]] + s[1..];
      assert s[..FindChar(s, c)] == [s[0]] + s[1..][..FindChar(s[1..], c)];
    }
  }

  function Place(c: char): (d: int)
    ensures -1 <= d < 16
  {
    FoundAt(LOWER, c);
    FoundAt(UPPER, c);
    if c in LOWER then FindChar(LOWER, c) else if c in UPPER then FindChar(UPPER, c) else -1
  }

  lemma PlaceIs(c: char)
    ensures Place(c) == HexDigit(c)
  {
    FoundAt(LOWER, c);
    FoundAt(UPPER, c);
    if c in LOWER {
      HexDigitExact(c, FindChar(LOWER, c));
    } else if c in UPPER {
      HexDigitExact(c, FindChar(UPPER, c));
    } else {
      HexDigitExact(c, 0);
    }
  }

  lemma Places()
    ensures forall c {:trigger Place(c)} {:trigger HexDigit(c)} :: Place(c) == HexDigit(c)
  {
    forall c ensures Place(c) == HexDigit(c) {
      PlaceIs(c);
    }
  }

  // ---------------------------------------------------------------- small letters

  function LowerChar(c: char): char {
    if 'A' <= c <= 'Z' then (c as int - 'A' as int + 'a' as int) as char else c
  }

  function Lower(s: string): string {
    seq(|s|, i requires 0 <= i < |s| => LowerChar(s[i]))
  }

  lemma LowerChars(c: char)
    ensures HexDigit(LowerChar(c)) == HexDigit(c) && DecDigit(LowerChar(c)) == DecDigit(c)
    ensures LowerChar(c) == ':' <==> c == ':'
    ensures LowerChar(c) == '.' <==> c == '.'
  {
  }

  lemma LowerTail(s: string, k: nat)
    requires k <= |s|
    ensures Lower(s)[k..] == Lower(s[k..])
  {
  }

  lemma LowerJoin(s: string, t: string)
    ensures Lower(s) + Lower(t) == Lower(s + t)
  {
  }

  lemma {:induction false} Scan4Lower(s: string, bytes: seq<nat>, byte: nat, empty: bool)
    ensures Scan4(Lower(s), bytes, byte, empty) == Scan4(s, bytes, byte, empty)
    decreases |s|
  {
    if s != "" {
      LowerChars(s[0]);
      LowerTail(s, 1);
      if s[0] == '.' {
        if !empty && |bytes| != 3 {
          Scan4Lower(s[1..], bytes + [byte], 0, true);
        }
      } else if 0 <= DecDigit(s[0]) && (empty || byte != 0) && byte <= 25 && DecDigit(s[0]) <= 255 - 10 * byte {
        Scan4Lower(s[1..], bytes, 10 * byte + DecDigit(s[0]), false);
      }
    }
  }

  function LowerSt(st: St): St {
    St(st.blocks, st.compress, st.block, st.empty, Lower(st.digits), st.first)
  }

  lemma {:induction false} ScanLower(s: string, st: St)
    ensures Scan(Lower(s), LowerSt(st)) == Scan(s, st)
    decreases |s|
  {
    hide Done, Scan4;
    if s != "" {
      LowerChars(s[0]);
      LowerTail(s, 1);
      if s[0] == '.' {
        LowerJoin(st.digits, s);
        Scan4Lower(st.digits + s, [], 0, true);
      } else if s[0] == ':' {
        var double := |s| > 1 && s[1] == ':';
        if double {
          LowerTail(s, 2);
        }
        if |s| > 1 {
          LowerChars(s[1]);
        }
        if Colon(st, double).Some? {
          assert Lower("") == "";
          assert Colon(LowerSt(st), double) == Some(LowerSt(Colon(st, double).value));
          ScanLower(s[if double then 2 else 1..], Colon(st, double).value);
        }
      } else if Digit(st, s[0]).Some? {
        LowerJoin(st.digits, [s[0]]);
        assert Lower([s[0]]) == [LowerChar(s[0])];
        assert Digit(LowerSt(st), LowerChar(s[0])) == Some(LowerSt(Digit(st, s[0]).value));
        ScanLower(s[1..], Digit(st, s[0]).value);
      }
    }
  }

  /** The size of a letter makes no difference, in any text. */
  lemma ParseLower(s: string)
    ensures Parse(Lower(s)) == Parse(s)
  {
    ScanLower(s, START);
    assert Lower("") == "";
  }

  // ---------------------------------------------------------------- prefix lengths

  /** Decimal digits and nothing else. */
  predicate Decimal(s: string) {
    s != "" && forall i :: 0 <= i < |s| ==> s[i] in LOWER[..10]
  }

  /** Their value: the last one counts once, those before it ten times as much. */
  function Value(s: string): (n: nat)
    requires forall i :: 0 <= i < |s| ==> s[i] in LOWER[..10]
  {
    if s == "" then 0
    else
      FoundAt(LOWER, s[|s| - 1]);
      10 * Value(s[..|s| - 1]) + FindChar(LOWER, s[|s| - 1])
  }

  lemma {:induction false} DecValSnoc(s: string, c: char, n: nat)
    ensures DecVal(s + [c], n) ==
      if DecVal(s, n).None? || DecDigit(c) < 0 then None else Some(10 * DecVal(s, n).value + DecDigit(c))
  {
    if s == "" {
      assert s + [c] == [c] && [c][1..] == "";
    } else {
      assert (s + [c])[1..] == s[1..] + [c];
      if DecDigit(s[0]) >= 0 {
        DecValSnoc(s[1..], c, 10 * n + DecDigit(s[0]));
      }
    }
  }

  lemma DecPlace(c: char)
    ensures DecDigit(c) >= 0 <==> c in LOWER[..10]
    ensures c in LOWER[..10] ==> DecDigit(c) == FindChar(LOWER, c)
  {
    Tables();
    FoundAt(LOWER, c);
    DecDigitExact(c, 0);
    if c in LOWER[..10] {
      DecDigitExact(c, DecDigit(c));
      assert c in LOWER;
    }
  }

  lemma {:induction false} DecValExact(s: string)
    ensures DecVal(s, 0).Some? <==> forall i :: 0 <= i < |s| ==> s[i] in LOWER[..10]
    ensures DecVal(s, 0).Some? ==> DecVal(s, 0) == Some(Value(s))
    decreases |s|
  {
    if s != "" {
      var f, c := s[..|s| - 1], s[|s| - 1];
      assert s == f + [c];
      DecValExact(f);
      DecValSnoc(f, c, 0);
      DecPlace(c);
      hide DecVal, DecDigit, FindChar;
    }
  }

  /** A prefix length is any decimal number up to 128. */
  lemma PrefixExact(s: string, n: nat)
    ensures ParsePrefix(s) == Some(n) <==> Decimal(s) && Value(s) == n && n <= 128
  {
    DecValExact(s);
    hide DecVal;
  }

  /** An address, a slash, and a prefix length. */
  lemma IfaddrExact(s: string, bs: seq<nat>, n: nat)
    ensures ParseIfaddr(s) == Some((bs, n)) <==>
      exists a, d :: s == a + "/" + d && '/' !in a && Parse(a) == Some(bs) && Decimal(d) && Value(d) == n && n <= 128
  {
    hide Parse, DecVal;
    var k := FindChar(s, '/');
    FoundAt(s, '/');
    if ParseIfaddr(s) == Some((bs, n)) {
      var a, d := s[..k], s[k + 1..];
      assert s == a + "/" + d;
      PrefixExact(d, n);
    }
    forall a, d | s == a + "/" + d && '/' !in a && Parse(a) == Some(bs) && Decimal(d) && Value(d) == n && n <= 128
      ensures ParseIfaddr(s) == Some((bs, n))
    {
      FindFirst(a, d, '/');
      assert s[..k] == a && s[k + 1..] == d;
      PrefixExact(d, n);
    }
  }

  // ---------------------------------------------------------------- what is printed

  /** Colons and digits, with small letters only. */
  predicate Small(s: string) {
    forall i :: 0 <= i < |s| ==> s[i] == ':' || s[i] in LOWER
  }

  /** A zero at the beginning of a block is the whole block. */
  predicate NoLeadingZero(s: string) {
    forall i {:trigger s[i]} :: 0 <= i < |s| && s[i] == '0' && (i == 0 || s[i - 1] == ':') ==> i + 1 == |s| || s[i + 1] == ':'
  }

  lemma CharSmall(d: nat)
    requires d < 16
    ensures HexChar(d) == LOWER[d]
  {
    Tables();
  }

  lemma {:induction false} HexSmall(b: nat)
    ensures Hex(b) != "" && forall i :: 0 <= i < |Hex(b)| ==> Hex(b)[i] in LOWER
    ensures b > 0 ==> Hex(b)[0] != '0'
  {
    CharSmall(b % 16);
    if b >= 16 {
      HexSmall(b / 16);
    }
  }

  lemma HexPlain(b: nat)
    ensures Small(Hex(b)) && NoLeadingZero(Hex(b))
  {
    HexSmall(b);
    var h := Hex(b);
    if b > 0 {
      hide Hex;
      forall i | 0 <= i < |h| ensures h[i] != ':' {
        assert h[i] in LOWER;
      }
    }
  }

  lemma PlainJoin(a: string, b: string)
    requires Small(a) && NoLeadingZero(a) && Small(b) && NoLeadingZero(b)
    ensures Small(a + ":" + b) && NoLeadingZero(a + ":" + b)
  {
    var s, k := a + ":" + b, |a| + 1;
    forall i | 0 <= i < |s| ensures s[i] == if i < k - 1 then a[i] else if i == k - 1 then ':' else b[i - k] {
    }
    forall i | 0 <= i < |s| ensures s[i] == ':' || s[i] in LOWER {
      if i < k - 1 {
        assert a[i] == ':' || a[i] in LOWER;
      } else if i >= k {
        assert b[i - k] == ':' || b[i - k] in LOWER;
      }
    }
    forall i | 0 <= i < |s| && s[i] == '0' && (i == 0 || s[i - 1] == ':') ensures i + 1 == |s| || s[i + 1] == ':' {
      if i >= k {
        var j := i - k;
        assert s[i - 1] == if j == 0 then ':' else b[j - 1];
        assert b[j] == '0' && (j == 0 || b[j - 1] == ':');
        assert j + 1 == |b| || b[j + 1] == ':';
      } else {
        assert i < k - 1;
        assert a[i] == '0' && (i == 0 || a[i - 1] == ':');
        assert i + 1 == |a| || a[i + 1] == ':';
      }
    }
  }

  lemma JoinCons(bs: seq<nat>)
    requires bs != []
    ensures Join(bs) == if |bs| == 1 then Hex(bs[0]) else Hex(bs[0]) + ":" + Join(bs[1..])
  {
    if |bs| > 1 {
      BeforeIs(bs[1..]);
      Glued(Hex(bs[0]), Join(bs[1..]));
    } else {
      assert Before(bs[1..]) == "";
    }
  }

  lemma Glued(a: string, b: string)
    ensures a + (":" + b) == a + ":" + b
  {
  }

  lemma {:induction false} JoinPlain(bs: seq<nat>)
    ensures Small(Join(bs)) && NoLeadingZero(Join(bs))
  {
    if bs != [] {
      JoinPlain(bs[1..]);
      JoinCons(bs);
      hide Join, Hex, Small, NoLeadingZero;
      HexPlain(bs[0]);
      if bs[1..] != [] {
        PlainJoin(Hex(bs[0]), Join(bs[1..]));
      }
    }
  }

  /** The digits above nine are small letters, and no block begins with a zero that could be left out. */
  lemma TextPlain(bs: seq<nat>, start: nat, len: nat)
    requires start + len <= |bs|
    ensures Small(Text(bs, start, len)) && NoLeadingZero(Text(bs, start, len))
  {
    TextIs(bs, start, len);
    hide Text, Join;
    if len > 1 {
      var a, b := Join(bs[..start]), Join(bs[start + len..]);
      JoinPlain(bs[..start]);
      JoinPlain(bs[start + len..]);
      PlainJoin("", b);
      PlainJoin(a, "" + ":" + b);
      assert a + "::" + b == a + ":" + ("" + ":" + b);
    } else {
      JoinPlain(bs);
    }
  }
}
