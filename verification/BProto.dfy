/** BProto: messages of tagged fields. */
module BProto {
  // The message modelled is youconnect, with a repeated data field, an optional data field and an
  // optional 64-bit field.

  import opened Bytes
  import opened Options

  // ---------------------------------------------------------------- little-endian numbers

  function Le(n: nat, v: nat): (s: seq<byte>)
    ensures |s| == n
  {
    if n == 0 then [] else [v % 256] + Le(n - 1, v / 256)
  }

  function Val(s: seq<byte>): nat {
    if s == [] then 0 else (s[0] as int) + 256 * Val(s[1..])
  }

  function Pow256(n: nat): nat {
    if n == 0 then 1 else 256 * Pow256(n - 1)
  }

  lemma {:induction false} ValLe(n: nat, v: nat)
    requires v < Pow256(n)
    ensures Val(Le(n, v)) == v
  {
    if n > 0 {
      ValLe(n - 1, v / 256);
      assert Le(n, v)[1..] == Le(n - 1, v / 256);
    }
  }

  lemma {:induction false} LeVal(s: seq<byte>)
    ensures Val(s) < Pow256(|s|) && Le(|s|, Val(s)) == s
  {
    if s != [] {
      LeVal(s[1..]);
      assert Val(s) / 256 == Val(s[1..]) && Val(s) % 256 == s[0];
      assert s == [s[0]] + s[1..];
    }
  }

  // ---------------------------------------------------------------- fields

  datatype Type = U8 | U16 | U32 | U64 | Data | ConstData

  /** The number of bytes of an integer field, 0 for a data field. */
  function IntSize(ty: Type): nat {
    match ty case U8 => 1 case U16 => 2 case U32 => 4 case U64 => 8 case _ => 0
  }

  /** The type codes are different 16-bit numbers. */
  ghost predicate Codes(code: Type -> nat) {
    && (forall ty :: code(ty) < Pow256(2))
    && (forall ty, ty' :: ty != ty' ==> code(ty) != code(ty'))
  }

  /** The switch over the type code. */
  function TypeOf(code: Type -> nat, v: int): Option<Type> {
    if v == code(U8) then Some(U8) else if v == code(U16) then Some(U16) else if v == code(U32) then Some(U32)
    else if v == code(U64) then Some(U64) else if v == code(Data) then Some(Data)
    else if v == code(ConstData) then Some(ConstData) else None
  }

  datatype Entry = Entry(ty: Type, id: nat, payload: seq<byte>)

  ghost predicate WellFormed(e: Entry) {
    e.id < Pow256(2) && if IntSize(e.ty) > 0 then |e.payload| == IntSize(e.ty) else |e.payload| < Pow256(4)
  }

  const HEADER: nat := 4

  /** A field: identity, type code, for data the length, then the payload. */
  function Encode(code: Type -> nat, e: Entry): seq<byte> {
    Le(2, e.id) + Le(2, code(e.ty)) + (if IntSize(e.ty) > 0 then [] else Le(4, |e.payload|)) + e.payload
  }

  datatype Parsed = Bad | Got(e: Entry, len: nat)

  /** What the start of some bytes is. */
  function Parse(code: Type -> nat, s: seq<byte>): Parsed {
    if |s| < HEADER then Bad
    else
      var id := Val(s[0..2]);
      match TypeOf(code, Val(s[2..4]))
      case None => Bad
      case Some(ty) =>
        if IntSize(ty) > 0 then
          if |s| - HEADER < IntSize(ty) then Bad
          else Got(Entry(ty, id, s[HEADER..HEADER + IntSize(ty)]), HEADER + IntSize(ty))
        else if |s| - HEADER < 4 then Bad
        else
          var n := Val(s[4..8]);
          if |s| - 8 < n then Bad else Got(Entry(ty, id, s[8..8 + n]), 8 + n)
  }

  lemma Powers()
    ensures Pow256(2) == 0x1_0000 && Pow256(4) == 0x1_0000_0000
  {
    assert Pow256(1) == 256;
    assert Pow256(2) == 0x1_0000;
    assert Pow256(3) == 0x100_0000;
  }

  lemma TypeOfCode(code: Type -> nat, ty: Type)
    requires Codes(code)
    ensures TypeOf(code, code(ty)) == Some(ty)
  {
    assert forall ty', ty'' {:trigger code(ty'), code(ty'')} :: ty' != ty'' ==> code(ty') != code(ty'');
  }

  lemma TypeOfSound(code: Type -> nat, v: int)
    ensures TypeOf(code, v).Some? ==> code(TypeOf(code, v).value) == v
  {
  }

  lemma Parts(a: seq<byte>, b: seq<byte>, c: seq<byte>, d: seq<byte>, rest: seq<byte>)
    requires |a| == 2 && |b| == 2
    ensures var s := a + b + c + d + rest;
      && s[0..2] == a && s[2..4] == b && s[4..4 + |c|] == c && s[4 + |c|..4 + |c| + |d|] == d && s[4 + |c| + |d|..] == rest
  {
  }

  lemma ParseEncoded(code: Type -> nat, e: Entry, rest: seq<byte>)
    requires Codes(code) && WellFormed(e)
    ensures Parse(code, Encode(code, e) + rest) == Got(e, |Encode(code, e)|)
  {
    hide Val, Le, TypeOf, Pow256;
    ValLe(2, e.id);
    ValLe(2, code(e.ty));
    TypeOfCode(code, e.ty);
    if IntSize(e.ty) > 0 {
      Parts(Le(2, e.id), Le(2, code(e.ty)), [], e.payload, rest);
    } else {
      ValLe(4, |e.payload|);
      Parts(Le(2, e.id), Le(2, code(e.ty)), Le(4, |e.payload|), e.payload, rest);
    }
  }

  lemma FourParts(s: seq<byte>, m: nat, n: nat)
    requires 4 <= m <= n <= |s|
    ensures s[..n] == s[0..2] + s[2..4] + s[4..m] + s[m..n]
  {
  }

  lemma ParseSound(code: Type -> nat, s: seq<byte>)
    requires Codes(code)
    ensures var r := Parse(code, s);
      r.Got? ==> WellFormed(r.e) && HEADER < r.len <= |s| && s[..r.len] == Encode(code, r.e)
  {
    hide Val, Le, TypeOf, Pow256;
    var r := Parse(code, s);
    if r.Got? {
      LeVal(s[0..2]);
      LeVal(s[2..4]);
      TypeOfSound(code, Val(s[2..4]));
      if IntSize(r.e.ty) > 0 {
        FourParts(s, HEADER, r.len);
      } else {
        LeVal(s[4..8]);
        FourParts(s, 8, r.len);
      }
    }
  }

  // ---------------------------------------------------------------- messages

  ghost predicate AllWellFormed(es: seq<Entry>) {
    forall e :: e in es ==> WellFormed(e)
  }

  function Message(code: Type -> nat, es: seq<Entry>): seq<byte> {
    if es == [] then [] else Encode(code, es[0]) + Message(code, es[1..])
  }

  lemma {:induction false} MessageSnoc(code: Type -> nat, es: seq<Entry>, e: Entry)
    ensures AllWellFormed(es) && WellFormed(e) ==> AllWellFormed(es + [e])
    ensures Message(code, es + [e]) == Message(code, es) + Encode(code, e)
  {
    hide WellFormed, Encode;
    if es == [] {
      assert es + [e] == [e] && [e][1..] == [] && Encode(code, e) + [] == Encode(code, e);
      assert Message(code, []) == [];
    } else {
      MessageSnoc(code, es[1..], e);
      assert (es + [e])[1..] == es[1..] + [e] && (es + [e])[0] == es[0];
      Regroup(Encode(code, es[0]), Message(code, es[1..]), Encode(code, e));
    }
  }

  lemma MessageFirst(code: Type -> nat, es: seq<Entry>)
    requires AllWellFormed(es)
    ensures es == [] ==> Message(code, es) == []
    ensures es != [] ==> WellFormed(es[0]) && AllWellFormed(es[1..]) && |Encode(code, es[0])| >= HEADER
    ensures es != [] ==> Message(code, es) == Encode(code, es[0]) + Message(code, es[1..])
  {
  }

  /** The fields of a message are determined by its bytes. */
  lemma {:induction false} MessagePrefix(code: Type -> nat, es: seq<Entry>, rest: seq<byte>, fs: seq<Entry>)
    requires Codes(code) && AllWellFormed(es) && AllWellFormed(fs) && Message(code, es) + rest == Message(code, fs)
    ensures |es| <= |fs| && es == fs[..|es|] && AllWellFormed(fs[|es|..]) && rest == Message(code, fs[|es|..])
    decreases |es|
  {
    hide Message, Encode, WellFormed, Parse;
    MessageFirst(code, es);
    MessageFirst(code, fs);
    if es == [] {
      assert fs[..0] == [] && fs[0..] == fs && [] + rest == rest;
    } else {
      Regroup(Encode(code, es[0]), Message(code, es[1..]), rest);
      ParseEncoded(code, es[0], Message(code, es[1..]) + rest);
      ParseEncoded(code, fs[0], Message(code, fs[1..]));
      assert es[0] == fs[0];
      SameTail(Encode(code, es[0]), Message(code, es[1..]) + rest, Message(code, fs[1..]));
      MessagePrefix(code, es[1..], rest, fs[1..]);
      assert es == [es[0]] + es[1..] && fs == [fs[0]] + fs[1..];
      assert fs[1..][|es[1..]|..] == fs[|es|..];
    }
  }

  lemma SameTail(a: seq<byte>, b: seq<byte>, c: seq<byte>)
    requires a + b == a + c
    ensures b == c
  {
    assert b == (a + b)[|a|..] && c == (a + c)[|a|..];
  }

  lemma {:induction false} MessageConcat(code: Type -> nat, es: seq<Entry>, fs: seq<Entry>)
    ensures Message(code, es + fs) == Message(code, es) + Message(code, fs)
  {
    hide Encode;
    if es == [] {
      assert es + fs == fs;
    } else {
      MessageConcat(code, es[1..], fs);
      assert (es + fs)[0] == es[0] && (es + fs)[1..] == es[1..] + fs;
      Regroup(Encode(code, es[0]), Message(code, es[1..]), Message(code, fs));
    }
  }

  /** All fields of some bytes, up to the first place where there is none. */
  function Entries(code: Type -> nat, s: seq<byte>): seq<Entry>
    decreases |s|
  {
    match Parse(code, s)
    case Bad => []
    case Got(e, n) => if 0 < n <= |s| then [e] + Entries(code, s[n..]) else []
  }

  lemma {:induction false} EntriesMessage(code: Type -> nat, es: seq<Entry>)
    requires Codes(code) && AllWellFormed(es)
    ensures Entries(code, Message(code, es)) == es
  {
    hide Parse, Encode, WellFormed;
    MessageFirst(code, es);
    if es == [] {
      assert Parse(code, []) == Bad by {
        ParseShort(code);
      }
    } else {
      ParseEncoded(code, es[0], Message(code, es[1..]));
      EntriesMessage(code, es[1..]);
      assert (Encode(code, es[0]) + Message(code, es[1..]))[|Encode(code, es[0])|..] == Message(code, es[1..]);
    }
  }

  lemma ParseShort(code: Type -> nat)
    ensures Parse(code, []) == Bad
  {
  }

  // ---------------------------------------------------------------- bytes

  lemma SmallVal(s: seq<byte>)
    ensures |s| == 2 ==> Val(s) == s[0] as int + 0x100 * s[1] as int
    ensures |s| == 4 ==> Val(s) == s[0] as int + 0x100 * s[1] as int + 0x1_0000 * s[2] as int + 0x100_0000 * s[3] as int
  {
    if |s| == 2 || |s| == 4 {
      assert s[1..][1..] == s[2..];
      if |s| == 4 {
        assert s[2..][1..] == s[3..] && s[3..][1..] == [];
        assert Val(s[2..]) == s[2] as int + 0x100 * s[3] as int;
      }
    }
  }

  /** A 64-bit number is its two halves, the low one in front. */
  lemma WideVal(s: seq<byte>)
    requires |s| == 8
    ensures Val(s) == Val(s[..4]) + 0x1_0000_0000 * Val(s[4..])
  {
    ValSplit(s, 4);
    Powers();
  }

  lemma {:induction false} ValSplit(s: seq<byte>, n: nat)
    requires n <= |s|
    ensures Val(s) == Val(s[..n]) + Pow256(n) * Val(s[n..])
  {
    if n == 0 {
      assert s[..0] == [] && s[0..] == s;
    } else {
      ValSplit(s[1..], n - 1);
      assert s[..n][1..] == s[1..][..n - 1] && s[1..][n - 1..] == s[n..];
      var p, v := Pow256(n - 1), Val(s[n..]);
      assert Pow256(n) == 256 * p && Val(s) == s[0] as int + 256 * Val(s[1..]);
      assert Val(s[..n]) == s[0] as int + 256 * Val(s[1..][..n - 1]);
      hide Val, Pow256;
      Timed(p, v);
    }
  }

  lemma Timed(p: nat, v: nat)
    ensures 256 * (p * v) == (256 * p) * v
  {
  }

  /** What stands where in a field: all numbers with their low byte first. */
  lemma FieldBytes(code: Type -> nat, e: Entry)
    requires Codes(code) && WellFormed(e)
    ensures var s := Encode(code, e);
      && |s| >= 4 && s[0] as int + 0x100 * s[1] as int == e.id && s[2] as int + 0x100 * s[3] as int == code(e.ty)
      && (e.ty.U8? || e.ty.U16? || e.ty.U32? || e.ty.U64? ==>
        |e.payload| == (if e.ty.U8? then 1 else if e.ty.U16? then 2 else if e.ty.U32? then 4 else 8) && s[4..] == e.payload)
      && (e.ty.Data? || e.ty.ConstData? ==>
        && |s| >= 8 && s[8..] == e.payload
        && s[4] as int + 0x100 * s[5] as int + 0x1_0000 * s[6] as int + 0x100_0000 * s[7] as int == |e.payload|)
  {
    var s := Encode(code, e);
    var a, b, c := Le(2, e.id), Le(2, code(e.ty)), if IntSize(e.ty) > 0 then [] else Le(4, |e.payload|);
    ValLe(2, e.id);
    ValLe(2, code(e.ty));
    SmallVal(a);
    SmallVal(b);
    hide Val, Le, Pow256;
    Parts(a, b, c, e.payload, []);
    assert s == a + b + c + e.payload + [];
    assert s[0] == a[0] && s[1] == a[1] && s[2] == b[0] && s[3] == b[1];
    if c != [] {
      ValLe(4, |e.payload|);
      SmallVal(c);
      assert s[4] == c[0] && s[5] == c[1] && s[6] == c[2] && s[7] == c[3];
    }
  }

  // ---------------------------------------------------------------- the fields of youconnect

  datatype Field = Addr | Key | Password

  predicate Is(f: Field, e: Entry) {
    match f
    case Addr => e.ty == Data && e.id == 1
    case Key => e.ty == Data && e.id == 2
    case Password => e.ty == U64 && e.id == 3
  }

  predicate Known(e: Entry) {
    Is(Addr, e) || Is(Key, e) || Is(Password, e)
  }

  /** The values of a field, in order. */
  function Values(es: seq<Entry>, f: Field): seq<seq<byte>> {
    if es == [] then [] else (if Is(f, es[0]) then [es[0].payload] else []) + Values(es[1..], f)
  }

  lemma ValuesCons(e: Entry, es: seq<Entry>, f: Field)
    ensures Values([e] + es, f) == if Is(f, e) then [e.payload] + Values(es, f) else Values(es, f)
  {
    assert ([e] + es)[1..] == es;
  }

  lemma RegroupValues(a: seq<seq<byte>>, b: seq<seq<byte>>, c: seq<seq<byte>>)
    ensures a + (b + c) == (a + b) + c
  {
  }

  lemma {:induction false} ValuesConcat(es: seq<Entry>, fs: seq<Entry>, f: Field)
    ensures Values(es + fs, f) == Values(es, f) + Values(fs, f)
  {
    hide Values, Is;
    if es == [] {
      ValuesEmpty(f);
      assert es + fs == fs && [] + Values(fs, f) == Values(fs, f);
    } else {
      ValuesConcat(es[1..], fs, f);
      ValuesCons(es[0], es[1..], f);
      ValuesCons(es[0], es[1..] + fs, f);
      assert es == [es[0]] + es[1..] && es + fs == [es[0]] + (es[1..] + fs);
      RegroupValues([es[0].payload], Values(es[1..], f), Values(fs, f));
    }
  }

  lemma ValuesOne(e: Entry, f: Field)
    ensures Values([e], f) == if Is(f, e) then [e.payload] else []
  {
    assert [e][1..] == [];
  }

  /** Only known fields, addr at least once, the others at most once. */
  ghost predicate Acceptable(es: seq<Entry>) {
    && (forall e :: e in es ==> Known(e))
    && |Values(es, Addr)| >= 1 && |Values(es, Key)| <= 1 && |Values(es, Password)| <= 1
  }

  ghost predicate MessageOf(code: Type -> nat, s: seq<byte>, es: seq<Entry>) {
    AllWellFormed(es) && s == Message(code, es)
  }

  ghost predicate Accepted(code: Type -> nat, s: seq<byte>) {
    exists es :: MessageOf(code, s, es) && Acceptable(es)
  }

  // ---------------------------------------------------------------- where a field is

  /** Start and length of the stretch of the buffer from the first field of a kind to the end of
      the last one, and how far it has been read. */
  datatype Span = Span(start: nat, span: nat, pos: nat)

  ghost predicate FoundAt(code: Type -> nat, es: seq<Entry>, f: Field, sp: Span, a: nat, b: nat) {
    && a < b <= |es| && Is(f, es[a]) && Is(f, es[b - 1]) && Values(es[..a], f) == [] && Values(es[b..], f) == []
    && sp.start == |Message(code, es[..a])| && sp.start + sp.span == |Message(code, es[..b])|
  }

  /** What Init knows of a field after the fields `es`. */
  ghost predicate Found(code: Type -> nat, es: seq<Entry>, f: Field, sp: Span, n: nat) {
    && sp.pos == 0
    && if Values(es, f) == [] then sp.start == n && sp.span == 0
       else sp.start < n && exists a: nat, b: nat :: FoundAt(code, es, f, sp, a, b)
  }

  /** The span after one more field of the kind, from `entryPos` to `pos`. */
  function Extend(sp: Span, entryPos: nat, pos: nat, n: nat): Span {
    var start := if sp.start == n then entryPos else sp.start;
    if start <= pos then Span(start, pos - start, sp.pos) else sp
  }

  lemma SlicesSnoc(es: seq<Entry>, e: Entry, a: nat)
    requires a <= |es|
    ensures (es + [e])[..a] == es[..a] && (es + [e])[a..] == es[a..] + [e]
    ensures (es + [e])[..|es|] == es && (es + [e])[..|es| + 1] == es + [e] && (es + [e])[|es| + 1..] == []
  {
  }

  lemma FoundFirst(code: Type -> nat, es: seq<Entry>, e: Entry, f: Field, sp: Span, n: nat)
    requires Values(es, f) == [] && Is(f, e) && sp.start == n && |Message(code, es)| <= |Message(code, es + [e])|
    ensures var sp' := Extend(sp, |Message(code, es)|, |Message(code, es + [e])|, n);
      FoundAt(code, es + [e], f, sp', |es|, |es| + 1)
  {
    hide Message, Values, Is, Encode;
    SlicesSnoc(es, e, |es|);
    ValuesEmpty(f);
  }

  lemma FoundMore(code: Type -> nat, es: seq<Entry>, e: Entry, f: Field, sp: Span, n: nat, a: nat, b: nat)
    requires FoundAt(code, es, f, sp, a, b) && sp.start < n && |Message(code, es)| <= |Message(code, es + [e])|
    ensures !Is(f, e) ==> FoundAt(code, es + [e], f, sp, a, b)
    ensures Is(f, e) ==> FoundAt(code, es + [e], f, Extend(sp, |Message(code, es)|, |Message(code, es + [e])|, n), a, |es| + 1)
  {
    hide Message, Values, Is, Encode;
    SlicesSnoc(es, e, a);
    SlicesSnoc(es, e, b);
    SlicesSnoc(es, e, |es|);
    ValuesConcat(es[b..], [e], f);
    ValuesOne(e, f);
    ValuesEmpty(f);
    MessageUpTo(code, es, a);
  }

  lemma FoundSnoc(code: Type -> nat, es: seq<Entry>, e: Entry, f: Field, sp: Span, n: nat)
    requires Found(code, es, f, sp, n) && |Message(code, es + [e])| <= n && |Message(code, es)| < |Message(code, es + [e])|
    ensures |Values(es + [e], f)| == |Values(es, f)| + if Is(f, e) then 1 else 0
    ensures !Is(f, e) ==> Found(code, es + [e], f, sp, n)
    ensures Is(f, e) ==> Found(code, es + [e], f, Extend(sp, |Message(code, es)|, |Message(code, es + [e])|, n), n)
  {
    hide Message, Values, Is, Encode, FoundAt;
    ValuesConcat(es, [e], f);
    ValuesOne(e, f);
    if Values(es, f) == [] {
      if Is(f, e) {
        FoundFirst(code, es, e, f, sp, n);
      }
    } else {
      var a: nat, b: nat :| FoundAt(code, es, f, sp, a, b);
      FoundMore(code, es, e, f, sp, n, a, b);
    }
  }

  lemma ValuesEmpty(f: Field)
    ensures Values([], f) == []
  {
  }

  lemma MessageUpTo(code: Type -> nat, es: seq<Entry>, a: nat)
    requires a <= |es|
    ensures |Message(code, es[..a])| <= |Message(code, es)|
  {
    MessageConcat(code, es[..a], es[a..]);
    assert es == es[..a] + es[a..];
  }

  // ---------------------------------------------------------------- what is left to read

  function Left(sp: Span, buf: seq<byte>): seq<byte> {
    if sp.pos <= sp.span && sp.start + sp.span <= |buf| then buf[sp.start + sp.pos..sp.start + sp.span] else []
  }

  /** The values that the getter of the field still returns. */
  function Remaining(code: Type -> nat, buf: seq<byte>, f: Field, sp: Span): seq<seq<byte>> {
    Values(Entries(code, Left(sp, buf)), f)
  }

  /** Whole fields, the last of them of the kind. */
  ghost predicate EndsWith(code: Type -> nat, s: seq<byte>, f: Field, es: seq<Entry>) {
    MessageOf(code, s, es) && (es != [] ==> Is(f, es[|es| - 1]))
  }

  ghost predicate Stretch(code: Type -> nat, buf: seq<byte>, f: Field, sp: Span) {
    && sp.pos <= sp.span && sp.start + sp.span <= |buf|
    && (exists es :: EndsWith(code, Left(sp, buf), f, es))
    && (exists es :: EndsWith(code, Left(sp.(pos := 0), buf), f, es))
  }

  lemma RemainingOf(code: Type -> nat, buf: seq<byte>, f: Field, sp: Span, es: seq<Entry>)
    requires Codes(code) && EndsWith(code, Left(sp, buf), f, es)
    ensures Entries(code, Left(sp, buf)) == es && Remaining(code, buf, f, sp) == Values(es, f)
    ensures Remaining(code, buf, f, sp) == [] <==> Left(sp, buf) == []
  {
    hide Entries, Encode, Is, Message, Values, Left, AllWellFormed;
    EntriesMessage(code, es);
    MessageFirst(code, es);
    LastValue(es, f);
  }

  /** A field that ends in one of its kind has a value. */
  lemma LastValue(es: seq<Entry>, f: Field)
    ensures es == [] ==> Values(es, f) == []
    ensures es != [] && Is(f, es[|es| - 1]) ==> Values(es, f) != []
  {
    if es != [] {
      hide Values, Is;
      var e := es[|es| - 1];
      assert es == es[..|es| - 1] + [e];
      ValuesConcat(es[..|es| - 1], [e], f);
      ValuesOne(e, f);
    }
  }

  lemma Middle(code: Type -> nat, es: seq<Entry>, a: nat, b: nat)
    requires a <= b <= |es|
    ensures var m := Message(code, es);
      && |Message(code, es[..a])| <= |Message(code, es[..b])| <= |m|
      && m[|Message(code, es[..a])|..|Message(code, es[..b])|] == Message(code, es[a..b])
  {
    hide Message;
    MessageConcat(code, es[..a], es[a..b]);
    MessageConcat(code, es[..b], es[b..]);
    assert es[..b] == es[..a] + es[a..b] && es == es[..b] + es[b..];
    Cut3(Message(code, es[..a]), Message(code, es[a..b]), Message(code, es[b..]));
  }

  lemma Cut3(a: seq<byte>, b: seq<byte>, c: seq<byte>)
    ensures (a + b + c)[|a|..|a| + |b|] == b
  {
  }

  /** After a whole message, the span of a field holds all its values. */
  lemma FoundStretch(code: Type -> nat, buf: seq<byte>, es: seq<Entry>, f: Field, sp: Span)
    requires Codes(code) && MessageOf(code, buf, es) && Found(code, es, f, sp, |buf|)
    ensures Stretch(code, buf, f, sp) && Remaining(code, buf, f, sp) == Values(es, f)
  {
    hide Message, Values, Is, Entries, Encode;
    if Values(es, f) == [] {
      ValuesEmpty(f);
      MessageFirst(code, []);
      assert EndsWith(code, Left(sp, buf), f, []);
      RemainingOf(code, buf, f, sp, []);
    } else {
      var a: nat, b: nat :| FoundAt(code, es, f, sp, a, b);
      Middle(code, es, a, b);
      ValuesConcat(es[..a], es[a..b], f);
      ValuesConcat(es[..b], es[b..], f);
      assert es[..b] == es[..a] + es[a..b] && es == es[..b] + es[b..];
      assert EndsWith(code, Left(sp, buf), f, es[a..b]);
      RemainingOf(code, buf, f, sp, es[a..b]);
    }
    assert sp.(pos := 0) == sp;
  }

  /** The next field of what is left: another one is skipped, one of the kind is returned. */
  lemma NextOfStretch(code: Type -> nat, buf: seq<byte>, f: Field, sp: Span)
    requires Codes(code) && Stretch(code, buf, f, sp) && sp.pos < sp.span
    ensures var r := Parse(code, Left(sp, buf));
      r.Got? && 0 < r.len && sp.pos + r.len <= sp.span && Stretch(code, buf, f, sp.(pos := sp.pos + r.len))
    ensures var r := Parse(code, Left(sp, buf)); var rest := Remaining(code, buf, f, sp.(pos := sp.pos + r.len));
      Remaining(code, buf, f, sp) == if Is(f, r.e) then [r.e.payload] + rest else rest
  {
    hide Message, Values, Is, Entries, Encode, Parse;
    var es :| EndsWith(code, Left(sp, buf), f, es);
    MessageFirst(code, es);
    RemainingOf(code, buf, f, sp, es);
    ParseEncoded(code, es[0], Message(code, es[1..]));
    var r := Parse(code, Left(sp, buf));
    var sp' := sp.(pos := sp.pos + r.len);
    assert es == [es[0]] + es[1..];
    LeftNext(sp, buf, Encode(code, es[0]), Message(code, es[1..]));
    assert EndsWith(code, Left(sp', buf), f, es[1..]);
    RemainingOf(code, buf, f, sp', es[1..]);
    ValuesCons(es[0], es[1..], f);
    assert sp'.(pos := 0) == sp.(pos := 0);
  }

  lemma LeftNext(sp: Span, buf: seq<byte>, a: seq<byte>, b: seq<byte>)
    requires sp.pos <= sp.span && sp.start + sp.span <= |buf| && Left(sp, buf) == a + b
    ensures sp.pos + |a| <= sp.span && Left(sp.(pos := sp.pos + |a|), buf) == b
  {
    var sp' := sp.(pos := sp.pos + |a|);
    forall k | 0 <= k < |b| ensures Left(sp', buf)[k] == b[k] {
      assert (a + b)[|a| + k] == b[k];
      assert Left(sp, buf)[|a| + k] == buf[sp.start + sp.pos + |a| + k];
    }
    assert |Left(sp', buf)| == |b|;
  }

  /** Reading from the start again, and skipping the rest. */
  lemma ResetForward(code: Type -> nat, buf: seq<byte>, f: Field, sp: Span)
    requires Codes(code) && Stretch(code, buf, f, sp)
    ensures Stretch(code, buf, f, sp.(pos := 0)) && Stretch(code, buf, f, sp.(pos := sp.span))
    ensures Remaining(code, buf, f, sp.(pos := sp.span)) == []
    ensures Remaining(code, buf, f, sp) == [] <==> sp.pos == sp.span
  {
    hide Message, Values, Is, Entries, Encode, Parse;
    MessageFirst(code, []);
    var sp' := sp.(pos := sp.span);
    assert EndsWith(code, Left(sp', buf), f, []);
    assert sp'.(pos := 0) == sp.(pos := 0) && sp.(pos := 0).(pos := 0) == sp.(pos := 0);
    var es :| EndsWith(code, Left(sp, buf), f, es);
    RemainingOf(code, buf, f, sp, es);
    RemainingOf(code, buf, f, sp', []);
  }

  // ---------------------------------------------------------------- why Init fails

  /** If no field starts where one should, no message has these bytes. */
  lemma NotAMessage(code: Type -> nat, buf: seq<byte>, es: seq<Entry>, rest: seq<byte>)
    requires Codes(code) && AllWellFormed(es) && buf == Message(code, es) + rest && rest != []
    requires var r := Parse(code, rest); r.Got? ==> !Known(r.e)
    ensures !Accepted(code, buf)
  {
    hide Message, Encode, Parse, Known, WellFormed;
    forall fs | MessageOf(code, buf, fs) ensures !Acceptable(fs) {
      MessagePrefix(code, es, rest, fs);
      var gs := fs[|es|..];
      MessageFirst(code, gs);
      ParseEncoded(code, gs[0], Message(code, gs[1..]));
      assert gs[0] in fs;
    }
  }

  /** A buffer has at most one reading. */
  lemma OnlyReading(code: Type -> nat, buf: seq<byte>, es: seq<Entry>)
    requires Codes(code) && MessageOf(code, buf, es) && forall e :: e in es ==> Known(e)
    ensures Accepted(code, buf) <==>
      |Values(es, Addr)| >= 1 && |Values(es, Key)| <= 1 && |Values(es, Password)| <= 1
  {
    hide Message, Values, Known, WellFormed;
    forall fs | MessageOf(code, buf, fs) ensures fs == es {
      assert Message(code, es) + [] == Message(code, fs);
      MessagePrefix(code, es, [], fs);
      MessageFirst(code, fs[|es|..]);
    }
    if |Values(es, Addr)| >= 1 && |Values(es, Key)| <= 1 && |Values(es, Password)| <= 1 {
      assert Acceptable(es);
    }
  }

  lemma SliceOf(s: seq<byte>, a: nat, b: nat, i: nat, j: nat)
    requires a <= b <= |s| && i <= j <= b - a
    ensures s[a..b][i..j] == s[a + i..a + j]
  {
    forall k | 0 <= k < j - i ensures s[a..b][i..j][k] == s[a + i..a + j][k] {
    }
  }

  /** What Init knows after the fields `es`, which end at `pos`. */
  ghost predicate Read(code: Type -> nat, buf: seq<byte>, es: seq<Entry>, pos: nat, addr: Span, key: Span, password: Span,
                       addrCount: nat, keyCount: nat, passwordCount: nat)
  {
    && AllWellFormed(es) && (forall e :: e in es ==> Known(e)) && pos <= |buf| && buf[..pos] == Message(code, es)
    && Found(code, es, Addr, addr, |buf|) && Found(code, es, Key, key, |buf|) && Found(code, es, Password, password, |buf|)
    && addrCount == |Values(es, Addr)| && keyCount == |Values(es, Key)| && passwordCount == |Values(es, Password)|
  }

  lemma ReadStart(code: Type -> nat, buf: seq<byte>)
    ensures var none := Span(|buf|, 0, 0); Read(code, buf, [], 0, none, none, none, 0, 0, 0)
  {
  }

  /** One more known field. */
  lemma ReadNext(code: Type -> nat, buf: seq<byte>, es: seq<Entry>, pos: nat, addr: Span, key: Span, password: Span,
                 ac: nat, kc: nat, pc: nat, e: Entry, next: nat)
    requires Codes(code) && Read(code, buf, es, pos, addr, key, password, ac, kc, pc) && pos < next <= |buf|
    requires Parse(code, buf[pos..]) == Got(e, next - pos) && Known(e)
    ensures var n := |buf|; Read(code, buf, es + [e], next,
                                 if Is(Addr, e) then Extend(addr, pos, next, n) else addr,
                                 if Is(Key, e) then Extend(key, pos, next, n) else key,
                                 if Is(Password, e) then Extend(password, pos, next, n) else password,
                                 ac + (if Is(Addr, e) then 1 else 0), kc + (if Is(Key, e) then 1 else 0),
                                 pc + if Is(Password, e) then 1 else 0)
  {
    hide Message, Values, Known, Encode, Found, WellFormed, Parse, Extend, Is;
    ParseSound(code, buf[pos..]);
    MessageSnoc(code, es, e);
    SliceOf(buf, pos, |buf|, 0, next - pos);
    assert buf[..next] == buf[..pos] + buf[pos..next];
    FoundSnoc(code, es, e, Addr, addr, |buf|);
    FoundSnoc(code, es, e, Key, key, |buf|);
    FoundSnoc(code, es, e, Password, password, |buf|);
  }

  lemma ReadFails(code: Type -> nat, buf: seq<byte>, es: seq<Entry>, pos: nat, addr: Span, key: Span, password: Span,
                  ac: nat, kc: nat, pc: nat)
    requires Codes(code) && Read(code, buf, es, pos, addr, key, password, ac, kc, pc) && pos < |buf|
    requires var r := Parse(code, buf[pos..]); r.Got? ==> !Known(r.e)
    ensures !Accepted(code, buf)
  {
    hide Message, Values, Known, Encode, Found, WellFormed, Parse, Is;
    assert buf == buf[..pos] + buf[pos..];
    NotAMessage(code, buf, es, buf[pos..]);
  }

  lemma ReadAll(code: Type -> nat, buf: seq<byte>, es: seq<Entry>, addr: Span, key: Span, password: Span, ac: nat, kc: nat, pc: nat)
    requires Codes(code) && Read(code, buf, es, |buf|, addr, key, password, ac, kc, pc)
    ensures Accepted(code, buf) <==> ac >= 1 && kc <= 1 && pc <= 1
    ensures Entries(code, buf) == es && addr.pos == key.pos == password.pos == 0
    ensures Stretch(code, buf, Addr, addr) && Remaining(code, buf, Addr, addr) == Values(es, Addr)
    ensures Stretch(code, buf, Key, key) && Remaining(code, buf, Key, key) == Values(es, Key)
    ensures Stretch(code, buf, Password, password) && Remaining(code, buf, Password, password) == Values(es, Password)
  {
    hide Message, Values, Known, Encode, WellFormed, Parse, Is, Entries, Stretch, Remaining, Acceptable;
    assert addr.pos == key.pos == password.pos == 0;
    hide Found;
    assert buf[..|buf|] == buf;
    OnlyReading(code, buf, es);
    EntriesMessage(code, es);
    FoundStretch(code, buf, es, Addr, addr);
    FoundStretch(code, buf, es, Key, key);
    FoundStretch(code, buf, es, Password, password);
  }

  // ---------------------------------------------------------------- the parser, in place

  class Parser {
    const code: Type -> nat
    var buf: seq<byte>
    var addr: Span
    var key: Span
    var password: Span

    function SpanOf(f: Field): Span
      reads this
    {
      match f case Addr => addr case Key => key case Password => password
    }

    ghost predicate Valid()
      reads this
    {
      && Codes(code) && Stretch(code, buf, Addr, addr) && Stretch(code, buf, Key, key) && Stretch(code, buf, Password, password)
      && Whole(Addr, addr) && Whole(Key, key) && Whole(Password, password)
    }

    /** The span holds every value of the field. */
    ghost predicate Whole(f: Field, sp: Span)
      reads this`buf
    {
      Remaining(code, buf, f, sp.(pos := 0)) == All(f)
    }

    /** All values of the field in the message. */
    ghost function All(f: Field): seq<seq<byte>>
      reads this`buf
    {
      Values(Entries(code, buf), f)
    }

    /** The values of the field that have not been read. */
    ghost function Unread(f: Field): seq<seq<byte>>
      reads this
    {
      Remaining(code, buf, f, SpanOf(f))
    }

    constructor (code: Type -> nat)
      requires Codes(code)
      ensures this.code == code
    {
      this.code, buf := code, [];
      addr, key, password := Span(0, 0, 0), Span(0, 0, 0), Span(0, 0, 0);
    }

    /** One field at `pos`, with the checks against what is left: the loops' common part. */
    method ReadField(pos: nat, end: nat) returns (ok: bool, ty: Type, id: nat, payload: nat, next: nat)
      requires pos <= end <= |buf|
      ensures var r := Parse(code, buf[pos..end]);
        if ok then pos < payload <= next <= end && r == Got(Entry(ty, id, buf[payload..next]), next - pos) else r == Bad
    {
      ok, ty, id, payload, next := false, U8, 0, 0, 0;
      if end - pos < HEADER {
        return;
      }
      SliceOf(buf, pos, end, 0, 2);
      SliceOf(buf, pos, end, 2, 4);
      id := Val(buf[pos..pos + 2]);
      var v := Val(buf[pos + 2..pos + 4]);
      var t := TypeOf(code, v);
      if t.None? {
        return;
      }
      ty := t.value;
      if IntSize(ty) > 0 {
        if end - (pos + HEADER) < IntSize(ty) {
          return;
        }
        payload := pos + HEADER;
        next := payload + IntSize(ty);
      } else {
        if end - (pos + HEADER) < 4 {
          return;
        }
        SliceOf(buf, pos, end, 4, 8);
        var n := Val(buf[pos + 4..pos + 8]);
        if end - (pos + 8) < n {
          return;
        }
        payload := pos + 8;
        next := payload + n;
      }
      SliceOf(buf, pos, end, payload - pos, next - pos);
      ok := true;
    }

    /** msg_youconnectParser_Init: accepts exactly the messages of known fields in allowed numbers,
        and then every field has all its values before it. */
    method Init(data: seq<byte>) returns (ok: bool)
      requires Codes(code)
      modifies this
      ensures ok <==> Accepted(code, data)
      ensures ok ==> Valid() && buf == data && forall f :: Unread(f) == All(f)
    {
      hide Read, Values, Parse, Accepted, Known, Stretch, Remaining, Entries;
      buf := data;
      addr, key, password := Span(|data|, 0, 0), Span(|data|, 0, 0), Span(|data|, 0, 0);
      var addrCount, keyCount, passwordCount, pos := 0, 0, 0, 0;
      ghost var es := [];
      ReadStart(code, buf);
      while pos < |buf|
        invariant buf == data && pos <= |buf| && Read(code, buf, es, pos, addr, key, password, addrCount, keyCount, passwordCount)
      {
        var fits, ty, id, payload, next := ReadField(pos, |buf|);
        assert buf[pos..|buf|] == buf[pos..];
        if !fits {
          ReadFails(code, buf, es, pos, addr, key, password, addrCount, keyCount, passwordCount);
          return false;
        }
        ghost var e := Entry(ty, id, buf[payload..next]);
        KnownMeans(e);
        if ty == U64 && id == 3 {
          ReadNext(code, buf, es, pos, addr, key, password, addrCount, keyCount, passwordCount, e, next);
          password, passwordCount := Extend(password, pos, next, |buf|), passwordCount + 1;
        } else if ty == Data && id == 1 {
          ReadNext(code, buf, es, pos, addr, key, password, addrCount, keyCount, passwordCount, e, next);
          addr, addrCount := Extend(addr, pos, next, |buf|), addrCount + 1;
        } else if ty == Data && id == 2 {
          ReadNext(code, buf, es, pos, addr, key, password, addrCount, keyCount, passwordCount, e, next);
          key, keyCount := Extend(key, pos, next, |buf|), keyCount + 1;
        } else {
          ReadFails(code, buf, es, pos, addr, key, password, addrCount, keyCount, passwordCount);
          return false;
        }
        es := es + [e];
        pos := next;
      }
      ReadAll(code, buf, es, addr, key, password, addrCount, keyCount, passwordCount);
      assert addr.(pos := 0) == addr && key.(pos := 0) == key && password.(pos := 0) == password;
      ok := addrCount >= 1 && keyCount <= 1 && passwordCount <= 1;
    }

    /** GotEverything: every field has been read to its last value. */
    method GotEverything() returns (all: bool)
      requires Valid()
      ensures all <==> forall f :: Unread(f) == []
    {
      ResetForward(code, buf, Addr, addr);
      ResetForward(code, buf, Key, key);
      ResetForward(code, buf, Password, password);
      hide Stretch, Remaining;
      all := addr.pos == addr.span && key.pos == key.span && password.pos == password.span;
      if all {
        forall f ensures Unread(f) == [] {
          match f case Addr => case Key => case Password =>
        }
      } else {
        assert Unread(Addr) != [] || Unread(Key) != [] || Unread(Password) != [];
      }
    }

    /** The loop of the getters: the next value of the field, other fields being skipped. */
    method GetNext(f: Field, sp: Span) returns (found: bool, payload: nat, len: nat, sp': Span)
      requires Codes(code) && Stretch(code, buf, f, sp)
      ensures Stretch(code, buf, f, sp') && sp'.(pos := 0) == sp.(pos := 0)
      ensures found <==> Remaining(code, buf, f, sp) != []
      ensures found ==> payload + len <= |buf| && buf[payload..payload + len] == Remaining(code, buf, f, sp)[0]
      ensures Remaining(code, buf, f, sp') == if found then Remaining(code, buf, f, sp)[1..] else []
    {
      hide Stretch, Remaining, Parse, Is;
      sp' := sp;
      StretchBounds(code, buf, f, sp);
      while sp'.pos < sp'.span
        invariant Stretch(code, buf, f, sp') && sp'.start == sp.start && sp'.span == sp.span && sp'.pos <= sp'.span
        invariant Remaining(code, buf, f, sp') == Remaining(code, buf, f, sp)
      {
        NextOfStretch(code, buf, f, sp');
        var fits, ty, id, p, next := ReadField(sp'.start + sp'.pos, sp'.start + sp'.span);
        assert fits;
        IsMeans(f, Entry(ty, id, buf[p..next]));
        sp' := sp'.(pos := next - sp'.start);
        if IsKind(f, ty, id) {
          return true, p, next - p, sp';
        }
      }
      ResetForward(code, buf, f, sp');
      found, payload, len := false, 0, 0;
    }

    method GetAddr() returns (found: bool, payload: nat, len: nat)
      requires Valid()
      modifies this`addr
      ensures Valid() && (found <==> old(Unread(Addr)) != [])
      ensures found ==> payload + len <= |buf| && buf[payload..payload + len] == old(Unread(Addr))[0]
      ensures Unread(Addr) == if found then old(Unread(Addr))[1..] else []
    {
      hide Stretch, Remaining, Values, Entries;
      found, payload, len, addr := GetNext(Addr, addr);
    }

    method GetKey() returns (found: bool, payload: nat, len: nat)
      requires Valid()
      modifies this`key
      ensures Valid() && (found <==> old(Unread(Key)) != [])
      ensures found ==> payload + len <= |buf| && buf[payload..payload + len] == old(Unread(Key))[0]
      ensures Unread(Key) == if found then old(Unread(Key))[1..] else []
    {
      hide Stretch, Remaining, Values, Entries;
      found, payload, len, key := GetNext(Key, key);
    }

    method GetPassword() returns (found: bool, v: nat)
      requires Valid()
      modifies this`password
      ensures Valid() && (found <==> old(Unread(Password)) != [])
      ensures found ==> v == Val(old(Unread(Password))[0])
      ensures Unread(Password) == if found then old(Unread(Password))[1..] else []
    {
      hide Stretch, Remaining, Values, Entries;
      var payload, len;
      found, payload, len, password := GetNext(Password, password);
      v := if found then Val(buf[payload..payload + len]) else 0;
    }

    /** Resetaddr and Forwardaddr; those of the other fields are the same. */
    method ResetAddr()
      requires Valid()
      modifies this`addr
      ensures Valid() && Unread(Addr) == All(Addr)
    {
      ResetForward(code, buf, Addr, addr);
      hide Stretch, Remaining, Values, Entries;
      addr := addr.(pos := 0);
    }

    method ForwardAddr()
      requires Valid()
      modifies this`addr
      ensures Valid() && Unread(Addr) == []
    {
      ResetForward(code, buf, Addr, addr);
      hide Stretch, Remaining, Values, Entries;
      addr := addr.(pos := addr.span);
    }
  }

  predicate IsKind(f: Field, ty: Type, id: nat) {
    match f
    case Addr => ty == Data && id == 1
    case Key => ty == Data && id == 2
    case Password => ty == U64 && id == 3
  }

  lemma IsMeans(f: Field, e: Entry)
    ensures Is(f, e) <==> IsKind(f, e.ty, e.id)
  {
  }

  lemma KnownMeans(e: Entry)
    ensures Known(e) <==> (e.ty == U64 && e.id == 3) || (e.ty == Data && e.id == 1) || (e.ty == Data && e.id == 2)
  {
  }

  lemma StretchBounds(code: Type -> nat, buf: seq<byte>, f: Field, sp: Span)
    requires Stretch(code, buf, f, sp)
    ensures sp.pos <= sp.span && sp.start + sp.span <= |buf|
  {
  }

  // ---------------------------------------------------------------- the writer

  /** Whatever fields were written, in whatever order, are accepted and read back unchanged. */
  lemma RoundTrip(code: Type -> nat, s: seq<byte>, es: seq<Entry>)
    requires Codes(code) && MessageOf(code, s, es) && Acceptable(es)
    ensures Accepted(code, s) && Entries(code, s) == es
  {
    EntriesMessage(code, es);
  }

  lemma AcceptableSnoc(es: seq<Entry>, e: Entry, f: Field)
    ensures |Values(es + [e], f)| == |Values(es, f)| + if Is(f, e) then 1 else 0
  {
    ValuesConcat(es, [e], f);
    ValuesOne(e, f);
  }

  class Writer {
    const code: Type -> nat
    const out: array<byte>
    var used: nat
    var addrCount: nat
    var keyCount: nat
    var passwordCount: nat
    /** The fields written so far. */
    ghost var written: seq<Entry>

    ghost predicate Valid()
      reads this, out
    {
      && Codes(code) && used <= out.Length && MessageOf(code, out[..used], written) && (forall e :: e in written ==> Known(e))
      && addrCount == |Values(written, Addr)| && keyCount == |Values(written, Key)| <= 1
      && passwordCount == |Values(written, Password)| <= 1
    }

    constructor (code: Type -> nat, out: array<byte>)
      requires Codes(code)
      ensures Valid() && written == [] && this.out == out && this.code == code
    {
      this.code, this.out := code, out;
      used, addrCount, keyCount, passwordCount, written := 0, 0, 0, 0, [];
    }

    method Put(bytes: seq<byte>)
      requires used + |bytes| <= out.Length
      modifies this`used, out
      ensures used == old(used) + |bytes| && out[..used] == old(out[..used]) + bytes
    {
      forall k | 0 <= k < |bytes| {
        out[used + k] := bytes[k];
      }
      used := used + |bytes|;
      assert out[..used] == old(out[..used]) + bytes;
    }

    /** Header, length and payload of a data field. */
    method PutData(id: nat, payload: seq<byte>)
      requires used + 8 + |payload| <= out.Length
      modifies this`used, out
      ensures used == old(used) + 8 + |payload|
      ensures out[..used] == old(out[..used]) + Encode(code, Entry(Data, id, payload))
    {
      Put(Le(2, id) + Le(2, code(Data)));
      Put(Le(4, |payload|));
      Put(payload);
      Gather(old(out[..used]), Le(2, id) + Le(2, code(Data)), Le(4, |payload|), payload);
    }

    method AddAddr(payload: seq<byte>)
      requires Valid() && |payload| < Pow256(4) && used + 8 + |payload| <= out.Length
      modifies this, out
      ensures Valid() && written == old(written) + [Entry(Data, 1, payload)] && addrCount == old(addrCount) + 1
    {
      Powers();
      hide Message, Values, Encode, Pow256;
      ghost var e := Entry(Data, 1, payload);
      KnownMeans(e);
      WrittenSnoc(code, written, e);
      PutData(1, payload);
      addrCount := addrCount + 1;
      written := written + [e];
    }

    method AddKey(payload: seq<byte>)
      requires Valid() && keyCount == 0 && |payload| < Pow256(4) && used + 8 + |payload| <= out.Length
      modifies this, out
      ensures Valid() && written == old(written) + [Entry(Data, 2, payload)] && keyCount == 1
    {
      Powers();
      hide Message, Values, Encode, Pow256;
      ghost var e := Entry(Data, 2, payload);
      KnownMeans(e);
      WrittenSnoc(code, written, e);
      PutData(2, payload);
      keyCount := keyCount + 1;
      written := written + [e];
    }

    method AddPassword(v: nat)
      requires Valid() && passwordCount == 0 && v < Pow256(8) && used + 12 <= out.Length
      modifies this, out
      ensures Valid() && written == old(written) + [Entry(U64, 3, Le(8, v))] && passwordCount == 1
      ensures Val(Le(8, v)) == v
    {
      Powers();
      ValLe(8, v);
      hide Message, Values, Pow256, Le, Val;
      ghost var e := Entry(U64, 3, Le(8, v));
      KnownMeans(e);
      WrittenSnoc(code, written, e);
      Put(Le(2, 3) + Le(2, code(U64)));
      Put(Le(8, v));
      Gather(old(out[..used]), Le(2, 3) + Le(2, code(U64)), [], Le(8, v));
      passwordCount := passwordCount + 1;
      written := written + [e];
    }

    /** msg_youconnectWriter_Finish: what was written is a message, and reads back as it was written. */
    method Finish() returns (len: nat)
      requires Valid() && addrCount >= 1
      ensures len == used && Accepted(code, out[..len]) && Entries(code, out[..len]) == written
    {
      assert Acceptable(written);
      RoundTrip(code, out[..used], written);
      len := used;
    }
  }

  lemma Gather(a: seq<byte>, b: seq<byte>, c: seq<byte>, d: seq<byte>)
    ensures a + b + c + d == a + (b + c + d) && a + b + d == a + (b + [] + d)
  {
  }

  lemma WrittenSnoc(code: Type -> nat, es: seq<Entry>, e: Entry)
    requires AllWellFormed(es) && WellFormed(e)
    ensures AllWellFormed(es + [e]) && Message(code, es + [e]) == Message(code, es) + Encode(code, e)
    ensures forall f :: |Values(es + [e], f)| == |Values(es, f)| + if Is(f, e) then 1 else 0
  {
    MessageSnoc(code, es, e);
    forall f ensures |Values(es + [e], f)| == |Values(es, f)| + if Is(f, e) then 1 else 0 {
      AcceptableSnoc(es, e, f);
    }
  }
}
