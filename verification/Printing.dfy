/**
  The text do_dump writes (dump.c), and that it is the text of a syntax tree which
  means the value that was dumped.
 */
module Printing {
  import opened Bytes
  import opened Values
  import Utf8
  import O = Ordering
  import G = Grammar
  import S = Scanning
  import M = Meaning
  import P = Parsing

  /** The dump flags: JSON_INDENT(n), COMPACT, ENSURE_ASCII, SORT_KEYS, PRESERVE_ORDER. */
  datatype Flags = Flags(indent: nat, compact: bool, ascii: bool, sortKeys: bool, preserveOrder: bool)

  // ------------------------------------------------------------------ strings

  function HexDigit(v: nat): (b: byte)
    requires v < 16
    ensures G.IsHexDigit(b) && G.DigitValue(b) == v
  {
    if v < 10 then (48 + v) as byte else (97 + v - 10) as byte
  }

  lemma HexDigits(v: nat)
    ensures v == ((v / 4096 * 16 + v / 256 % 16) * 16 + v / 16 % 16) * 16 + v % 16
  {
    assert v / 16 / 16 == v / 256 && v / 256 / 16 == v / 4096;
    assert v / 256 == v / 4096 * 16 + v / 256 % 16;
    assert v / 16 == v / 256 * 16 + v / 16 % 16;
  }

  /** "\u%04x" */
  function HexUnit(v: nat): (u: G.Unit)
    requires v < 0x10000
    ensures u.Hex? && G.EscapeValue(u.h0, u.h1, u.h2, u.h3) == Some(v)
    ensures G.IsHexDigit(u.h0) && G.IsHexDigit(u.h1) && G.IsHexDigit(u.h2) && G.IsHexDigit(u.h3)
  {
    HexDigits(v);
    G.Hex(HexDigit(v / 4096), HexDigit(v / 256 % 16), HexDigit(v / 16 % 16), HexDigit(v % 16))
  }

  predicate NeedsEscape(cp: int, ascii: bool) {
    cp == 92 || cp == 34 || cp < 0x20 || (ascii && cp > 0x7F)
  }

  /** The escape dump_string writes for a code point. */
  function EscapeUnits(cp: int): (us: seq<G.Unit>)
    requires Utf8.IsScalar(cp)
  {
    if cp == 92 then [G.Short(92)]
    else if cp == 34 then [G.Short(34)]
    else if cp == 8 then [G.Short(98)]
    else if cp == 12 then [G.Short(102)]
    else if cp == 10 then [G.Short(110)]
    else if cp == 13 then [G.Short(114)]
    else if cp == 9 then [G.Short(116)]
    else if cp < 0x10000 then [HexUnit(cp)]
    else [HexUnit(0xD800 + (cp - 0x10000) / 1024), HexUnit(0xDC00 + (cp - 0x10000) % 1024)]
  }

  function RawUnits(s: bytes): (us: seq<G.Unit>)
    ensures |us| == |s|
  {
    if s == [] then [] else [G.Raw(s[0])] + RawUnits(s[1..])
  }

  /** The body of the literal dump_string writes for a text of whole sequences. */
  function PrintUnits(t: bytes, ascii: bool): seq<G.Unit>
    requires Utf8.ValidText(t)
  {
    if t == [] then []
    else
      var n := Utf8.Next(t).value;
      var cp := Utf8.CodePoint(t);
      (if NeedsEscape(cp, ascii) then EscapeUnits(cp) else RawUnits(t[..n])) + PrintUnits(t[n..], ascii)
  }

  lemma DecodeRawUnit(b: byte, us: seq<G.Unit>)
    ensures G.DecodeUnits([G.Raw(b)] + us) == G.Prefixed([b], G.DecodeUnits(us))
  {
    assert ([G.Raw(b)] + us)[1..] == us;
  }

  lemma DecodeShortUnit(b: byte, us: seq<G.Unit>)
    ensures G.DecodeUnits([G.Short(b)] + us) == G.Prefixed([G.Unescape(b)], G.DecodeUnits(us))
  {
    assert ([G.Short(b)] + us)[1..] == us;
  }

  lemma DecodeHexUnit(cp: nat, us: seq<G.Unit>)
    requires 0 < cp < 0x10000 && Utf8.IsScalar(cp)
    ensures G.DecodeUnits([HexUnit(cp)] + us) == G.Prefixed(Utf8.Encode(cp).value, G.DecodeUnits(us))
  {
    var all := [HexUnit(cp)] + us;
    assert all[1..] == us && all[0] == HexUnit(cp);
  }

  lemma DecodeHexPair(high: nat, low: nat, us: seq<G.Unit>)
    requires G.IsHighSurrogate(high) && G.IsLowSurrogate(low)
    ensures G.DecodeUnits([HexUnit(high), HexUnit(low)] + us)
            == G.Prefixed(Utf8.Encode(G.Combine(high, low)).value, G.DecodeUnits(us))
  {
    var all := [HexUnit(high), HexUnit(low)] + us;
    assert all[2..] == us && all[0] == HexUnit(high) && all[1] == HexUnit(low);
  }

  lemma {:induction false} DecodeRaw(s: bytes, us: seq<G.Unit>)
    ensures G.DecodeUnits(RawUnits(s) + us) == G.Prefixed(s, G.DecodeUnits(us))
  {
    var d := G.DecodeUnits(us);
    if s == [] {
      assert RawUnits(s) + us == us;
      assert d.Text? ==> [] + d.text == d.text;
    } else {
      DecodeRaw(s[1..], us);
      DecodeRawUnit(s[0], RawUnits(s[1..]) + us);
      G.PrefixedTwice([s[0]], s[1..], d);
      assert RawUnits(s) + us == [G.Raw(s[0])] + (RawUnits(s[1..]) + us);
      assert [s[0]] + s[1..] == s;
    }
  }

  /** Splitting a code point into surrogates and combining them are inverse. */
  lemma SplitCombines(cp: int)
    requires 0x10000 <= cp <= 0x10FFFF
    ensures var high, low := 0xD800 + (cp - 0x10000) / 1024, 0xDC00 + (cp - 0x10000) % 1024;
            G.IsHighSurrogate(high) && G.IsLowSurrogate(low) && G.Combine(high, low) == cp
  {
    var v := cp - 0x10000;
    assert v == v / 1024 * 1024 + v % 1024 && v / 1024 < 1024;
  }

  lemma DecodeEscape(cp: int, us: seq<G.Unit>)
    requires Utf8.IsScalar(cp) && cp != 0 && NeedsEscape(cp, true)
    ensures G.DecodeUnits(EscapeUnits(cp) + us) == G.Prefixed(Utf8.Encode(cp).value, G.DecodeUnits(us))
  {
    hide G.DecodeUnits, G.Combine, NeedsEscape;
    if EscapeUnits(cp)[0].Short? {
      DecodeShortUnit(EscapeUnits(cp)[0].b, us);
    } else if cp < 0x10000 {
      hide Utf8.Encode;
      assert EscapeUnits(cp) == [HexUnit(cp)];
      DecodeHexUnit(cp, us);
    } else {
      hide Utf8.Encode;
      SplitCombines(cp);
      var high, low := 0xD800 + (cp - 0x10000) / 1024, 0xDC00 + (cp - 0x10000) % 1024;
      assert EscapeUnits(cp) == [HexUnit(high), HexUnit(low)];
      DecodeHexPair(high, low, us);
    }
  }

  lemma NonzeroCodePoint(t: bytes)
    requires Utf8.Next(t).Some? && t[0] != 0
    ensures Utf8.CodePoint(t) != 0
  {
    if Utf8.CheckFirst(t[0]) != 1 {
      Utf8.EncodeDecode(t[..Utf8.CheckFirst(t[0])]);
    }
  }

  lemma DecodeNothing()
    ensures G.DecodeUnits([]) == G.Text([])
  {
  }

  /** A dumped string literal decodes to the string: for every flag, escapes are undone. */
  lemma {:induction false} PrintDecodes(t: bytes, ascii: bool)
    requires Utf8.ValidText(t) && 0 !in t
    ensures G.DecodeUnits(PrintUnits(t, ascii)) == G.Text(t)
    decreases |t|
  {
    hide EscapeUnits, RawUnits, G.DecodeUnits, Utf8.Encode;
    if t == [] {
      DecodeNothing();
    } else {
      var n := Utf8.Next(t).value;
      var cp := Utf8.CodePoint(t);
      Utf8.NextEncodes(t);
      PrintDecodes(t[n..], ascii);
      assert t == t[..n] + t[n..];
      assert cp != 0 by { NonzeroCodePoint(t); }
      var us := PrintUnits(t[n..], ascii);
      if NeedsEscape(cp, ascii) {
        DecodeEscape(cp, us);
      } else {
        DecodeRaw(t[..n], us);
      }
    }
  }

  predicate FineUnits(us: seq<G.Unit>) { G.UnitsOk(us) && G.StrictUnits(us, false) }

  lemma {:induction false} FineConcat(us: seq<G.Unit>, vs: seq<G.Unit>)
    requires FineUnits(us) && FineUnits(vs)
    ensures FineUnits(us + vs)
  {
    if us == [] {
      assert us + vs == vs;
    } else {
      FineConcat(us[1..], vs);
      assert (us + vs)[1..] == us[1..] + vs;
    }
  }

  lemma {:induction false} FineRaw(s: bytes)
    requires forall i :: 0 <= i < |s| ==> s[i] >= 0x20 && s[i] != QUOTE && s[i] != BACKSLASH
    ensures FineUnits(RawUnits(s))
  {
    if s != [] {
      assert forall i :: 0 <= i < |s| - 1 ==> s[1..][i] == s[i+1];
      FineRaw(s[1..]);
    }
  }

  predicate FineUnit(u: G.Unit) {
    && G.UnitOk(u)
    && (u.Hex? ==> G.IsHexDigit(u.h0) && G.IsHexDigit(u.h1) && G.IsHexDigit(u.h2) && G.IsHexDigit(u.h3))
  }

  lemma FineOne(u: G.Unit)
    requires FineUnit(u)
    ensures FineUnits([u])
  {
    assert [u][1..] == [] && FineUnits([]);
  }

  lemma FineEscape(cp: int)
    requires Utf8.IsScalar(cp)
    ensures FineUnits(EscapeUnits(cp))
  {
    var us := EscapeUnits(cp);
    assert FineUnit(us[0]);
    FineOne(us[0]);
    if cp >= 0x10000 {
      FineOne(us[1]);
      FineConcat([us[0]], [us[1]]);
      assert us == [us[0]] + [us[1]];
    } else {
      assert us == [us[0]];
    }
  }

  /** What dump_string writes is a literal of the grammar, with real hexadecimal escapes. */
  lemma {:induction false} PrintFine(t: bytes, ascii: bool)
    requires Utf8.ValidText(t)
    ensures FineUnits(PrintUnits(t, ascii))
    decreases |t|
  {
    if t != [] {
      var n := Utf8.Next(t).value;
      var cp := Utf8.CodePoint(t);
      PrintFine(t[n..], ascii);
      if NeedsEscape(cp, ascii) {
        FineEscape(cp);
        FineConcat(EscapeUnits(cp), PrintUnits(t[n..], ascii));
      } else {
        if n > 1 {
          Utf8.EncodeDecode(t[..n]);
        }
        FineRaw(t[..n]);
        FineConcat(RawUnits(t[..n]), PrintUnits(t[n..], ascii));
      }
    }
  }

  /** With JSON_ENSURE_ASCII the literal is plain ASCII. */
  predicate AsciiUnits(us: seq<G.Unit>) {
    us == [] || ((us[0].Raw? ==> us[0].b < 0x80) && AsciiUnits(us[1..]))
  }

  lemma {:induction false} AsciiConcat(us: seq<G.Unit>, vs: seq<G.Unit>)
    requires AsciiUnits(us) && AsciiUnits(vs)
    ensures AsciiUnits(us + vs)
  {
    if us == [] {
      assert us + vs == vs;
    } else {
      AsciiConcat(us[1..], vs);
      assert (us + vs)[1..] == us[1..] + vs;
    }
  }

  lemma AsciiOne(u: G.Unit)
    requires u.Raw? ==> u.b < 0x80
    ensures AsciiUnits([u])
  {
    assert [u][1..] == [];
  }

  lemma EscapeAscii(cp: int)
    requires Utf8.IsScalar(cp)
    ensures AsciiUnits(EscapeUnits(cp))
  {
    var us := EscapeUnits(cp);
    AsciiOne(us[0]);
    if cp >= 0x10000 {
      AsciiOne(us[1]);
      AsciiConcat([us[0]], [us[1]]);
      assert us == [us[0]] + [us[1]];
    } else {
      assert us == [us[0]];
    }
  }

  lemma {:induction false} PrintAscii(t: bytes)
    requires Utf8.ValidText(t)
    ensures AsciiUnits(PrintUnits(t, true))
    decreases |t|
  {
    if t != [] {
      hide EscapeUnits, AsciiUnits;
      var n := Utf8.Next(t).value;
      var cp := Utf8.CodePoint(t);
      PrintAscii(t[n..]);
      if n > 1 {
        Utf8.EncodeDecode(t[..n]);
      }
      if NeedsEscape(cp, true) {
        EscapeAscii(cp);
        AsciiConcat(EscapeUnits(cp), PrintUnits(t[n..], true));
      } else {
        assert n == 1 && t[..1] == [t[0]];
        assert RawUnits([t[0]]) == [G.Raw(t[0])];
        AsciiOne(G.Raw(t[0]));
        AsciiConcat(RawUnits(t[..n]), PrintUnits(t[n..], true));
      }
    }
  }

  // ----------------------------------------------------------------- integers

  /** The digits snprintf writes for a natural number. */
  function DecText(n: nat): (r: bytes)
    ensures r != [] && G.AllDigits(r)
    ensures n > 0 ==> r[0] != 48
    ensures n == 0 ==> r == [48]
  {
    if n < 10 then [(48 + n) as byte] else DecText(n / 10) + [(48 + n % 10) as byte]
  }

  lemma {:induction false} DecTextValue(n: nat)
    ensures G.Decimal(DecText(n)) == n
  {
    var r := DecText(n);
    if n < 10 {
      assert r[..0] == [];
    } else {
      DecTextValue(n / 10);
      assert r[..|r|-1] == DecText(n / 10);
    }
  }

  function NumOf(n: int): G.Num {
    G.Num(n < 0, DecText(if n < 0 then -n else n), None, G.NoExponent)
  }

  lemma NumOfValue(n: int)
    ensures G.NumOk(NumOf(n)) && G.IsInteger(NumOf(n)) && G.IntValue(NumOf(n)) == n
  {
    DecTextValue(if n < 0 then -n else n);
  }

  // ------------------------------------------------------------------- values

  /** What a value must hold for its dump to be readable: 64-bit integers, reals printed
      as the grammar has them, and valid UTF-8 without NUL. */
  predicate Printable(v: Value) {
    match v
    case Integer(n) => G.IsInt64(n)
    case Real(t) => S.ScanNum(t).Some? && S.ScanNum(t).value.1 == [] && !G.IsInteger(S.ScanNum(t).value.0) && !G.Overflows(S.ScanNum(t).value.0)
    case String(t) => M.GoodText(t)
    case Array(items) => forall i :: 0 <= i < |items| ==> Printable(items[i])
    case Object(es) => forall i :: 0 <= i < |es| ==> M.GoodText(es[i].key) && Printable(es[i].value)
    case _ => true
  }

  function Spaces(n: nat): (r: bytes)
    ensures G.AllSpace(r)
  {
    seq(n, _ => 32)
  }

  /** dump_indent */
  function Indent(fl: Flags, depth: nat, space: bool): (r: bytes)
    ensures G.AllSpace(r)
  {
    if fl.indent > 0 then [10] + Spaces(fl.indent * depth)
    else if space && !fl.compact then [32]
    else []
  }

  function StringText(t: bytes, ascii: bool): bytes
    requires Utf8.ValidText(t)
  {
    [QUOTE] + (G.UnitsText(PrintUnits(t, ascii)) + [QUOTE])
  }

  function Separator(fl: Flags): bytes {
    if fl.compact then [COLON] else [COLON, 32]
  }

  /** The text do_dump writes for a value whose objects list their entries in dumping order. */
  function RawText(v: Value, fl: Flags, depth: nat): bytes
    requires Printable(v)
    decreases v, 0
  {
    match v
    case Null => G.WordText(G.Null)
    case True => G.WordText(G.True)
    case False => G.WordText(G.False)
    case Integer(n) => G.NumText(NumOf(n))
    case Real(t) => t
    case String(t) => StringText(t, fl.ascii)
    case Array(items) =>
      if items == [] then [LBRACKET, RBRACKET]
      else [LBRACKET] + (Indent(fl, depth + 1, false) + (ItemsText(items, fl, depth) + [RBRACKET]))
    case Object(es) =>
      if es == [] then [LBRACE, RBRACE]
      else [LBRACE] + (Indent(fl, depth + 1, false) + (EntriesText(es, fl, depth) + [RBRACE]))
  }

  function ItemsText(items: seq<Value>, fl: Flags, depth: nat): bytes
    requires items != [] && forall i :: 0 <= i < |items| ==> Printable(items[i])
    decreases items, 1
  {
    RawText(items[0], fl, depth + 1) +
    (if |items| == 1 then Indent(fl, depth, false)
     else [COMMA] + (Indent(fl, depth + 1, true) + ItemsText(items[1..], fl, depth)))
  }

  function EntriesText(es: seq<Entry>, fl: Flags, depth: nat): bytes
    requires es != [] && forall i :: 0 <= i < |es| ==> M.GoodText(es[i].key) && Printable(es[i].value)
    decreases es, 1
  {
    assert M.GoodText(es[0].key);
    StringText(es[0].key, fl.ascii) + (Separator(fl) + (RawText(es[0].value, fl, depth + 1) +
    (if |es| == 1 then Indent(fl, depth, false)
     else [COMMA] + (Indent(fl, depth + 1, true) + EntriesText(es[1..], fl, depth)))))
  }

  // ------------------------------------------------------- the tree of a dump

  /** The syntax tree whose text do_dump writes. */
  function SynOf(v: Value, fl: Flags, depth: nat): G.Syn
    requires Printable(v)
    decreases v, 0
  {
    match v
    case Null => G.Leaf(G.Literal(G.Null))
    case True => G.Leaf(G.Literal(G.True))
    case False => G.Leaf(G.Literal(G.False))
    case Integer(n) => G.Leaf(G.Number(NumOf(n)))
    case Real(t) => G.Leaf(G.Number(S.ScanNum(t).value.0))
    case String(t) => G.Leaf(G.Str(PrintUnits(t, fl.ascii)))
    case Array(items) =>
      if items == [] then G.EmptyArray([])
      else G.Array(Indent(fl, depth + 1, false), SynOf(items[0], fl, depth + 1), ElemsOf(items[1..], fl, depth))
    case Object(es) =>
      if es == [] then G.EmptyObject([])
      else G.Object(MemberOf(Indent(fl, depth + 1, false), es[0], fl, depth), MembersOf(es[1..], fl, depth))
  }

  function ElemsOf(items: seq<Value>, fl: Flags, depth: nat): G.Elems
    requires forall i :: 0 <= i < |items| ==> Printable(items[i])
    decreases items, 1
  {
    if items == [] then G.EndArray(Indent(fl, depth, false))
    else G.Elem([], Indent(fl, depth + 1, true), SynOf(items[0], fl, depth + 1), ElemsOf(items[1..], fl, depth))
  }

  function MemberOf(w: bytes, e: Entry, fl: Flags, depth: nat): G.Member
    requires M.GoodText(e.key) && Printable(e.value)
    decreases e, 1
  {
    G.Member(w, PrintUnits(e.key, fl.ascii), [], Separator(fl)[1..], SynOf(e.value, fl, depth + 1))
  }

  function MembersOf(es: seq<Entry>, fl: Flags, depth: nat): G.Members
    requires forall i :: 0 <= i < |es| ==> M.GoodText(es[i].key) && Printable(es[i].value)
    decreases es, 1
  {
    if es == [] then G.EndObject(Indent(fl, depth, false))
    else G.More([], MemberOf(Indent(fl, depth + 1, true), es[0], fl, depth), MembersOf(es[1..], fl, depth))
  }

  lemma {:induction false} RawTextRenders(v: Value, fl: Flags, depth: nat)
    requires Printable(v)
    ensures RawText(v, fl, depth) == G.Render(SynOf(v, fl, depth))
    decreases v, 0
  {
    match v
    case Real(t) =>
      S.ScanNumSound(t);
      var n := S.ScanNum(t).value.0;
      assert G.NumText(n) + [] == G.NumText(n);
    case String(t) =>
      assert StringText(t, fl.ascii) == G.LexText(G.Str(PrintUnits(t, fl.ascii)));
    case Array(items) =>
      if items != [] {
        ItemsRender(items, fl, depth);
      }
    case Object(es) =>
      if es != [] {
        EntriesRender(Indent(fl, depth + 1, false), es, fl, depth);
      }
    case _ =>
  }

  lemma {:induction false} ItemsRender(items: seq<Value>, fl: Flags, depth: nat)
    requires items != [] && forall i :: 0 <= i < |items| ==> Printable(items[i])
    ensures ItemsText(items, fl, depth) + [RBRACKET]
            == G.Render(SynOf(items[0], fl, depth + 1)) + G.RenderElems(ElemsOf(items[1..], fl, depth))
    decreases items, 1
  {
    RawTextRenders(items[0], fl, depth + 1);
    var text := RawText(items[0], fl, depth + 1);
    if |items| == 1 {
      Cat2(text, Indent(fl, depth, false), [RBRACKET]);
    } else {
      ItemsRender(items[1..], fl, depth);
      var ws, rest := Indent(fl, depth + 1, true), ItemsText(items[1..], fl, depth);
      S.Regroup(text, [COMMA], ws, rest, [RBRACKET]);
      Nil([COMMA] + (ws + (rest + [RBRACKET])));
      assert items[1..][1..] == items[2..] && items[1..][0] == items[1];
    }
  }

  lemma Nil(s: bytes)
    ensures [] + s == s
  {
  }

  lemma MemberText(w: bytes, k: bytes, c: bytes, wv: bytes, v: bytes, x: bytes, end: bytes)
    ensures w + ((k + ((c + wv) + (v + x))) + end) == (w + (k + ([] + (c + (wv + v))))) + (x + end)
  {
    S.Regroup(k, c + wv, v, x, end);
    Cat2(c, wv, v + (x + end));
    Nil(c + (wv + v));
    P.Cat5(w, k, c, wv, v, x + end);
  }

  lemma {:induction false} EntriesRender(w: bytes, es: seq<Entry>, fl: Flags, depth: nat)
    requires es != [] && forall i :: 0 <= i < |es| ==> M.GoodText(es[i].key) && Printable(es[i].value)
    ensures w + (EntriesText(es, fl, depth) + [RBRACE])
            == G.RenderMember(MemberOf(w, es[0], fl, depth)) + G.RenderMembers(MembersOf(es[1..], fl, depth))
    decreases es, 1
  {
    RawTextRenders(es[0].value, fl, depth + 1);
    var key, wv := StringText(es[0].key, fl.ascii), Separator(fl)[1..];
    var text := RawText(es[0].value, fl, depth + 1);
    assert Separator(fl) == [COLON] + wv;
    assert key == G.LexText(G.Str(PrintUnits(es[0].key, fl.ascii)));
    if |es| == 1 {
      MemberText(w, key, [COLON], wv, text, Indent(fl, depth, false), [RBRACE]);
    } else {
      var ws, rest := Indent(fl, depth + 1, true), EntriesText(es[1..], fl, depth);
      EntriesRender(ws, es[1..], fl, depth);
      MemberText(w, key, [COLON], wv, text, [COMMA] + (ws + rest), [RBRACE]);
      P.Cat3([COMMA], ws, rest, [RBRACE]);
      Nil([COMMA] + (ws + (rest + [RBRACE])));
      assert es[1..][1..] == es[2..] && es[1..][0] == es[1];
    }
  }
}
