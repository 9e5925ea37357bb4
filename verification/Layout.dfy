/**
  What the flags of dump.c do to a text, told without its functions: the white space of a
  dumped tree, and the characters of a string that are escaped.
 */
module Layout {
  import opened Bytes
  import opened Printing
  import opened Values
  import G = Grammar
  import M = Meaning
  import N = Objects
  import O = Ordering
  import R = RoundTrip
  import Utf8

  // -------------------------------------------------------------- white space

  /** A newline and n spaces for each level, or the given text if lines are not broken. */
  predicate Gap(w: bytes, n: nat, depth: nat, flat: bytes) {
    if n == 0 then w == flat
    else |w| == 1 + n * depth && w[0] == 10 && forall i :: 1 <= i < |w| ==> w[i] == 32
  }

  /** A tree with a gap after every opening bracket and comma and before every closing
      bracket, one text after every colon, and no other white space. */
  predicate Spread(syn: G.Syn, n: nat, depth: nat, comma: bytes, colon: bytes) {
    match syn
    case Leaf(_) => true
    case EmptyArray(w) => w == []
    case Array(w, head, tail) =>
      && Gap(w, n, depth + 1, []) && Spread(head, n, depth + 1, comma, colon) && SpreadElems(tail, n, depth, comma, colon)
    case EmptyObject(w) => w == []
    case Object(first, rest) =>
      && Gap(first.wk, n, depth + 1, []) && SpreadMember(first, n, depth, comma, colon)
      && SpreadMembers(rest, n, depth, comma, colon)
  }

  predicate SpreadElems(e: G.Elems, n: nat, depth: nat, comma: bytes, colon: bytes) {
    match e
    case EndArray(w) => Gap(w, n, depth, [])
    case Elem(w, wv, head, tail) =>
      && w == [] && Gap(wv, n, depth + 1, comma)
      && Spread(head, n, depth + 1, comma, colon) && SpreadElems(tail, n, depth, comma, colon)
  }

  predicate SpreadMember(m: G.Member, n: nat, depth: nat, comma: bytes, colon: bytes) {
    m.wc == [] && m.wv == colon && Spread(m.value, n, depth + 1, comma, colon)
  }

  predicate SpreadMembers(m: G.Members, n: nat, depth: nat, comma: bytes, colon: bytes) {
    match m
    case EndObject(w) => Gap(w, n, depth, [])
    case More(w, head, tail) =>
      && w == [] && Gap(head.wk, n, depth + 1, comma) && SpreadMember(head, n, depth, comma, colon)
      && SpreadMembers(tail, n, depth, comma, colon)
  }

  /** The texts after a comma that ends no line, and after a colon. */
  ghost predicate Chosen(fl: Flags, comma: bytes, colon: bytes) {
    comma == colon == if fl.compact then [] else [32]
  }

  lemma GapIs(fl: Flags, depth: nat, space: bool, comma: bytes, colon: bytes)
    requires Chosen(fl, comma, colon)
    ensures Gap(Indent(fl, depth, space), fl.indent, depth, if space then comma else [])
  {
  }

  lemma {:induction false} TreeSpread(v: Value, fl: Flags, depth: nat, comma: bytes, colon: bytes)
    requires Printable(v) && Chosen(fl, comma, colon)
    ensures Spread(SynOf(v, fl, depth), fl.indent, depth, comma, colon)
    decreases v, 0
  {
    hide Gap, Indent;
    GapIs(fl, depth + 1, false, comma, colon);
    match v
    case Array(items) =>
      if items != [] {
        TreeSpread(items[0], fl, depth + 1, comma, colon);
        ElemsSpread(items[1..], fl, depth, comma, colon);
      }
    case Object(es) =>
      if es != [] {
        TreeSpread(es[0].value, fl, depth + 1, comma, colon);
        MembersSpread(es[1..], fl, depth, comma, colon);
      }
    case _ =>
  }

  lemma {:induction false} ElemsSpread(items: seq<Value>, fl: Flags, depth: nat, comma: bytes, colon: bytes)
    requires (forall i :: 0 <= i < |items| ==> Printable(items[i])) && Chosen(fl, comma, colon)
    ensures SpreadElems(ElemsOf(items, fl, depth), fl.indent, depth, comma, colon)
    decreases items, 1
  {
    hide Gap, Indent;
    GapIs(fl, depth, false, comma, colon);
    GapIs(fl, depth + 1, true, comma, colon);
    if items != [] {
      TreeSpread(items[0], fl, depth + 1, comma, colon);
      ElemsSpread(items[1..], fl, depth, comma, colon);
    }
  }

  lemma {:induction false} MembersSpread(es: seq<Entry>, fl: Flags, depth: nat, comma: bytes, colon: bytes)
    requires (forall i :: 0 <= i < |es| ==> M.GoodText(es[i].key) && Printable(es[i].value)) && Chosen(fl, comma, colon)
    ensures SpreadMembers(MembersOf(es, fl, depth), fl.indent, depth, comma, colon)
    decreases es, 1
  {
    hide Gap, Indent;
    GapIs(fl, depth, false, comma, colon);
    GapIs(fl, depth + 1, true, comma, colon);
    if es != [] {
      TreeSpread(es[0].value, fl, depth + 1, comma, colon);
      MembersSpread(es[1..], fl, depth, comma, colon);
    }
  }

  /** A dump is the text of a tree whose white space the flags decide: none at all with
      JSON_COMPACT; a space after each comma and colon without it; and with JSON_INDENT(n) a
      line for each element, n spaces deep for each level. */
  lemma DumpLayout(v: Value, fl: Flags, depth: nat)
    requires Printable(v)
    ensures var syn := SynOf(v, fl, depth);
            && RawText(v, fl, depth) == G.Render(syn)
            && (fl.indent == 0 && fl.compact ==> Spread(syn, 0, depth, [], []))
            && (fl.indent == 0 && !fl.compact ==> Spread(syn, 0, depth, [32], [32]))
            && (fl.indent > 0 ==> Spread(syn, fl.indent, depth, if fl.compact then [] else [32], if fl.compact then [] else [32]))
  {
    RawTextRenders(v, fl, depth);
    TreeSpread(v, fl, depth, if fl.compact then [] else [32], if fl.compact then [] else [32]);
  }

  // ------------------------------------------------------------------ escapes

  /** A lower-case hexadecimal digit. */
  predicate Digit(b: byte, d: int) {
    (0 <= d < 10 && b as int == 48 + d) || (10 <= d < 16 && b as int == 97 + d - 10)
  }

  /** \u and four digits. */
  predicate Spells(u: G.Unit, v: int) {
    u.Hex? && Digit(u.h0, v / 4096) && Digit(u.h1, v / 256 % 16) && Digit(u.h2, v / 16 % 16) && Digit(u.h3, v % 16)
  }

  /** How a byte is printed that is not part of an escaped character beyond ASCII: quotation
      mark, backslash and what lies below 0x20 are escaped, anything else stands for itself. */
  predicate Printed(u: G.Unit, b: byte) {
    if b == 34 || b == 92 then u == G.Short(b)
    else if b == 8 then u == G.Short(98)
    else if b == 9 then u == G.Short(116)
    else if b == 10 then u == G.Short(110)
    else if b == 12 then u == G.Short(102)
    else if b == 13 then u == G.Short(114)
    else if b < 0x20 then Spells(u, b as int)
    else u == G.Raw(b)
  }

  lemma HexUnitSpells(v: nat)
    requires v < 0x10000
    ensures Spells(HexUnit(v), v)
  {
  }

  /** The pieces of a literal that one character gives. */
  lemma OneCharacter(t: bytes, ascii: bool)
    requires Utf8.ValidText(t) && t != []
    ensures Utf8.Next(t).Some? && Utf8.ValidText(t[Utf8.Next(t).value..]) && Utf8.IsScalar(Utf8.CodePoint(t))
    ensures var n, cp := Utf8.Next(t).value, Utf8.CodePoint(t);
            PrintUnits(t, ascii) ==
            (if NeedsEscape(cp, ascii) then EscapeUnits(cp) else RawUnits(t[..n])) + PrintUnits(t[n..], ascii)
  {
    hide EscapeUnits, RawUnits, NeedsEscape;
  }

  lemma AsciiCharacter(b: byte, ascii: bool)
    requires b < 0x80
    ensures var us := if NeedsEscape(b as int, ascii) then EscapeUnits(b as int) else RawUnits([b]);
            |us| == 1 && Printed(us[0], b)
  {
    if b == 34 || b == 92 || b < 0x20 {
      HexUnitSpells(b as nat);
      hide HexUnit, Spells;
    } else {
      assert [b][1..] == [] && RawUnits([b]) == [G.Raw(b)] + RawUnits([]);
    }
  }

  lemma PlainFirst(t: bytes, ascii: bool)
    requires Utf8.ValidText(t) && t != [] && t[0] < 0x80
    ensures Utf8.ValidText(t[1..]) && PrintUnits(t, ascii) != []
    ensures Printed(PrintUnits(t, ascii)[0], t[0]) && PrintUnits(t, ascii)[1..] == PrintUnits(t[1..], ascii)
  {
    OneCharacter(t, ascii);
    AsciiCharacter(t[0], ascii);
    assert Utf8.Next(t) == Some(1) && Utf8.CodePoint(t) == t[0] as int && t[..1] == [t[0]];
    hide Printed, PrintUnits, EscapeUnits, RawUnits, NeedsEscape, Utf8.ValidText;
  }

  lemma {:induction false} RawPrinted(s: bytes)
    requires forall i :: 0 <= i < |s| ==> s[i] >= 0x80
    ensures forall i :: 0 <= i < |s| ==> Printed(RawUnits(s)[i], s[i])
  {
    if s != [] {
      assert forall i :: 0 <= i < |s| - 1 ==> s[1..][i] == s[i+1];
      RawPrinted(s[1..]);
    }
  }

  /** Without JSON_ENSURE_ASCII each byte is printed for itself, and so it is with the flag in
      a text that is plain ASCII. */
  lemma {:induction false} BytesPrinted(t: bytes, ascii: bool)
    requires Utf8.ValidText(t) && (ascii ==> forall i :: 0 <= i < |t| ==> t[i] < 0x80)
    ensures |PrintUnits(t, ascii)| == |t| && forall i :: 0 <= i < |t| ==> Printed(PrintUnits(t, ascii)[i], t[i])
    decreases |t|
  {
    if t != [] {
      hide Printed, PrintUnits;
      if t[0] < 0x80 {
        PlainFirst(t, ascii);
        BytesPrinted(t[1..], ascii);
        assert forall i :: 1 <= i < |t| ==> PrintUnits(t, ascii)[i] == PrintUnits(t[1..], ascii)[i-1] && t[i] == t[1..][i-1];
      } else {
        WideFirst(t);
        var n := Utf8.Next(t).value;
        BytesPrinted(t[n..], ascii);
        hide RawUnits, Utf8.Next, Utf8.ValidText;
        Joined(t, n, PrintUnits(t, ascii), RawUnits(t[..n]), PrintUnits(t[n..], ascii));
      }
    }
  }

  lemma Joined(t: bytes, n: nat, us: seq<G.Unit>, head: seq<G.Unit>, tail: seq<G.Unit>)
    requires n <= |t| && us == head + tail && |head| == n && |tail| == |t| - n
    requires forall i :: 0 <= i < n ==> Printed(head[i], t[..n][i])
    requires forall i :: 0 <= i < |t| - n ==> Printed(tail[i], t[n..][i])
    ensures |us| == |t| && forall i :: 0 <= i < |t| ==> Printed(us[i], t[i])
  {
    hide Printed;
    forall i | 0 <= i < |t|
      ensures Printed(us[i], t[i])
    {
      if i < n {
        assert us[i] == head[i] && t[i] == t[..n][i];
      } else {
        assert us[i] == tail[i-n] && t[i] == t[n..][i-n];
      }
    }
  }

  lemma WideBytes(t: bytes)
    requires Utf8.ValidText(t) && t != [] && t[0] >= 0x80
    ensures Utf8.CodePoint(t) >= 0x80 && 0 < Utf8.Next(t).value <= |t|
    ensures forall i :: 0 <= i < Utf8.Next(t).value ==> t[..Utf8.Next(t).value][i] >= 0x80
  {
    Utf8.EncodeDecode(t[..Utf8.Next(t).value]);
  }

  /** Without the flag a character beyond ASCII is printed as its bytes. */
  lemma WideFirst(t: bytes)
    requires Utf8.ValidText(t) && t != [] && t[0] >= 0x80
    ensures var n := Utf8.Next(t).value;
            && 0 < n <= |t| && Utf8.ValidText(t[n..]) && PrintUnits(t, false) == RawUnits(t[..n]) + PrintUnits(t[n..], false)
            && forall i :: 0 <= i < n ==> Printed(RawUnits(t[..n])[i], t[..n][i])
  {
    WideBytes(t);
    OneCharacter(t, false);
    hide Utf8.Next, Utf8.ValidText, Utf8.CodePoint, Printed, RawUnits, PrintUnits;
    RawPrinted(t[..Utf8.Next(t).value]);
  }

  /** With JSON_ENSURE_ASCII a character beyond ASCII is printed as its number in four digits,
      or as the two surrogates of RFC 2781 section 2.1. */
  lemma BeyondPrinted(t: bytes)
    requires Utf8.ValidText(t) && t != [] && t[0] >= 0x80
    ensures var n, cp, us := Utf8.Next(t).value, Utf8.CodePoint(t), PrintUnits(t, true);
            if cp < 0x10000 then us != [] && Spells(us[0], cp) && us[1..] == PrintUnits(t[n..], true)
            else |us| > 1 && Spells(us[0], 0xD800 + (cp - 0x10000) / 0x400) && Spells(us[1], 0xDC00 + (cp - 0x10000) % 0x400)
                 && us[2..] == PrintUnits(t[n..], true)
  {
    WideBytes(t);
    OneCharacter(t, true);
    hide Utf8.Next, Utf8.ValidText, Utf8.CodePoint, PrintUnits, RawUnits;
    var n, cp := Utf8.Next(t).value, Utf8.CodePoint(t);
    BeyondEscape(cp, PrintUnits(t[n..], true));
  }

  lemma BeyondEscape(cp: int, rest: seq<G.Unit>)
    requires Utf8.IsScalar(cp) && cp >= 0x80
    ensures var us := EscapeUnits(cp) + rest;
            if cp < 0x10000 then us != [] && Spells(us[0], cp) && us[1..] == rest
            else |us| > 1 && Spells(us[0], 0xD800 + (cp - 0x10000) / 0x400) && Spells(us[1], 0xDC00 + (cp - 0x10000) % 0x400)
                 && us[2..] == rest
  {
    if cp < 0x10000 {
      HexUnitSpells(cp);
      hide HexUnit, Spells;
      assert ([HexUnit(cp)] + rest)[1..] == rest;
    } else {
      var high, low := 0xD800 + (cp - 0x10000) / 0x400, 0xDC00 + (cp - 0x10000) % 0x400;
      HexUnitSpells(high);
      HexUnitSpells(low);
      hide HexUnit, Spells;
      assert ([HexUnit(high), HexUnit(low)] + rest)[2..] == rest;
    }
  }

  // ---------------------------------------------------------- texts in full

  /** null, true, false, [] and {}. */
  lemma ScalarsDumped(fl: Flags, depth: nat)
    ensures RawText(Null, fl, depth) == [110, 117, 108, 108]
    ensures RawText(True, fl, depth) == [116, 114, 117, 101] && RawText(False, fl, depth) == [102, 97, 108, 115, 101]
    ensures RawText(Array([]), fl, depth) == [91, 93] && RawText(Object([]), fl, depth) == [123, 125]
  {
  }

  lemma DigitDumped(d: nat, fl: Flags, depth: nat)
    requires d < 10
    ensures Printable(Integer(d)) && RawText(Integer(d), fl, depth) == [(48 + d) as byte]
  {
    assert DecText(d) == [(48 + d) as byte];
  }

  lemma DigitsDumped(fl: Flags)
    ensures Printable(Array([Integer(1), Integer(2)]))
    ensures RawText(Array([Integer(1), Integer(2)]), fl, 0) ==
            [91] + (Indent(fl, 1, false) + (([49] + ([44] + (Indent(fl, 1, true) + ([50] + Indent(fl, 0, false))))) + [93]))
  {
    DigitDumped(1, fl, 1);
    DigitDumped(2, fl, 1);
    ArrayPieces(fl, Integer(1), Integer(2));
    hide RawText, Indent, Printable;
  }

  /** [1,2], with lines unbroken and broken. */
  lemma ArrayDumped(fl: Flags)
    ensures Printable(Array([Integer(1), Integer(2)]))
    ensures var text := RawText(Array([Integer(1), Integer(2)]), fl, 0);
            && (fl.indent == 0 ==> text == [91, 49, 44] + (if fl.compact then [] else [32]) + [50, 93])
            && (fl.indent == 2 ==> text == [91, 10, 32, 32, 49, 44, 10, 32, 32, 50, 10, 93])
  {
    DigitsDumped(fl);
    IndentAre(fl);
    hide RawText, Indent, Printable;
    if fl.indent == 0 {
      Unbroken(if fl.compact then [] else [32]);
    } else if fl.indent == 2 {
      Broken();
    }
  }

  lemma Unbroken(c: bytes)
    ensures [91] + ([] + (([49] + ([44] + (c + ([50] + [])))) + [93])) == [91, 49, 44] + c + [50, 93]
  {
  }

  lemma Broken()
    ensures [91] + ([10, 32, 32] + (([49] + ([44] + ([10, 32, 32] + ([50] + [10])))) + [93]))
            == [91, 10, 32, 32, 49, 44, 10, 32, 32, 50, 10, 93]
  {
  }

  lemma IndentAre(fl: Flags)
    ensures fl.indent == 0 ==> Indent(fl, 0, false) == Indent(fl, 1, false) == []
    ensures fl.indent == 0 ==> Indent(fl, 1, true) == if fl.compact then [] else [32]
    ensures fl.indent == 1 ==> Indent(fl, 0, false) == [10] && Indent(fl, 1, false) == Indent(fl, 1, true) == [10, 32]
    ensures fl.indent == 2 ==> Indent(fl, 0, false) == [10] && Indent(fl, 1, false) == Indent(fl, 1, true) == [10, 32, 32]
  {
    assert Spaces(0) == [] && Spaces(1) == [32] && Spaces(2) == [32, 32];
  }

  lemma ArrayPieces(fl: Flags, v: Value, w: Value)
    requires Printable(v) && Printable(w)
    ensures Printable(Array([v, w])) && RawText(Array([v, w]), fl, 0) ==
            [91] + (Indent(fl, 1, false) + ((RawText(v, fl, 1) + ([44] + (Indent(fl, 1, true) + (RawText(w, fl, 1) + Indent(fl, 0, false))))) + [93]))
  {
    hide Indent, ItemsText;
    assert RawText(Array([v, w]), fl, 0) == [91] + (Indent(fl, 1, false) + (ItemsText([v, w], fl, 0) + [93]));
    ItemsPieces(fl, v, w);
  }

  lemma ItemsPieces(fl: Flags, v: Value, w: Value)
    requires Printable(v) && Printable(w)
    ensures ItemsText([v, w], fl, 0) == RawText(v, fl, 1) + ([44] + (Indent(fl, 1, true) + (RawText(w, fl, 1) + Indent(fl, 0, false))))
  {
    hide RawText, Indent;
    assert [v, w][1..] == [w];
    assert ItemsText([w], fl, 0) == RawText(w, fl, 1) + Indent(fl, 0, false);
  }

  lemma PairDumped(fl: Flags, serial: nat)
    ensures Printable(Object([Entry([97], serial, False)]))
    ensures RawText(Object([Entry([97], serial, False)]), fl, 0) ==
            [123] + (Indent(fl, 1, false) + (([34, 97, 34] + (Separator(fl) + ([102, 97, 108, 115, 101] + Indent(fl, 0, false)))) + [125]))
  {
    LetterText(fl.ascii);
    M.GoodByte(97);
    hide M.GoodText;
    ObjectPieces(fl, [97], serial, False);
    ScalarsDumped(fl, 1);
    hide RawText, Indent, StringText;
  }

  /** {"a":false}, with lines unbroken and broken. */
  lemma ObjectDumped(fl: Flags, serial: nat)
    ensures Printable(Object([Entry([97], serial, False)]))
    ensures var text := RawText(Object([Entry([97], serial, False)]), fl, 0);
            var colon := if fl.compact then [58] else [58, 32];
            && (fl.indent == 0 ==> text == [123, 34, 97, 34] + colon + [102, 97, 108, 115, 101, 125])
            && (fl.indent == 1 ==> text == [123, 10, 32, 34, 97, 34] + colon + [102, 97, 108, 115, 101, 10, 125])
  {
    PairDumped(fl, serial);
    IndentAre(fl);
    hide RawText, Indent, Printable;
    if fl.indent == 0 {
      UnbrokenPair(Separator(fl));
    } else if fl.indent == 1 {
      BrokenPair(Separator(fl));
    }
  }

  lemma UnbrokenPair(c: bytes)
    ensures [123] + ([] + (([34, 97, 34] + (c + ([102, 97, 108, 115, 101] + []))) + [125]))
            == [123, 34, 97, 34] + c + [102, 97, 108, 115, 101, 125]
  {
  }

  lemma BrokenPair(c: bytes)
    ensures [123] + ([10, 32] + (([34, 97, 34] + (c + ([102, 97, 108, 115, 101] + [10]))) + [125]))
            == [123, 10, 32, 34, 97, 34] + c + [102, 97, 108, 115, 101, 10, 125]
  {
  }

  lemma ObjectPieces(fl: Flags, key: bytes, serial: nat, v: Value)
    requires M.GoodText(key) && Printable(v)
    ensures Printable(Object([Entry(key, serial, v)])) && RawText(Object([Entry(key, serial, v)]), fl, 0) ==
            [123] + (Indent(fl, 1, false) + ((StringText(key, fl.ascii) + (Separator(fl) + (RawText(v, fl, 1) + Indent(fl, 0, false)))) + [125]))
  {
    hide Indent, StringText, Separator, EntriesText, M.GoodText;
    var es := [Entry(key, serial, v)];
    assert RawText(Object(es), fl, 0) == [123] + (Indent(fl, 1, false) + (EntriesText(es, fl, 0) + [125]));
    EntryPieces(fl, key, serial, v);
  }

  lemma EntryPieces(fl: Flags, key: bytes, serial: nat, v: Value)
    requires M.GoodText(key) && Printable(v)
    ensures EntriesText([Entry(key, serial, v)], fl, 0) ==
            StringText(key, fl.ascii) + (Separator(fl) + (RawText(v, fl, 1) + Indent(fl, 0, false)))
  {
    hide RawText, Indent, StringText, Separator;
  }

  lemma LetterText(ascii: bool)
    ensures Utf8.ValidText([97]) && StringText([97], ascii) == [34, 97, 34]
  {
    M.GoodByte(97);
    BytesPrinted([97], ascii);
    var us := PrintUnits([97], ascii);
    assert us == [G.Raw(97)] && us[1..] == [];
    hide PrintUnits;
    assert G.UnitsText(us) == G.UnitText(us[0]) + G.UnitsText([]);
  }

  // ------------------------------------------------------------ order of keys

  /** The serials of an object's entries differ, by less than 2^31. */
  predicate SerialsNear(es: seq<Entry>) {
    && (forall i, j :: 0 <= i < j < |es| ==> es[i].serial != es[j].serial)
    && forall a <- es, b <- es :: -0x8000_0000 < a.serial - b.serial < 0x8000_0000
  }

  ghost predicate PartsBefore(a: bytes, b: bytes) { exists p: nat :: O.Parts(a, b, p) }

  ghost predicate KeysRise(r: seq<Entry>) {
    forall i, j :: 0 <= i < j < |r| ==> PartsBefore(r[i].key, r[j].key)
  }

  ghost predicate SerialsRise(r: seq<Entry>) {
    forall i, j :: 0 <= i < j < |r| ==> r[i].serial < r[j].serial
  }

  /** JSON_SORT_KEYS lists an object's keys by their first differing byte, whether or not
      JSON_PRESERVE_ORDER is given too; that alone lists them by rising serial, if the serials
      are near each other; without either they keep the order of the iteration. */
  lemma KeysArranged(es: seq<Entry>, fl: Flags)
    requires DistinctKeys(es)
    ensures var r := R.Order(es, fl);
            && |r| == |es| && (forall e :: e in r <==> e in es)
            && (fl.sortKeys ==> KeysRise(r))
            && (!fl.sortKeys && fl.preserveOrder && SerialsNear(es) ==> SerialsRise(r))
            && (!fl.sortKeys && !fl.preserveOrder ==> r == es)
  {
    R.SameMembers(R.Order(es, fl), es);
    if fl.sortKeys {
      KeysSorted(es);
    } else if fl.preserveOrder && SerialsNear(es) {
      SerialsSorted(es);
    }
    hide SerialsNear, KeysRise, SerialsRise, O.Sort, DistinctKeys;
  }

  lemma KeysSorted(es: seq<Entry>)
    requires DistinctKeys(es)
    ensures KeysRise(O.Sort(es, O.KeyBefore))
  {
    N.KeysOrdered(es);
    O.SortAscends(es, O.KeyBefore);
    var r := O.Sort(es, O.KeyBefore);
    hide O.Sort, O.Orders, O.Parts, O.KeyLess;
    forall i, j | 0 <= i < j < |r|
      ensures PartsBefore(r[i].key, r[j].key)
    {
      assert O.KeyBefore(r[i], r[j]);
      O.KeyLessParts(r[i].key, r[j].key);
    }
  }

  lemma SerialsSorted(es: seq<Entry>)
    requires SerialsNear(es)
    ensures SerialsRise(O.Sort(es, O.SerialBefore))
  {
    forall a <- O.Set(es), b <- O.Set(es)
      ensures N.Near(a, b)
    {
      assert a in es && b in es;
    }
    hide O.SerialBefore, O.Sort, O.Orders;
    N.OrderedBySerial(es);
    O.SortAscends(es, O.SerialBefore);
    var r := O.Sort(es, O.SerialBefore);
    forall i, j | 0 <= i < j < |r|
      ensures r[i].serial < r[j].serial
    {
      assert O.SerialBefore(r[i], r[j]) && r[i] in es && r[j] in es;
      N.BeforeBySerial(r[i], r[j]);
    }
  }
}
