/**
  The value a syntax tree means, and what the parser promises about the strings in it.
 */
module Meaning {
  import opened Bytes
  import opened Grammar
  import opened Scanning
  import opened Parsing
  import Utf8
  import V = Values

  /** The value parse_value builds from a token. */
  function LexValue(lex: Lexeme): V.Value {
    match lex
    case Str(us) => V.String(KeyOf(us))
    case Number(n) => if IsInteger(n) then V.Integer(IntValue(n)) else V.Real(NumText(n))
    case Literal(True) => V.True
    case Literal(False) => V.False
    case _ => V.Null
  }

  function ValueOf(syn: Syn): V.Value
    decreases syn
  {
    match syn
    case Leaf(lex) => LexValue(lex)
    case EmptyArray(_) => V.Array([])
    case Array(_, head, tail) => V.Array(ElemValues([ValueOf(head)], tail))
    case EmptyObject(_) => V.Object([])
    case Object(first, rest) => V.Object(MemberValues(V.Set([], 0, KeyOf(first.key), ValueOf(first.value)), 1, rest))
  }

  /** The array after its elements have been appended one by one. */
  function ElemValues(items: seq<V.Value>, e: Elems): seq<V.Value>
    decreases e
  {
    match e
    case EndArray(_) => items
    case Elem(_, _, head, tail) => ElemValues(items + [ValueOf(head)], tail)
  }

  /** The object after its members have been set one by one; `serial` is the next serial. */
  function MemberValues(es: seq<V.Entry>, serial: nat, m: Members): seq<V.Entry>
    decreases m
  {
    match m
    case EndObject(_) => es
    case More(_, head, tail) => MemberValues(V.Set(es, serial, KeyOf(head.key), ValueOf(head.value)), serial + 1, tail)
  }

  /** The elements of an array after its first one. */
  function Elements(e: Elems): seq<Syn> {
    match e
    case EndArray(_) => []
    case Elem(_, _, head, tail) => [head] + Elements(tail)
  }

  /** An array holds what its elements mean, in their order. */
  lemma {:induction false} ElementsInOrder(items: seq<V.Value>, e: Elems)
    ensures var r, es := ElemValues(items, e), Elements(e);
            && |r| == |items| + |es| && r[..|items|] == items
            && forall i :: 0 <= i < |es| ==> r[|items| + i] == ValueOf(es[i])
    decreases e
  {
    if e.Elem? {
      var more := items + [ValueOf(e.head)];
      ElementsInOrder(more, e.tail);
      var r := ElemValues(items, e);
      assert r[..|more|][..|items|] == r[..|items|] && r[|items|] == r[..|more|][|items|];
    }
  }

  /** The members of an object after its first one. */
  function Pairs(m: Members): seq<Member> {
    match m
    case EndObject(_) => []
    case More(_, head, tail) => [head] + Pairs(tail)
  }

  /** Member i is the last one with its key. */
  ghost predicate Last(ms: seq<Member>, i: nat) {
    i < |ms| && forall j :: i < j < |ms| ==> KeyOf(ms[j].key) != KeyOf(ms[i].key)
  }

  /** Keys that no member names hold what they held before. */
  lemma {:induction false} OtherKeysStay(es: seq<V.Entry>, serial: nat, m: Members, k: bytes)
    requires V.DistinctKeys(es) && forall i :: 0 <= i < |Pairs(m)| ==> KeyOf(Pairs(m)[i].key) != k
    ensures V.DistinctKeys(MemberValues(es, serial, m)) && V.Get(MemberValues(es, serial, m), k) == V.Get(es, k)
    decreases m
  {
    hide KeyOf, V.Get, V.Set, V.DistinctKeys, ValueOf;
    if m.More? {
      V.SetGets(es, serial, KeyOf(m.head.key), ValueOf(m.head.value));
      assert Pairs(m)[0] == m.head && forall i :: 0 <= i < |Pairs(m.tail)| ==> Pairs(m.tail)[i] == Pairs(m)[i+1];
      OtherKeysStay(V.Set(es, serial, KeyOf(m.head.key), ValueOf(m.head.value)), serial + 1, m.tail, k);
    }
  }

  /** Under a key that members name an object holds what the last of them means. */
  lemma {:induction false} LastMemberWins(es: seq<V.Entry>, serial: nat, m: Members, i: nat)
    requires V.DistinctKeys(es) && Last(Pairs(m), i)
    ensures V.DistinctKeys(MemberValues(es, serial, m))
    ensures V.Get(MemberValues(es, serial, m), KeyOf(Pairs(m)[i].key)) == Some(ValueOf(Pairs(m)[i].value))
    decreases m
  {
    hide KeyOf, V.Get, V.Set, V.DistinctKeys, ValueOf;
    var key, value := KeyOf(m.head.key), ValueOf(m.head.value);
    V.SetGets(es, serial, key, value);
    assert Pairs(m)[0] == m.head && forall j :: 0 <= j < |Pairs(m.tail)| ==> Pairs(m.tail)[j] == Pairs(m)[j+1];
    if i == 0 {
      OtherKeysStay(V.Set(es, serial, key, value), serial + 1, m.tail, key);
    } else {
      assert Last(Pairs(m.tail), i - 1);
      LastMemberWins(V.Set(es, serial, key, value), serial + 1, m.tail, i - 1);
    }
  }

  predicate EntriesWellFormed(es: seq<V.Entry>) {
    V.WellFormed(V.Object(es))
  }

  lemma SetWellFormed(es: seq<V.Entry>, serial: nat, key: bytes, value: V.Value)
    requires EntriesWellFormed(es) && V.WellFormed(value)
    ensures EntriesWellFormed(V.Set(es, serial, key, value))
  {
  }

  lemma {:induction false} ValueWellFormed(syn: Syn)
    ensures V.WellFormed(ValueOf(syn))
    decreases syn, 1
  {
    match syn
    case Leaf(lex) =>
    case EmptyArray(_) =>
    case Array(_, head, tail) =>
      ValueWellFormed(head);
      ElemsWellFormed([ValueOf(head)], tail);
    case EmptyObject(_) =>
    case Object(first, rest) =>
      ValueWellFormed(first.value);
      SetWellFormed([], 0, KeyOf(first.key), ValueOf(first.value));
      MembersWellFormed(V.Set([], 0, KeyOf(first.key), ValueOf(first.value)), 1, rest);
  }

  lemma {:induction false} ElemsWellFormed(items: seq<V.Value>, e: Elems)
    requires V.WellFormed(V.Array(items))
    ensures V.WellFormed(V.Array(ElemValues(items, e)))
    decreases e
  {
    if e.Elem? {
      ValueWellFormed(e.head);
      ElemsWellFormed(items + [ValueOf(e.head)], e.tail);
    }
  }

  lemma {:induction false} MembersWellFormed(es: seq<V.Entry>, serial: nat, m: Members)
    requires EntriesWellFormed(es)
    ensures EntriesWellFormed(MemberValues(es, serial, m))
    decreases m
  {
    if m.More? {
      ValueWellFormed(m.head.value);
      SetWellFormed(es, serial, KeyOf(m.head.key), ValueOf(m.head.value));
      MembersWellFormed(V.Set(es, serial, KeyOf(m.head.key), ValueOf(m.head.value)), serial + 1, m.tail);
    }
  }

  // ------------------------------------------------------- strings are UTF-8

  /** A C string the library may hold: valid UTF-8 without a NUL. */
  predicate GoodText(t: bytes) { Utf8.ValidText(t) && 0 !in t }

  lemma DropAscii(s: bytes, n: nat)
    requires Utf8.ValidText(s) && n <= |s| && forall i :: 0 <= i < n ==> s[i] < 0x80
    ensures Utf8.ValidText(s[n..])
    decreases n
  {
    if n > 0 {
      assert s[0] < 0x80;
      assert forall i :: 0 <= i < n - 1 ==> s[1..][i] == s[i+1];
      DropAscii(s[1..], n - 1);
      assert s[1..][n-1..] == s[n..];
    } else {
      assert s[0..] == s;
    }
  }

  lemma GoodConcat(a: bytes, b: bytes)
    requires GoodText(a) && GoodText(b)
    ensures GoodText(a + b)
  {
    Utf8.ValidConcat(a, b);
  }

  lemma GoodByte(b: byte)
    requires 0 < b < 0x80
    ensures GoodText([b])
  {
    assert [b][1..] == [] && Utf8.Decode([b][1..]) == Some([]);
  }

  lemma GoodEncoding(cp: int)
    requires Utf8.IsScalar(cp) && cp != 0
    ensures Utf8.Encode(cp).Some? && GoodText(Utf8.Encode(cp).value)
  {
    Utf8.NextEncoded(cp, []);
    Utf8.DecodeEncode(cp);
    var e := Utf8.Encode(cp).value;
    assert e + [] == e && e[|e|..] == [] && Utf8.Decode(e[|e|..]) == Some([]);
    if |e| > 1 {
      Utf8.EncodeDecode(e);
    }
  }

  /** Raw bytes stand for themselves. */
  lemma {:induction false} RawRun(t: bytes, n: nat)
    requires Units(t).Some? && n <= |t| && forall i :: 0 <= i < n ==> t[i] >= 0x80
    ensures Units(t[n..]).Some? && Units(t[n..]).value.1 == Units(t).value.1
    ensures DecodeUnits(Units(t).value.0) == Prefixed(t[..n], DecodeUnits(Units(t[n..]).value.0))
    decreases n
  {
    hide Units, DecodeUnits;
    if n == 0 {
      assert t[0..] == t;
      var d := DecodeUnits(Units(t).value.0);
      assert d.Text? ==> [] + d.text == d.text;
    } else {
      hide Prefixed;
      RawFirst(t);
      RawRun(t[1..], n - 1);
      assert t[1..][n-1..] == t[n..] && t[..n] == [t[0]] + t[1..][..n-1];
      PrefixedTwice([t[0]], t[1..][..n-1], DecodeUnits(Units(t[n..]).value.0));
    }
  }

  lemma RawFirst(t: bytes)
    requires Units(t).Some? && t != [] && t[0] >= 0x80
    ensures Units(t[1..]).Some? && Units(t[1..]).value.1 == Units(t).value.1
    ensures DecodeUnits(Units(t).value.0) == Prefixed([t[0]], DecodeUnits(Units(t[1..]).value.0))
  {
    hide Prefixed;
    IsConsed(t, Raw(t[0]), 1);
    hide Units;
  }

  /** The units of text that is itself valid UTF-8 decode to valid, NUL-free UTF-8, and
      the text after the closing quote is still at a character boundary. */
  lemma {:induction false} UnitsGood(t: bytes)
    requires Utf8.ValidText(t) && Units(t).Some? && DecodeUnits(Units(t).value.0).Text?
    ensures GoodText(DecodeUnits(Units(t).value.0).text) && Utf8.ValidText(Units(t).value.1)
    decreases |t|
  {
    var us := Units(t).value.0;
    if t[0] == QUOTE {
      DropAscii(t, 1);
    } else if t[0] >= 0x80 {
      var n := Utf8.Next(t).value;
      Utf8.EncodeDecode(t[..n]);
      assert forall i :: 0 <= i < n ==> t[i] == t[..n][i];
      RawRun(t, n);
      UnitsGood(t[n..]);
      WholeSequenceGood(t);
      GoodConcat(t[..n], DecodeUnits(Units(t[n..]).value.0).text);
    } else if t[0] != BACKSLASH {
      PlainUnitGood(t);
    } else if t[1] != 117 {
      ShortUnitGood(t);
    } else {
      EscapeGood(t);
    }
  }

  lemma {:induction false} PlainUnitGood(t: bytes)
    requires Utf8.ValidText(t) && Units(t).Some? && DecodeUnits(Units(t).value.0).Text?
    requires t[0] != QUOTE && t[0] < 0x80 && t[0] != BACKSLASH
    ensures GoodText(DecodeUnits(Units(t).value.0).text) && Utf8.ValidText(Units(t).value.1)
    decreases |t|, 0
  {
    var us := Units(t).value.0;
    assert us[0] == Raw(t[0]) && us[1..] == Units(t[1..]).value.0;
    DropAscii(t, 1);
    hide Utf8.ValidText, GoodText;
    UnitsGood(t[1..]);
    GoodByte(t[0]);
    GoodConcat([t[0]], DecodeUnits(us[1..]).text);
  }

  lemma {:induction false} ShortUnitGood(t: bytes)
    requires Utf8.ValidText(t) && Units(t).Some? && DecodeUnits(Units(t).value.0).Text? && |t| > 1
    requires t[0] == BACKSLASH && t[1] != 117
    ensures GoodText(DecodeUnits(Units(t).value.0).text) && Utf8.ValidText(Units(t).value.1)
    decreases |t|, 0
  {
    var us := Units(t).value.0;
    assert us[0] == Short(t[1]) && us[1..] == Units(t[2..]).value.0;
    DropAscii(t, 2);
    hide Utf8.ValidText, GoodText;
    UnitsGood(t[2..]);
    GoodByte(Unescape(t[1]));
    GoodConcat([Unescape(t[1])], DecodeUnits(us[1..]).text);
  }

  lemma WholeSequenceGood(t: bytes)
    requires Utf8.Next(t).Some? && t[0] >= 0x80
    ensures GoodText(t[..Utf8.Next(t).value])
  {
    var n := Utf8.Next(t).value;
    Utf8.EncodeDecode(t[..n]);
    GoodEncoding(Utf8.FullValue(t[..n]).value);
  }

  lemma {:induction false} EscapeGood(t: bytes)
    requires Utf8.ValidText(t) && |t| >= 6 && t[0] == BACKSLASH && t[1] == 117
    requires Units(t).Some? && DecodeUnits(Units(t).value.0).Text?
    ensures GoodText(DecodeUnits(Units(t).value.0).text) && Utf8.ValidText(Units(t).value.1)
    decreases |t|, 0
  {
    hide Utf8.ValidText, GoodText, DecodeUnits, EscapeValue, IsAlnum, IsHighSurrogate;
    var us := Units(t).value.0;
    var u := t[6..];
    HexFirst(t);
    hide Units;
    HexAscii(us);
    DropAscii(t, 6);
    if IsHighSurrogate(EscapeValue(t[2], t[3], t[4], t[5]).value) {
      PairFirst(us);
      assert us[2..] == us[1..][1..] && us[1] == us[1..][0];
      PairedEscape(u);
      DropAscii(u, 6);
      UnitsGood(u[6..]);
    } else {
      SingleFirst(us);
      UnitsGood(u);
    }
    HexGood(us);
  }

  lemma HexFirst(t: bytes)
    requires |t| >= 6 && t[0] == BACKSLASH && t[1] == 117 && Units(t).Some?
    ensures var us := Units(t).value.0;
            us != [] && us[0] == Hex(t[2], t[3], t[4], t[5]) && Units(t[6..]) == Some((us[1..], Units(t).value.1))
  {
    Six(t);
    IsConsed(t, Hex(t[2], t[3], t[4], t[5]), 6);
  }

  lemma HexAscii(us: seq<Unit>)
    requires us != [] && us[0].Hex? && DecodeUnits(us).Text?
    ensures us[0].h0 < 0x80 && us[0].h1 < 0x80 && us[0].h2 < 0x80 && us[0].h3 < 0x80
    ensures EscapeValue(us[0].h0, us[0].h1, us[0].h2, us[0].h3).Some?
  {
    hide Utf8.Encode, Combine, Prefixed;
  }

  /** A pair of surrogates at the head of units that decode. */
  lemma PairFirst(us: seq<Unit>)
    requires us != [] && us[0].Hex? && DecodeUnits(us).Text?
    requires EscapeValue(us[0].h0, us[0].h1, us[0].h2, us[0].h3).Some?
    requires IsHighSurrogate(EscapeValue(us[0].h0, us[0].h1, us[0].h2, us[0].h3).value)
    ensures |us| > 1 && us[1].Hex? && DecodeUnits(us[2..]).Text?
    ensures us[1].h0 < 0x80 && us[1].h1 < 0x80 && us[1].h2 < 0x80 && us[1].h3 < 0x80
  {
    hide Utf8.Encode, Combine;
  }

  lemma SingleFirst(us: seq<Unit>)
    requires us != [] && us[0].Hex? && DecodeUnits(us).Text?
    requires EscapeValue(us[0].h0, us[0].h1, us[0].h2, us[0].h3).Some?
    requires !IsHighSurrogate(EscapeValue(us[0].h0, us[0].h1, us[0].h2, us[0].h3).value)
    ensures DecodeUnits(us[1..]).Text?
  {
    hide Utf8.Encode, Combine;
  }

  /** An escape at the head of some units, with what follows it known to be good. */
  lemma HexGood(us: seq<Unit>)
    requires us != [] && us[0].Hex? && DecodeUnits(us).Text?
    requires EscapeValue(us[0].h0, us[0].h1, us[0].h2, us[0].h3).Some?
    requires var v := EscapeValue(us[0].h0, us[0].h1, us[0].h2, us[0].h3).value;
             |us| >= (if IsHighSurrogate(v) then 2 else 1) && DecodeUnits(us[if IsHighSurrogate(v) then 2 else 1..]).Text?
             && GoodText(DecodeUnits(us[if IsHighSurrogate(v) then 2 else 1..]).text)
    ensures GoodText(DecodeUnits(us).text)
  {
    hide GoodText, Utf8.Encode;
    var v := EscapeValue(us[0].h0, us[0].h1, us[0].h2, us[0].h3).value;
    if IsHighSurrogate(v) {
      var v2 := EscapeValue(us[1].h0, us[1].h1, us[1].h2, us[1].h3).value;
      GoodEncoding(Combine(v, v2));
      GoodConcat(Utf8.Encode(Combine(v, v2)).value, DecodeUnits(us[2..]).text);
    } else {
      GoodEncoding(v);
      GoodConcat(Utf8.Encode(v).value, DecodeUnits(us[1..]).text);
    }
  }

  lemma PairedEscape(u: bytes)
    requires Units(u).Some? && Units(u).value.0 != [] && Units(u).value.0[0].Hex?
    ensures |u| >= 6 && u[0] == BACKSLASH && u[1] == 117 && Units(u[6..]).Some?
    ensures Units(u).value.0[0] == Hex(u[2], u[3], u[4], u[5])
    ensures Units(u).value.0[1..] == Units(u[6..]).value.0 && Units(u).value.1 == Units(u[6..]).value.1
  {
  }

  lemma DigitsAscii(s: bytes)
    requires AllDigits(s)
    ensures forall i :: 0 <= i < |s| ==> s[i] < 0x80
  {
    assert forall i :: 0 <= i < |s| ==> IsDigit(s[i]);
  }

  lemma NumAscii(n: Num)
    requires NumOk(n)
    ensures forall i :: 0 <= i < |NumText(n)| ==> NumText(n)[i] < 0x80
  {
    DigitsAscii(n.digits);
    if n.frac.Some? {
      DigitsAscii(n.frac.value);
    }
    if n.exp.Exponent? {
      DigitsAscii(n.exp.digits);
    }
    assert forall i :: 0 <= i < |FracText(n.frac)| ==> FracText(n.frac)[i] < 0x80;
    assert forall i :: 0 <= i < |ExpText(n.exp)| ==> ExpText(n.exp)[i] < 0x80;
    var t := FracText(n.frac) + ExpText(n.exp);
    assert forall i :: 0 <= i < |t| ==> t[i] < 0x80;
  }

  lemma UnreadGood(s: bytes)
    requires Utf8.ValidText(s)
    ensures Utf8.ValidText(Unread(s))
  {
    if s != [] && s[0] == 0 {
      DropAscii(s, 1);
    }
  }

  lemma AfterNumberGood(t: bytes)
    requires Utf8.ValidText(t) && ScanNum(t).Some?
    ensures Utf8.ValidText(Unread(ScanNum(t).value.1))
  {
    ScanNumSound(t);
    var (n, rest) := ScanNum(t).value;
    var a := NumText(n);
    NumAscii(n);
    assert forall i :: 0 <= i < |a| ==> (a + rest)[i] == a[i];
    DropAscii(a + rest, |a|);
    assert (a + rest)[|a|..] == rest;
    UnreadGood(rest);
  }

  predicate ScannedGood(r: Scanned) {
    r.Tok? ==> Utf8.ValidText(r.rest) && (r.lex.Str? ==> GoodText(KeyOf(r.lex.units)))
  }

  lemma StringGood(w: bytes, t: bytes)
    requires Utf8.ValidText(t)
    ensures ScannedGood(ScanString(w, t))
  {
    hide Units, DecodeUnits, Utf8.ValidText;
    if Units(t).Some? && DecodeUnits(Units(t).value.0).Text? {
      UnitsGood(t);
    }
  }

  lemma NumberGood(w: bytes, t: bytes)
    requires Utf8.ValidText(t)
    ensures ScannedGood(ScanNumber(w, t))
  {
    hide ScanNum, NumFits, Utf8.ValidText;
    if ScanNum(t).Some? {
      AfterNumberGood(t);
    }
  }

  lemma WordGood(w: bytes, t: bytes)
    requires Utf8.ValidText(t)
    ensures ScannedGood(ScanWord(w, t))
  {
    hide WordText, Utf8.ValidText;
    DropAscii(t, Alphas(t));
    UnreadGood(t[Alphas(t)..]);
  }

  lemma TokenGood(w: bytes, t: bytes)
    requires Utf8.ValidText(t) && t != []
    ensures ScannedGood(ScanToken(w, t))
  {
    hide ScanString, ScanNumber, ScanWord, Utf8.ValidText;
    if t[0] < 0x80 {
      DropAscii(t, 1);
    }
    if t[0] == QUOTE {
      StringGood(w, t[1..]);
    }
    NumberGood(w, t);
    WordGood(w, t);
  }

  /** A well-formed token; if it is a string, a valid and NUL-free one. */
  predicate GoodLex(lex: Lexeme) { LexOk(lex) && (lex.Str? ==> GoodText(KeyOf(lex.units))) }

  /** Tokens end at character boundaries, and string tokens are valid, NUL-free UTF-8. */
  lemma ReadGood(s: bytes, broken: bool)
    requires Utf8.ValidText(s) && Read(s, broken).Ok?
    ensures Utf8.ValidText(Read(s, broken).rest)
    ensures GoodLex(Read(s, broken).v.1)
  {
    hide ScanToken, KeyOf, Utf8.ValidText, LexOk;
    ScanSound(s, broken);
    var k := Spaces(s);
    assert forall i :: 0 <= i < k ==> IsSpace(s[..k][i]);
    DropAscii(s, k);
    TokenGood(s[..k], s[k..]);
  }

  /** Every token of the tree is good: strings and keys are valid, NUL-free UTF-8. */
  predicate GoodSyn(syn: Syn) {
    match syn
    case Leaf(lex) => !lex.Punct? && GoodLex(lex)
    case EmptyArray(_) => true
    case Array(_, head, tail) => GoodSyn(head) && GoodElems(tail)
    case EmptyObject(_) => true
    case Object(first, rest) => GoodMember(first) && GoodMembers(rest)
  }

  predicate GoodElems(e: Elems) {
    e.Elem? ==> GoodSyn(e.head) && GoodElems(e.tail)
  }

  predicate GoodMember(m: Member) {
    GoodText(KeyOf(m.key)) && GoodSyn(m.value)
  }

  predicate GoodMembers(m: Members) {
    m.More? ==> GoodMember(m.head) && GoodMembers(m.tail)
  }

  lemma {:induction false} ValueGood(lex: Lexeme, s: bytes, broken: bool, reject: bool)
    requires ParseValue(lex, s, broken, reject).Ok? && Utf8.ValidText(s)
    requires GoodLex(lex)
    ensures var r := ParseValue(lex, s, broken, reject); GoodSyn(r.v) && Utf8.ValidText(r.rest)
    decreases |s|, 2
  {
    if lex == Punct(LBRACE) {
      ReadGood(s, broken);
      var Ok((w, lex1), s1) := Read(s, broken);
      if lex1 != Punct(RBRACE) {
        MemberGood(w, lex1, s1, broken, reject, {});
        var Ok(first, s2) := ParseMember(w, lex1, s1, broken, reject, {});
        MembersGood(s2, broken, reject, {KeyOf(first.key)});
      }
    } else if lex == Punct(LBRACKET) {
      ReadGood(s, broken);
      var Ok((w, lex1), s1) := Read(s, broken);
      if lex1 != Punct(RBRACKET) {
        ValueGood(lex1, s1, broken, reject);
        ElemsGood(ParseValue(lex1, s1, broken, reject).rest, broken, reject);
      }
    }
  }

  lemma {:induction false} ElemsGood(s: bytes, broken: bool, reject: bool)
    requires ParseElems(s, broken, reject).Ok? && Utf8.ValidText(s)
    ensures var r := ParseElems(s, broken, reject); GoodElems(r.v) && Utf8.ValidText(r.rest)
    decreases |s|, 1
  {
    ReadGood(s, broken);
    var Ok((w, lex), s1) := Read(s, broken);
    if lex != Punct(RBRACKET) {
      ReadGood(s1, broken);
      var Ok((_, lex2), s2) := Read(s1, broken);
      ValueGood(lex2, s2, broken, reject);
      ElemsGood(ParseValue(lex2, s2, broken, reject).rest, broken, reject);
    }
  }

  lemma {:induction false} MemberGood(w: bytes, lex: Lexeme, s: bytes, broken: bool, reject: bool, keys: set<bytes>)
    requires ParseMember(w, lex, s, broken, reject, keys).Ok? && Utf8.ValidText(s)
    requires GoodLex(lex)
    ensures var r := ParseMember(w, lex, s, broken, reject, keys); GoodMember(r.v) && Utf8.ValidText(r.rest)
    decreases |s|, 3
  {
    ReadGood(s, broken);
    var s1 := Read(s, broken).rest;
    ReadGood(s1, broken);
    var Ok((_, lex2), s2) := Read(s1, broken);
    ValueGood(lex2, s2, broken, reject);
  }

  lemma {:induction false} MembersGood(s: bytes, broken: bool, reject: bool, keys: set<bytes>)
    requires ParseMembers(s, broken, reject, keys).Ok? && Utf8.ValidText(s)
    ensures var r := ParseMembers(s, broken, reject, keys); GoodMembers(r.v) && Utf8.ValidText(r.rest)
    decreases |s|, 1
  {
    ReadGood(s, broken);
    var Ok((w, lex), s1) := Read(s, broken);
    if lex != Punct(RBRACE) {
      ReadGood(s1, broken);
      var Ok((wk, lex2), s2) := Read(s1, broken);
      MemberGood(wk, lex2, s2, broken, reject, keys);
      var Ok(head, s3) := ParseMember(wk, lex2, s2, broken, reject, keys);
      MembersGood(s3, broken, reject, keys + {KeyOf(head.key)});
    }
  }

  /** Whatever is fed to the parser, NUL bytes included, every token of an accepted
      document is well-formed and its strings and keys are valid, NUL-free UTF-8. */
  lemma DocGood(s: bytes, broken: bool, reject: bool)
    requires ParseDoc(s, broken, reject).Ok? && Utf8.ValidText(s)
    ensures GoodSyn(ParseDoc(s, broken, reject).v.top)
  {
    ReadGood(s, broken);
    var Ok((_, lex), s1) := Read(s, broken);
    ValueGood(lex, s1, broken, reject);
  }
}
