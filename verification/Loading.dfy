/**
  What loading and dumping promise together: which texts are accepted and as what, where
  load.c departs from RFC 4627, and that loaded values can be dumped and loaded again.
 */
module Loading {
  import opened Bytes
  import opened Grammar
  import opened Escapes
  import opened Parsing
  import opened Parser
  import opened Values
  import Meaning
  import P = Printing
  import R = RoundTrip
  import S = Scanning
  import Utf8
  import V = Values

  /** The text of a document whose objects repeat no key, if that is asked for. */
  predicate Spelled(d: Doc, data: bytes, reject: bool) {
    DocOk(d) && RenderDoc(d) == data && (reject ==> UniqueKeys(d.top))
  }

  /** A NUL-free text is loaded exactly when it is valid UTF-8 and the text of a document,
      and then as what the document means. */
  lemma LoadsTheGrammar(data: bytes, reject: bool, d: Doc)
    requires 0 !in data
    ensures Spelled(d, data, reject) && Utf8.ValidText(data) ==> Loaded(data, reject) == Parsed(Meaning.ValueOf(d.top))
    ensures Loaded(data, reject).Parsed? ==> Utf8.ValidText(data) && exists e :: Spelled(e, data, reject)
  {
    hide Utf8.ValidText, Utf8.Deliverable, ParseDoc;
    if Utf8.ValidText(data) {
      ParserIsGrammar(data, reject, d);
    }
    if Loaded(data, reject).Parsed? {
      NotBroken(data, reject);
      DocSound(data, false, reject);
      assert Spelled(ParseDoc(data, false, reject).v, data, reject);
    }
  }

  /** With JSON_DISABLE_EOF_CHECK a NUL-free text is loaded exactly when it starts with the text
      of a document, and as what that means; what follows may even be invalid UTF-8. */
  lemma LoadsAPrefix(data: bytes, reject: bool, d: Doc, k: bytes)
    requires 0 !in data && d.after == []
    ensures Spelled(d, RenderDoc(d), reject) && RenderDoc(d) + k == Utf8.Deliverable(data) ==>
              LoadedPrefix(data, reject) == Parsed(Meaning.ValueOf(d.top))
    ensures LoadedPrefix(data, reject).Parsed? ==>
              exists e :: Spelled(e, RenderDoc(e), reject) && RenderDoc(e) <= Utf8.Deliverable(data)
  {
    hide Utf8.ValidText, ParseTop, RenderDoc;
    var s, broken := Utf8.Deliverable(data), !Utf8.ValidText(data);
    assert s <= data && 0 !in s;
    hide Utf8.Deliverable;
    PrefixIsGrammar(s, broken, reject, d, k);
    if LoadedPrefix(data, reject).Parsed? {
      TopSound(s, broken, reject);
      var e := ParseTop(s, broken, reject).v;
      assert Spelled(e, RenderDoc(e), reject) && RenderDoc(e) <= s;
    }
  }

  /** Nothing is accepted in front of invalid UTF-8. */
  lemma NotBroken(data: bytes, reject: bool)
    requires Loaded(data, reject).Parsed?
    ensures Utf8.ValidText(data) && Utf8.Deliverable(data) == data
    ensures ParseDoc(data, false, reject).Ok? && Loaded(data, reject) == Parsed(Meaning.ValueOf(ParseDoc(data, false, reject).v.top))
  {
    hide ParseValue, S.ScanToken;
    var p := ParseDoc(Utf8.Deliverable(data), !Utf8.ValidText(data), reject);
    EndUnbroken(p, Utf8.Deliverable(data), !Utf8.ValidText(data), reject);
  }

  lemma EndUnbroken(p: Parse<Doc>, s: bytes, broken: bool, reject: bool)
    requires p == ParseDoc(s, broken, reject) && p.Ok?
    ensures !broken
  {
    hide ParseValue, S.Scan;
    AtEndSound(p.v.after, broken);
  }

  // ---------------------------------------------- no document contains a NUL

  predicate Clean(s: bytes) { 0 !in s }

  lemma CleanConcat(a: bytes, b: bytes)
    ensures Clean(a + b) <==> Clean(a) && Clean(b)
  {
    assert forall x <- a :: x in a + b;
    assert forall x <- b :: x in a + b;
  }

  lemma {:induction false} UnitsClean(us: seq<Unit>)
    requires UnitsOk(us) && !DecodeUnits(us).Aborts?
    ensures DecodeUnits(us).Text? ==> Clean(UnitsText(us))
    decreases |us|
  {
    if us != [] && DecodeUnits(us).Text? {
      hide Utf8.Encode, Combine;
      var n := if us[0].Hex? && IsHighSurrogate(EscapeValue(us[0].h0, us[0].h1, us[0].h2, us[0].h3).value) then 2 else 1;
      UnitsClean(us[n..]);
      assert Clean(UnitText(us[0]));
      CleanConcat(UnitText(us[0]), UnitsText(us[1..]));
      if n == 2 {
        assert us[1] == us[1..][0] && us[2..] == us[1..][1..];
        assert Clean(UnitText(us[1]));
        CleanConcat(UnitText(us[1]), UnitsText(us[2..]));
      }
    }
  }

  lemma SpaceClean(w: bytes)
    requires AllSpace(w)
    ensures Clean(w)
  {
    assert forall i :: 0 <= i < |w| ==> IsSpace(w[i]);
  }

  lemma LexClean(lex: Lexeme)
    requires LexOk(lex)
    ensures Clean(LexText(lex))
  {
    match lex
    case Punct(b) =>
    case Str(us) =>
      UnitsClean(us);
      CleanConcat([QUOTE], UnitsText(us));
      CleanConcat([QUOTE] + UnitsText(us), [QUOTE]);
    case Number(n) => NumClean(n);
    case Literal(w) =>
  }

  lemma NumClean(n: Num)
    requires NumOk(n)
    ensures Clean(NumText(n))
  {
    assert Clean(n.digits);
    assert n.frac.Some? ==> Clean(n.frac.value);
    assert n.exp.Exponent? ==> Clean(n.exp.digits) && Clean(n.exp.sign);
    CleanConcat(FracText(n.frac), ExpText(n.exp));
    CleanConcat(n.digits, FracText(n.frac) + ExpText(n.exp));
  }

  lemma Clean3(a: bytes, b: bytes, c: bytes)
    requires Clean(a) && Clean(b) && Clean(c)
    ensures Clean(a + (b + c))
  {
    CleanConcat(b, c);
    CleanConcat(a, b + c);
  }

  lemma {:induction false} SynClean(syn: Syn)
    requires SynOk(syn)
    ensures Clean(Render(syn))
    decreases syn
  {
    match syn
    case Leaf(lex) => LexClean(lex);
    case EmptyArray(w) =>
      SpaceClean(w);
      Clean3([LBRACKET], w, [RBRACKET]);
    case Array(w, head, tail) =>
      SpaceClean(w);
      SynClean(head);
      ElemsClean(tail);
      CleanConcat(Render(head), RenderElems(tail));
      Clean3([LBRACKET], w, Render(head) + RenderElems(tail));
    case EmptyObject(w) =>
      SpaceClean(w);
      Clean3([LBRACE], w, [RBRACE]);
    case Object(first, rest) =>
      MemberClean(first);
      MembersClean(rest);
      Clean3([LBRACE], RenderMember(first), RenderMembers(rest));
  }

  lemma {:induction false} ElemsClean(e: Elems)
    requires ElemsOk(e)
    ensures Clean(RenderElems(e))
    decreases e
  {
    SpaceClean(e.w);
    match e
    case EndArray(w) => CleanConcat(w, [RBRACKET]);
    case Elem(w, wv, head, tail) =>
      SpaceClean(wv);
      SynClean(head);
      ElemsClean(tail);
      Clean3(wv, Render(head), RenderElems(tail));
      Clean3(w, [COMMA], wv + (Render(head) + RenderElems(tail)));
  }

  lemma {:induction false} MemberClean(m: Member)
    requires MemberOk(m)
    ensures Clean(RenderMember(m))
    decreases m
  {
    SpaceClean(m.wk);
    SpaceClean(m.wc);
    SpaceClean(m.wv);
    LexClean(Str(m.key));
    SynClean(m.value);
    Clean3([COLON], m.wv, Render(m.value));
    CleanConcat(m.wc, [COLON] + (m.wv + Render(m.value)));
    Clean3(m.wk, LexText(Str(m.key)), m.wc + ([COLON] + (m.wv + Render(m.value))));
  }

  lemma {:induction false} MembersClean(m: Members)
    requires MembersOk(m)
    ensures Clean(RenderMembers(m))
    decreases m
  {
    SpaceClean(m.w);
    match m
    case EndObject(w) => CleanConcat(w, [RBRACE]);
    case More(w, head, tail) =>
      MemberClean(head);
      MembersClean(tail);
      CleanConcat(RenderMember(head), RenderMembers(tail));
      Clean3(w, [COMMA], RenderMember(head) + RenderMembers(tail));
  }

  // ------------------------------------------- where the parser leaves the RFC

  /** What becomes of any text of the grammar, whatever its numbers and escapes: outside
      valid UTF-8 it is never accepted, otherwise the first fault decides. */
  lemma GrammarJudged(data: bytes, reject: bool, d: Doc)
    requires DocShape(d) && RenderDoc(d) == data
    ensures !Utf8.ValidText(data) ==> !Loaded(data, reject).Parsed?
    ensures Utf8.ValidText(data) ==>
              Loaded(data, reject) == var fs := SynFaults(d.top, reject);
                                      if fs == [] then Parsed(Meaning.ValueOf(d.top))
                                      else if fs[0] == NoDigit then Aborted else Rejected
    ensures Loaded(data, reject).Parsed? ==> ParseDoc(data, false, reject) == Ok(d, [])
  {
    hide Utf8.ValidText, Utf8.Deliverable, ParseDoc, SynFaults, RenderDoc;
    if Loaded(data, reject).Parsed? {
      NotBroken(data, reject);
    }
    DocJudged(d, reject);
  }

  /** The text of a JSON-text of RFC 4627: numbers of any size, and any escapes of four
      hexadecimal digits. */
  predicate Rfc(d: Doc, data: bytes) { DocShape(d) && Strict(d.top, false) && RenderDoc(d) == data }

  /** An accepted text is one of RFC 4627 exactly when it has no NUL and its \u escapes
      have four hexadecimal digits. */
  lemma AcceptedIsRfc(data: bytes, reject: bool)
    requires Loaded(data, reject).Parsed?
    ensures (exists d :: Rfc(d, data)) <==> 0 !in data && RealEscapes(data, false)
  {
    hide RealEscapes, Strict, ParseDoc, Utf8.ValidText, DocOk, RenderDoc, Loaded;
    NotBroken(data, reject);
    if 0 !in data && RealEscapes(data, false) {
      DocSound(data, false, reject);
      DocReal(data, false, reject, false);
      DocOkIsShape(ParseDoc(data, false, reject).v);
      assert Rfc(ParseDoc(data, false, reject).v, data);
    }
    if d :| Rfc(d, data) {
      RfcClean(d, data, reject);
      GrammarJudged(data, reject, d);
      DocReal(data, false, reject, false);
    }
  }

  lemma DocOkIsShape(d: Doc)
    ensures DocOk(d) <==> DocShape(d) && SynFaults(d.top, false) == []
  {
    SynFaultless(d.top, false);
  }

  lemma RfcClean(d: Doc, data: bytes, reject: bool)
    requires Rfc(d, data) && Loaded(data, reject).Parsed?
    ensures 0 !in data
  {
    hide Loaded, RenderDoc, Strict, SynFaults, SynOk;
    GrammarJudged(data, reject, d);
    NotBroken(data, reject);
    DocJudged(d, reject);
    SynFaultless(d.top, reject);
    DocClean(d);
  }

  lemma DocClean(d: Doc)
    requires DocOk(d)
    ensures Clean(RenderDoc(d))
  {
    SpaceClean(d.before);
    SpaceClean(d.after);
    SynClean(d.top);
    Clean3(d.before, Render(d.top), d.after);
  }

  // ----------------------------------------- which texts of the RFC are accepted

  /** The strings, numbers and literals of a value, keys included. */
  function Lexemes(syn: Syn): seq<Lexeme> {
    match syn
    case Leaf(lex) => [lex]
    case EmptyArray(_) => []
    case Array(_, head, tail) => Lexemes(head) + LexemesOf(tail)
    case EmptyObject(_) => []
    case Object(first, rest) => MemberLexemes(first) + MembersLexemes(rest)
  }

  function LexemesOf(e: Elems): seq<Lexeme> {
    match e
    case EndArray(_) => []
    case Elem(_, _, head, tail) => Lexemes(head) + LexemesOf(tail)
  }

  function MemberLexemes(m: Member): seq<Lexeme> { [Str(m.key)] + Lexemes(m.value) }

  function MembersLexemes(m: Members): seq<Lexeme> {
    match m
    case EndObject(_) => []
    case More(_, head, tail) => MemberLexemes(head) + MembersLexemes(tail)
  }

  function Escaped(u: Unit): Option<nat> {
    if u.Hex? then EscapeValue(u.h0, u.h1, u.h2, u.h3) else None
  }

  predicate High(u: Unit) { Escaped(u).Some? && IsHighSurrogate(Escaped(u).value) }

  predicate Low(u: Unit) { Escaped(u).Some? && IsLowSurrogate(Escaped(u).value) }

  predicate NoNulEscape(us: seq<Unit>) {
    forall i :: 0 <= i < |us| ==> Escaped(us[i]) != Some(0)
  }

  /** A high surrogate comes before each low one, and a low one after each high one. */
  predicate Paired(us: seq<Unit>) {
    && (forall i :: 0 <= i < |us| && High(us[i]) ==> i + 1 < |us| && Low(us[i+1]))
    && (forall i :: 0 <= i < |us| && Low(us[i]) ==> i > 0 && High(us[i-1]))
  }

  /** What load.c can hold: 64-bit integers, reals within range, and strings whose escapes
      are of code points other than zero. */
  predicate Storable(lex: Lexeme) {
    match lex
    case Number(n) => if IsInteger(n) then IsInt64(IntValue(n)) else !Overflows(n)
    case Str(us) => NoNulEscape(us) && Paired(us)
    case _ => true
  }

  lemma {:induction false} UnitsStorable(us: seq<Unit>)
    requires StrictUnits(us, true)
    ensures UnitFaults(us) == [] <==> NoNulEscape(us) && Paired(us)
    decreases |us|
  {
    if us != [] {
      if High(us[0]) && |us| > 1 && Low(us[1]) {
        StrictPair(us);
        UnitsStorable(us[2..]);
        assert forall i :: 0 <= i < |us| - 2 ==> us[2..][i] == us[i+2];
        PairFirst(us);
      } else {
        UnitsStorable(us[1..]);
        assert forall i :: 0 <= i < |us| - 1 ==> us[1..][i] == us[i+1];
        OneFirst(us);
      }
    }
  }

  lemma StrictPair(us: seq<Unit>)
    requires StrictUnits(us, true) && |us| > 1
    ensures StrictUnits(us[2..], true)
  {
    assert us[1..][1..] == us[2..];
  }

  lemma PairFirst(us: seq<Unit>)
    requires |us| > 1 && High(us[0]) && Low(us[1])
    ensures UnitFaults(us) == UnitFaults(us[2..])
    ensures NoNulEscape(us) <==> NoNulEscape(us[2..])
    ensures Paired(us) <==> Paired(us[2..])
  {
    hide EscapeValue;
    var t := us[2..];
    assert forall i :: 2 <= i < |us| ==> us[i] == t[i-2];
    assert UnitFaults(us) == UnitFaults(t);
    hide UnitFaults;
    if Paired(t) {
      forall i | 0 <= i < |us|
        ensures High(us[i]) ==> i + 1 < |us| && Low(us[i+1])
        ensures Low(us[i]) ==> i > 0 && High(us[i-1])
      {
        if i >= 2 {
          assert us[i] == t[i-2];
        }
      }
    }
    if Paired(us) {
      forall i | 0 <= i < |t|
        ensures High(t[i]) ==> i + 1 < |t| && Low(t[i+1])
        ensures Low(t[i]) ==> i > 0 && High(t[i-1])
      {
        assert t[i] == us[i+2];
      }
    }
    assert NoNulEscape(us) ==> NoNulEscape(t) by {
      assert forall i :: 0 <= i < |t| ==> t[i] == us[i+2];
    }
  }

  lemma OneFaultless(us: seq<Unit>)
    requires us != [] && !(High(us[0]) && |us| > 1 && Low(us[1])) && StrictUnits(us, true)
    ensures UnitFaults(us) == [] <==> !High(us[0]) && !Low(us[0]) && Escaped(us[0]) != Some(0) && UnitFaults(us[1..]) == []
  {
    hide EscapeValue, IsAlnum;
    var t := us[1..];
    if |us| > 1 {
      assert us[1] == t[0] && us[2..] == t[1..];
    }
  }

  /** Neither half of a pair, nor \u0000. */
  predicate Sole(u: Unit) { !High(u) && !Low(u) && Escaped(u) != Some(0) }

  lemma SolePaired(us: seq<Unit>)
    requires us != [] && Sole(us[0])
    ensures NoNulEscape(us) && Paired(us) <==> NoNulEscape(us[1..]) && Paired(us[1..])
  {
    hide High, Low, Escaped;
    var t := us[1..];
    assert forall i :: 1 <= i < |us| ==> us[i] == t[i-1];
    if NoNulEscape(us) && Paired(us) {
      forall i | 0 <= i < |t|
        ensures Escaped(t[i]) != Some(0)
        ensures High(t[i]) ==> i + 1 < |t| && Low(t[i+1])
        ensures Low(t[i]) ==> i > 0 && High(t[i-1])
      {
        assert t[i] == us[i+1];
      }
    }
    if NoNulEscape(t) && Paired(t) {
      forall i | 0 <= i < |us|
        ensures Escaped(us[i]) != Some(0)
        ensures High(us[i]) ==> i + 1 < |us| && Low(us[i+1])
        ensures Low(us[i]) ==> i > 0 && High(us[i-1])
      {
        if i > 0 {
          assert us[i] == t[i-1];
        }
      }
    }
  }

  lemma OneFirst(us: seq<Unit>)
    requires us != [] && !(High(us[0]) && |us| > 1 && Low(us[1])) && StrictUnits(us, true)
    ensures UnitFaults(us) == [] <==> Sole(us[0]) && UnitFaults(us[1..]) == []
    ensures NoNulEscape(us) && Paired(us) <==> Sole(us[0]) && NoNulEscape(us[1..]) && Paired(us[1..])
  {
    hide High, Low, Escaped, UnitFaults, StrictUnits;
    OneFaultless(us);
    if Sole(us[0]) {
      SolePaired(us);
    }
  }

  lemma LexStorable(lex: Lexeme)
    requires StrictLex(lex, true)
    ensures LexFaults(lex) == [] <==> Storable(lex)
  {
    hide Overflows, IntValue, Paired, NoNulEscape, UnitFaults, StrictUnits;
    if lex.Str? {
      UnitsStorable(lex.units);
    }
  }

  /** All of them can be stored. */
  predicate AllStorable(lexemes: seq<Lexeme>) {
    forall lex <- lexemes :: Storable(lex)
  }

  lemma StorableConcat(a: seq<Lexeme>, b: seq<Lexeme>)
    ensures AllStorable(a + b) <==> AllStorable(a) && AllStorable(b)
  {
    hide Storable;
    assert forall lex <- a :: lex in a + b;
    assert forall lex <- b :: lex in a + b;
  }

  lemma {:induction false} SynStorable(syn: Syn)
    requires Strict(syn, true)
    ensures SynFaults(syn, false) == [] <==> AllStorable(Lexemes(syn))
    decreases syn
  {
    hide LexFaults, Storable;
    match syn
    case Leaf(lex) =>
      LexStorable(lex);
    case Array(_, head, tail) =>
      SynStorable(head);
      ElemsStorable(tail);
      StorableConcat(Lexemes(head), LexemesOf(tail));
    case Object(first, rest) =>
      MemberStorable(first);
      MembersStorable(rest, {KeyOf(first.key)});
      StorableConcat(MemberLexemes(first), MembersLexemes(rest));
    case _ =>
  }

  lemma {:induction false} ElemsStorable(e: Elems)
    requires StrictElems(e, true)
    ensures ElemsFaults(e, false) == [] <==> AllStorable(LexemesOf(e))
    decreases e
  {
    hide Storable;
    if e.Elem? {
      SynStorable(e.head);
      ElemsStorable(e.tail);
      StorableConcat(Lexemes(e.head), LexemesOf(e.tail));
    }
  }

  lemma {:induction false} MemberStorable(m: Member)
    requires StrictMember(m, true)
    ensures forall keys :: MemberFaults(m, false, keys) == [] <==> AllStorable(MemberLexemes(m))
    decreases m
  {
    hide Storable, UnitFaults, StrictUnits;
    LexStorable(Str(m.key));
    SynStorable(m.value);
    StorableConcat([Str(m.key)], Lexemes(m.value));
  }

  lemma {:induction false} MembersStorable(m: Members, keys: set<bytes>)
    requires StrictMembers(m, true)
    ensures MembersFaults(m, false, keys) == [] <==> AllStorable(MembersLexemes(m))
    decreases m
  {
    hide Storable, MemberFaults, MemberLexemes, StrictMember;
    if m.More? {
      MemberStorable(m.head);
      MembersStorable(m.tail, keys + {KeyOf(m.head.key)});
      StorableConcat(MemberLexemes(m.head), MembersLexemes(m.tail));
    }
  }

  /** Which texts of RFC 4627 are accepted: exactly those in valid UTF-8 whose integers fit
      64 bits, whose reals do not overflow, and whose strings have no escaped NUL and their
      surrogates in pairs, without repeated keys if those are rejected. They are loaded as
      what they mean, and no such text in valid UTF-8 makes the loader abort. */
  lemma RfcIsAccepted(data: bytes, reject: bool, d: Doc)
    requires Rfc(d, data)
    ensures Loaded(data, reject).Parsed? <==>
            Utf8.ValidText(data) && AllStorable(Lexemes(d.top)) && (reject ==> UniqueKeys(d.top))
    ensures Loaded(data, reject).Parsed? ==> Loaded(data, reject) == Parsed(Meaning.ValueOf(d.top))
    ensures Utf8.ValidText(data) ==> !Loaded(data, reject).Aborted?
  {
    hide Utf8.ValidText, Loaded, RenderDoc, Strict, SynFaults, SynOk, SynShape, UniqueKeys, AllStorable, Lexemes;
    GrammarJudged(data, reject, d);
    SynFaultless(d.top, reject);
    SynFaultless(d.top, false);
    SynLetters(d.top);
    SynStorable(d.top);
    SynNoDigit(d.top, reject);
  }

  // ------------------------------------------------- when the loader aborts

  /** Hexadecimal digits are letters or digits. */
  lemma {:induction false} UnitsLetters(us: seq<Unit>)
    ensures StrictUnits(us, false) ==> StrictUnits(us, true)
  {
    if us != [] {
      UnitsLetters(us[1..]);
    }
  }

  lemma {:induction false} SynLetters(syn: Syn)
    ensures Strict(syn, false) ==> Strict(syn, true)
    decreases syn
  {
    hide StrictUnits;
    match syn
    case Leaf(lex) =>
      if lex.Str? {
        UnitsLetters(lex.units);
      }
    case Array(_, head, tail) =>
      SynLetters(head);
      ElemsLetters(tail);
    case Object(first, rest) =>
      MemberLetters(first);
      MembersLetters(rest);
    case _ =>
  }

  lemma {:induction false} ElemsLetters(e: Elems)
    ensures StrictElems(e, false) ==> StrictElems(e, true)
    decreases e
  {
    if e.Elem? {
      SynLetters(e.head);
      ElemsLetters(e.tail);
    }
  }

  lemma {:induction false} MemberLetters(m: Member)
    ensures StrictMember(m, false) ==> StrictMember(m, true)
    decreases m
  {
    hide StrictUnits;
    UnitsLetters(m.key);
    SynLetters(m.value);
  }

  lemma {:induction false} MembersLetters(m: Members)
    ensures StrictMembers(m, false) ==> StrictMembers(m, true)
    decreases m
  {
    hide StrictMember;
    if m.More? {
      MemberLetters(m.head);
      MembersLetters(m.tail);
    }
  }

  /** The loader aborts on no text with four letters or digits after every \u. */
  lemma NeverAborts(data: bytes, reject: bool)
    requires RealEscapes(data, true)
    ensures !Loaded(data, reject).Aborted?
  {
    hide RealEscapes, ParseDoc;
    DeliverableReal(data, true);
    DocReal(Utf8.Deliverable(data), !Utf8.ValidText(data), reject, true);
  }

  lemma {:induction false} UnitsNoDigit(us: seq<Unit>)
    ensures NoDigit in UnitFaults(us) <==> !StrictUnits(us, true)
    decreases |us|
  {
    hide EscapeValue, IsAlnum;
    if us != [] {
      UnitsNoDigit(us[1..]);
      if |us| > 1 {
        UnitsNoDigit(us[2..]);
        assert us[2..] == us[1..][1..] && us[1] == us[1..][0];
      }
    }
  }

  lemma {:induction false} SynNoDigit(syn: Syn, reject: bool)
    ensures NoDigit in SynFaults(syn, reject) <==> !Strict(syn, true)
    decreases syn
  {
    hide UnitFaults, StrictUnits, NumFits;
    match syn
    case Leaf(lex) =>
      if lex.Str? {
        UnitsNoDigit(lex.units);
      }
    case Array(_, head, tail) =>
      SynNoDigit(head, reject);
      ElemsNoDigit(tail, reject);
    case Object(first, rest) =>
      MemberNoDigit(first, reject, {});
      MembersNoDigit(rest, reject, {KeyOf(first.key)});
    case _ =>
  }

  lemma {:induction false} ElemsNoDigit(e: Elems, reject: bool)
    ensures NoDigit in ElemsFaults(e, reject) <==> !StrictElems(e, true)
    decreases e
  {
    if e.Elem? {
      SynNoDigit(e.head, reject);
      ElemsNoDigit(e.tail, reject);
    }
  }

  lemma {:induction false} MemberNoDigit(m: Member, reject: bool, keys: set<bytes>)
    ensures NoDigit in MemberFaults(m, reject, keys) <==> !StrictMember(m, true)
    decreases m
  {
    hide UnitFaults, StrictUnits, KeyOf;
    UnitsNoDigit(m.key);
    SynNoDigit(m.value, reject);
  }

  lemma {:induction false} MembersNoDigit(m: Members, reject: bool, keys: set<bytes>)
    ensures NoDigit in MembersFaults(m, reject, keys) <==> !StrictMembers(m, true)
    decreases m
  {
    hide MemberFaults, StrictMember, KeyOf;
    if m.More? {
      MemberNoDigit(m.head, reject, keys);
      MembersNoDigit(m.tail, reject, keys + {KeyOf(m.head.key)});
    }
  }

  /** When the loader aborts on a text of the grammar: exactly if the first fault in the text
      is an escape with a byte that is neither letter nor digit. Where nothing else is wrong
      with the text, that is any such escape. */
  lemma AbortsIff(data: bytes, reject: bool, d: Doc)
    requires DocShape(d) && RenderDoc(d) == data && Utf8.ValidText(data)
    ensures var fs := SynFaults(d.top, reject);
            && (Loaded(data, reject).Aborted? <==> fs != [] && fs[0] == NoDigit)
            && ((forall f <- fs :: f == NoDigit) ==> (Loaded(data, reject).Aborted? <==> !Strict(d.top, true)))
  {
    hide Loaded, RenderDoc, Strict, SynFaults, Utf8.ValidText;
    GrammarJudged(data, reject, d);
    SynNoDigit(d.top, reject);
    var fs := SynFaults(d.top, reject);
    assert fs != [] ==> fs[0] in fs;
  }

  /** Text cut off in front of invalid UTF-8 is not cut off inside an escape. */
  lemma {:induction false} DeliverableReal(s: bytes, letters: bool)
    requires RealEscapes(s, letters)
    ensures RealEscapes(Utf8.Deliverable(s), letters)
    decreases |s|
  {
    if Utf8.Next(s).Some? {
      var n := Utf8.Next(s).value;
      var d := Utf8.Deliverable(s);
      if s[0] != BACKSLASH {
        SequencePlain(s);
        PlainPrefix(s, n, letters);
        DeliverableReal(s[n..], letters);
        assert d[n..] == Utf8.Deliverable(s[n..]);
        PlainPrefix(d, n, letters);
      } else if |s| > 1 {
        EscapeDelivered(s, letters);
      }
    }
  }

  lemma SequencePlain(s: bytes)
    requires Utf8.Next(s).Some? && s[0] != BACKSLASH
    ensures |Utf8.Deliverable(s)| >= Utf8.Next(s).value > 0
    ensures forall i :: 0 <= i < Utf8.Next(s).value ==> s[i] != BACKSLASH && Utf8.Deliverable(s)[i] == s[i]
  {
    var n := Utf8.Next(s).value;
    if n > 1 {
      Utf8.EncodeDecode(s[..n]);
      assert forall i :: 0 <= i < n ==> s[i] == s[..n][i];
    }
  }

  lemma PlainEscape(s: bytes, letters: bool)
    requires |s| > 1 && s[0] == BACKSLASH && s[1] != 117
    ensures RealEscapes(s, letters) <==> RealEscapes(s[2..], letters)
  {
  }

  lemma HexEscape(s: bytes, letters: bool)
    requires |s| > 1 && s[0] == BACKSLASH && s[1] == 117
    ensures RealEscapes(s, letters) <==>
            |s| >= 6 && DigitsOk(Hex(s[2], s[3], s[4], s[5]), letters) && RealEscapes(s[6..], letters)
  {
  }

  lemma LoneBackslash(s: bytes, letters: bool)
    requires |s| > 1 && s[0] == BACKSLASH && Utf8.Next(s[1..]).None?
    ensures RealEscapes(Utf8.Deliverable(s), letters)
  {
    assert Utf8.Deliverable(s) == [BACKSLASH] + Utf8.Deliverable(s[1..]);
  }

  lemma {:induction false} EscapeDelivered(s: bytes, letters: bool)
    requires RealEscapes(s, letters) && |s| > 1 && s[0] == BACKSLASH
    ensures RealEscapes(Utf8.Deliverable(s), letters)
    decreases |s|, 0
  {
    hide RealEscapes, Utf8.Deliverable;
    var d := Utf8.Deliverable(s);
    var t := s[1..];
    if s[1] == 117 {
      HexEscape(s, letters);
      AsciiDelivered(s, 6);
      DeliverableReal(s[6..], letters);
      assert forall i :: 0 <= i < 6 ==> d[i] == s[i];
      assert d[6..] == Utf8.Deliverable(s[6..]);
      HexEscape(d, letters);
    } else if Utf8.Next(t).None? {
      LoneBackslash(s, letters);
    } else if s[1] < 0x80 {
      PlainEscape(s, letters);
      AsciiDelivered(s, 2);
      DeliverableReal(s[2..], letters);
      assert d[0] == s[0] && d[1] == s[1] && d[2..] == Utf8.Deliverable(s[2..]);
      PlainEscape(d, letters);
    } else {
      PlainEscape(s, letters);
      OneDelivered(s);
      SequencePlain(t);
      assert s[2..] == t[1..];
      WideDelivered(t, letters);
      assert d[1..] == Utf8.Deliverable(t) && d[2..] == Utf8.Deliverable(t)[1..];
      PlainEscape(d, letters);
    }
  }

  /** A wider sequence behind a backslash. */
  lemma {:induction false} WideDelivered(t: bytes, letters: bool)
    requires t != [] && t[0] >= 0x80 && Utf8.Next(t).Some? && RealEscapes(t[1..], letters)
    ensures RealEscapes(Utf8.Deliverable(t)[1..], letters)
    decreases |t|
  {
    hide RealEscapes;
    var n, e := Utf8.Next(t).value, Utf8.Deliverable(t);
    SequencePlain(t);
    SkipSequence(t[1..], t, n - 1, letters);
    DeliverableReal(t[n..], letters);
    assert e[n..] == Utf8.Deliverable(t[n..]);
    SkipSequence(e[1..], e, n - 1, letters);
  }

  lemma SkipSequence(u: bytes, t: bytes, n: nat, letters: bool)
    requires n < |t| && u == t[1..] && forall i :: 0 <= i <= n ==> t[i] != BACKSLASH
    ensures RealEscapes(u, letters) <==> RealEscapes(t[n+1..], letters)
  {
    PlainPrefix(t, n + 1, letters);
    PlainPrefix(t, 1, letters);
  }

  lemma {:induction false} AsciiDelivered(s: bytes, n: nat)
    requires n <= |s| && forall i :: 0 <= i < n ==> s[i] < 0x80
    ensures Utf8.Deliverable(s) == s[..n] + Utf8.Deliverable(s[n..])
    decreases n
  {
    hide Utf8.Deliverable;
    if n == 0 {
      assert s[0..] == s && s[..0] == [];
    } else {
      OneDelivered(s);
      AsciiDelivered(s[1..], n - 1);
      var d := Utf8.Deliverable(s[n..]);
      assert s[1..][n-1..] == s[n..];
      assert s[..n] == [s[0]] + s[1..][..n-1];
      Cat2([s[0]], s[1..][..n-1], d);
    }
  }

  lemma OneDelivered(s: bytes)
    requires s != [] && s[0] < 0x80
    ensures Utf8.Deliverable(s) == [s[0]] + Utf8.Deliverable(s[1..])
  {
    assert s[..1] == [s[0]];
  }

  // ------------------------------------------------- departures from the RFC

  const ZED_ESCAPE: Unit := Hex(122, 122, 122, 122)

  lemma ZedDecodes()
    ensures StrOk([ZED_ESCAPE]) && KeyOf([ZED_ESCAPE]) == Utf8.Encode(0x25553).value
    ensures UnitsText([ZED_ESCAPE]) == [BACKSLASH, 117, 122, 122, 122, 122]
  {
    assert EscapeValue(122, 122, 122, 122) == Some(0x25553);
    assert [ZED_ESCAPE][1..] == [] && DecodeUnits([]) == Text([]);
    assert UnitText(ZED_ESCAPE) + [] == UnitText(ZED_ESCAPE);
    var e := Utf8.Encode(0x25553);
    assert e.Some?;
    hide Utf8.Encode;
    assert e.value + [] == e.value;
    assert DecodeUnits([ZED_ESCAPE]) == Prefixed(e.value, Text([]));
    assert UnitsOk([]) && UnitOk(ZED_ESCAPE);
  }

  /** The document of one scalar between brackets. */
  function OneElement(lex: Lexeme): Doc { Doc([], Syn.Array([], Leaf(lex), EndArray([])), []) }

  lemma OneElementText(lex: Lexeme)
    ensures RenderDoc(OneElement(lex)) == [LBRACKET] + LexText(lex) + [RBRACKET]
  {
    hide LexText;
    var t, leaf, end := LexText(lex), Leaf(lex), EndArray([]);
    assert Render(leaf) == t && RenderElems(end) == [] + [RBRACKET];
    assert [] + (t + ([] + [RBRACKET])) == t + [RBRACKET];
    assert [] + (([LBRACKET] + (t + [RBRACKET])) + []) == [LBRACKET] + t + [RBRACKET];
  }

  lemma OneElementIs(lex: Lexeme)
    requires !lex.Punct? && LexShape(lex)
    ensures var d := OneElement(lex);
            && RenderDoc(d) == [LBRACKET] + LexText(lex) + [RBRACKET] && DocShape(d) && UniqueKeys(d.top)
            && (forall reject :: SynFaults(d.top, reject) == LexFaults(lex)) && (LexOk(lex) ==> DocOk(d))
            && (Strict(d.top, false) <==> StrictLex(lex, false))
            && Meaning.ValueOf(d.top) == V.Array([Meaning.LexValue(lex)])
  {
    hide LexFaults, LexShape, LexText, LexOk, StrictLex, Meaning.LexValue;
    var leaf, end := Leaf(lex), EndArray([]);
    OneElementText(lex);
    assert SynShape(leaf) && ElemsShape(end) && UniqueKeys(leaf) && UniqueInElems(end);
    assert ElemsOk(end) && (LexOk(lex) ==> SynOk(leaf)) && StrictElems(end, false) && ElemsFaults(end, false) == ElemsFaults(end, true) == [];
    assert LexFaults(lex) + [] == LexFaults(lex);
    assert Meaning.ValueOf(leaf) == Meaning.LexValue(lex);
    assert Meaning.ElemValues([Meaning.LexValue(lex)], end) == [Meaning.LexValue(lex)];
  }

  /** A string whose escape has four letters z is accepted, as U+25553. */
  lemma LettersAreAccepted(reject: bool)
    ensures var data := [LBRACKET, QUOTE, BACKSLASH, 117, 122, 122, 122, 122, QUOTE, RBRACKET];
            !RealEscapes(data, false) && Loaded(data, reject) == Parsed(V.Array([V.String(Utf8.Encode(0x25553).value)]))
  {
    hide Loaded;
    var data := [LBRACKET, QUOTE, BACKSLASH, 117, 122, 122, 122, 122, QUOTE, RBRACKET];
    ZedElement(data);
    R.AsciiGood(data);
    LoadsTheGrammar(data, reject, OneElement(Str([ZED_ESCAPE])));
    hide DocOk, RenderDoc, Utf8.ValidText, Meaning.ValueOf;
    assert !RealEscapes(data, false) by {
      PlainPrefix(data, 2, false);
      assert data[2..] == [BACKSLASH, 117, 122, 122, 122, 122, QUOTE, RBRACKET];
    }
  }

  lemma ZedElement(data: bytes)
    requires data == [LBRACKET, QUOTE, BACKSLASH, 117, 122, 122, 122, 122, QUOTE, RBRACKET]
    ensures var d := OneElement(Str([ZED_ESCAPE]));
            && RenderDoc(d) == data && DocOk(d) && UniqueKeys(d.top)
            && Meaning.ValueOf(d.top) == V.Array([V.String(Utf8.Encode(0x25553).value)])
  {
    hide DecodeUnits, UnitsOk, UnitsText, KeyOf, RenderDoc;
    var lex := Str([ZED_ESCAPE]);
    ZedDecodes();
    OneElementIs(lex);
    assert LexText(lex) == [QUOTE, BACKSLASH, 117, 122, 122, 122, 122, QUOTE];
    assert [LBRACKET] + LexText(lex) + [RBRACKET] == data;
  }

  /** A lexeme of the RFC that load.c cannot store is refused. */
  lemma OneRefused(lex: Lexeme, reject: bool)
    requires !lex.Punct? && LexShape(lex) && StrictLex(lex, false) && !Storable(lex) && Utf8.ValidText(LexText(lex))
    ensures var data := [LBRACKET] + LexText(lex) + [RBRACKET];
            Rfc(OneElement(lex), data) && Loaded(data, reject) == Rejected
  {
    var t := LexText(lex);
    var data := [LBRACKET] + t + [RBRACKET];
    OneElementIs(lex);
    BracketsValid(t);
    hide Loaded, Utf8.ValidText, LexText, RenderDoc, Strict, Storable;
    RfcIsAccepted(data, reject, OneElement(lex));
    assert Lexemes(OneElement(lex).top) == [lex] + [];
  }

  lemma BracketsValid(t: bytes)
    requires Utf8.ValidText(t)
    ensures Utf8.ValidText([LBRACKET] + t + [RBRACKET])
  {
    R.AsciiGood([LBRACKET]);
    R.AsciiGood([RBRACKET]);
    Utf8.ValidConcat([LBRACKET], t);
    Utf8.ValidConcat([LBRACKET] + t, [RBRACKET]);
  }

  lemma {:induction false} TenPowers(k: nat, zeros: bytes)
    requires |zeros| == k && forall i :: 0 <= i < k ==> zeros[i] == 48
    ensures Decimal([49] + zeros) == Pow(10, k)
  {
    if k == 0 {
      assert [49] + zeros == [49] && Decimal([49][..0]) == 0;
    } else {
      TenPowers(k - 1, zeros[..k-1]);
      assert ([49] + zeros)[..k] == [49] + zeros[..k-1];
    }
  }

  lemma {:induction false} PowersCompare(k: nat)
    ensures Pow(10, k) >= Pow(2, 3 * k) >= 1
  {
    if k > 0 {
      PowersCompare(k - 1);
      var j := 3 * k;
      assert Pow(2, j) == 2 * Pow(2, j - 1) && Pow(2, j - 1) == 2 * Pow(2, j - 2) && Pow(2, j - 2) == 2 * Pow(2, j - 3);
    }
  }

  lemma {:induction false} PowMonotone(a: nat, b: nat)
    requires a <= b
    ensures 1 <= Pow(2, a) <= Pow(2, b)
  {
    if a < b {
      PowMonotone(a, b - 1);
    } else if a > 0 {
      PowMonotone(a - 1, a - 1);
    }
  }

  lemma TenToThe(k: nat)
    requires 3 * k >= MAX_EXP
    ensures Pow(10, k) >= Huge()
  {
    PowersCompare(k);
    PowMonotone(MAX_EXP, 3 * k);
    PowMonotone(0, MAX_EXP - MANT_DIG - 1);
  }

  lemma {:induction false} PowSum(b: nat, x: nat, y: nat)
    ensures Pow(b, x + y) == Pow(b, x) * Pow(b, y)
  {
    if x > 0 {
      PowSum(b, x - 1, y);
      assert b * (Pow(b, x - 1) * Pow(b, y)) == (b * Pow(b, x - 1)) * Pow(b, y);
    }
  }

  lemma TenToTwenty()
    ensures Pow(10, 20) == 100_000_000_000_000_000_000
  {
    assert Pow(10, 5) == 100_000;
    PowSum(10, 5, 5);
    PowSum(10, 10, 10);
  }

  const ZEROS: bytes := seq(20, _ => 48)

  /** An integer of 21 digits. */
  lemma BigIntegerRefused(reject: bool)
    ensures var data := [LBRACKET] + ([49] + ZEROS) + [RBRACKET];
            (exists d :: Rfc(d, data)) && Loaded(data, reject) == Rejected
  {
    var n := Num(false, [49] + ZEROS, None, NoExponent);
    TenPowers(20, ZEROS);
    TenToTwenty();
    assert NumText(n) == [49] + ZEROS;
    R.AsciiGood([49] + ZEROS);
    hide Loaded, Rfc, Utf8.ValidText, NumText, Pow;
    assert !Storable(Number(n));
    OneRefused(Number(n), reject);
  }

  /** The real 1e999. */
  lemma HugeRealRefused(reject: bool)
    ensures var data := [LBRACKET] + [49, 101, 57, 57, 57] + [RBRACKET];
            (exists d :: Rfc(d, data)) && Loaded(data, reject) == Rejected
  {
    var e := Exponent(101, [], [57, 57, 57]);
    var n := Num(false, [49], None, e);
    assert ExpValue(e) == 999 by {
      assert [57, 57, 57][..2] == [57, 57] && [57, 57][..1] == [57] && [57][..0] == [];
    }
    assert NumText(n) == [49, 101, 57, 57, 57] && AllDigits(e.digits) && NumOk(n);
    assert Decimal([49] + []) == 1 by {
      assert [49] + [] == [49] && Decimal([49][..0]) == 0;
    }
    R.AsciiGood(NumText(n));
    hide Loaded, Rfc, Utf8.ValidText, NumText, Pow, Huge, NumOk;
    TenToThe(ExpValue(e));
    assert Overflows(n);
    OneRefused(Number(n), reject);
  }

  lemma OneEscape(h0: byte, h1: byte, h2: byte, h3: byte)
    requires IsHexDigit(h0) && IsHexDigit(h1) && IsHexDigit(h2) && IsHexDigit(h3)
    ensures var lex := Str([Hex(h0, h1, h2, h3)]);
            && LexShape(lex) && StrictLex(lex, false) && LexText(lex) == [QUOTE, BACKSLASH, 117, h0, h1, h2, h3, QUOTE]
            && Utf8.ValidText(LexText(lex))
  {
    var us := [Hex(h0, h1, h2, h3)];
    assert us[1..] == [] && UnitsText(us) == UnitText(us[0]) + [];
    R.AsciiGood([QUOTE, BACKSLASH, 117, h0, h1, h2, h3, QUOTE]);
  }

  /** An escaped NUL, and a surrogate on its own. */
  lemma EscapesRefused(reject: bool)
    ensures var data := [LBRACKET] + [QUOTE, BACKSLASH, 117, 48, 48, 48, 48, QUOTE] + [RBRACKET];
            (exists d :: Rfc(d, data)) && Loaded(data, reject) == Rejected
    ensures var data := [LBRACKET] + [QUOTE, BACKSLASH, 117, 100, 56, 48, 48, QUOTE] + [RBRACKET];
            (exists d :: Rfc(d, data)) && Loaded(data, reject) == Rejected
  {
    var nul, high := Hex(48, 48, 48, 48), Hex(100, 56, 48, 48);
    assert Escaped(nul) == Some(0) && Escaped(high) == Some(0xD800);
    assert [nul][0] == nul && [high][0] == high;
    assert !NoNulEscape([nul]) && !Paired([high]);
    hide Loaded, Rfc, Utf8.ValidText, NoNulEscape, Paired;
    OneEscape(48, 48, 48, 48);
    OneRefused(Str([nul]), reject);
    OneEscape(100, 56, 48, 48);
    OneRefused(Str([high]), reject);
  }

  /** Loading an array, once its text after the bracket is understood. */
  lemma OpenArray(t: bytes, reject: bool)
    requires forall i :: 0 <= i < |t| ==> t[i] < 0x80
    ensures var data := [LBRACKET] + t;
            Loaded(data, reject) ==
            match ParseArray(t, false, reject)
            case Ok(syn, rest) =>
              (match S.Scan(rest, false)
               case AtEnd => Parsed(Meaning.ValueOf(syn))
               case Aborts => Aborted
               case _ => Rejected)
            case Fail => Rejected
            case Crash => Aborted
  {
    hide Utf8.Deliverable, ParseArray;
    var data := [LBRACKET] + t;
    AsciiDelivered(data, |data|);
    assert data[|data|..] == [] && data[..|data|] == data && Utf8.Deliverable([]) == [] && data + [] == data;
    assert data[0..] == data && data[1..] == t && data[..0] == [];
    assert S.Scan(data, false) == S.Tok([], Punct(LBRACKET), t);
  }

  lemma OthersScan(h: byte)
    requires !IsAlnum(h)
    ensures S.Scan([QUOTE, BACKSLASH, 117, h, h, h, h, QUOTE, RBRACKET], false) == S.Scanned.Aborts
  {
    var us := [Hex(h, h, h, h)];
    var t := [QUOTE, BACKSLASH, 117, h, h, h, h, QUOTE, RBRACKET];
    assert us[1..] == [] && UnitsText(us) == UnitText(us[0]) + [];
    S.UnitsComplete(us, [RBRACKET]);
    assert t[1..] == UnitsText(us) + [QUOTE] + [RBRACKET];
    assert DecodeUnits(us) == Decoded.Aborts;
    hide S.Units, DecodeUnits;
    assert t[0..] == t && t[..0] == [];
  }

  /** Any byte that is neither a digit nor a letter, a quote or a space for instance, among
      the four after the u stops the process in assert(0). */
  lemma OthersAbort(h: byte, reject: bool)
    requires !IsAlnum(h) && h < 0x80
    ensures Loaded([LBRACKET, QUOTE, BACKSLASH, 117, h, h, h, h, QUOTE, RBRACKET], reject) == Aborted
  {
    hide S.Scan, Loaded;
    var t := [QUOTE, BACKSLASH, 117, h, h, h, h, QUOTE, RBRACKET];
    assert [LBRACKET, QUOTE, BACKSLASH, 117, h, h, h, h, QUOTE, RBRACKET] == [LBRACKET] + t;
    OthersScan(h);
    OpenArray(t, reject);
  }

  lemma OneScans(rest: bytes)
    requires S.EndsNumber(rest)
    ensures S.Scan([49] + rest, false) == S.Tok([], Number(Num(false, [49], None, NoExponent)), S.Unread(rest))
  {
    var n := Num(false, [49], None, NoExponent);
    assert NumText(n) == [49];
    S.ScanNumComplete(n, rest);
    assert Decimal([49][..0]) == 0 && Decimal([49]) == 1;
    hide S.ScanNum;
    var t := [49] + rest;
    assert t[0..] == t && t[..0] == [];
  }

  /** A NUL after a number is swallowed: the four bytes [1 NUL ] are accepted. */
  lemma NulIsSwallowed(reject: bool)
    ensures Loaded([LBRACKET, 49, 0, RBRACKET], reject) == Parsed(V.Array([V.Integer(1)]))
  {
    var t := [49, 0, RBRACKET];
    assert [LBRACKET, 49, 0, RBRACKET] == [LBRACKET] + t;
    NulTokens();
    hide S.Scan, Loaded, Decimal;
    var one := Leaf(Number(Num(false, [49], None, NoExponent)));
    OneParsed(t, reject);
    hide ParseArray;
    OpenArray(t, reject);
    assert Meaning.ElemValues([V.Integer(1)], EndArray([])) == [V.Integer(1)];
  }

  lemma OneParsed(t: bytes, reject: bool)
    requires t == [49, 0, RBRACKET]
    ensures ParseArray(t, false, reject) == Ok(Syn.Array([], Leaf(Number(Num(false, [49], None, NoExponent))), EndArray([])), [])
  {
    NulTokens();
    hide S.Scan, Decimal;
  }

  lemma NulTokens()
    ensures S.Scan([49, 0, RBRACKET], false) == S.Tok([], Number(Num(false, [49], None, NoExponent)), [RBRACKET])
    ensures S.Scan([RBRACKET], false) == S.Tok([], Punct(RBRACKET), []) && S.Scan([], false).AtEnd?
    ensures Decimal([49]) == 1
  {
    OneScans([0, RBRACKET]);
    assert [49] + [0, RBRACKET] == [49, 0, RBRACKET] && [0, RBRACKET][1..] == [RBRACKET];
    assert [] + ([RBRACKET] + []) == [RBRACKET];
    S.ScanComplete([], Punct(RBRACKET), [], false);
    assert Decimal([49][..0]) == 0;
  }

  // --------------------------------------------------- dumping and loading again

  /** What is dumped is loaded again, byte stream and all, as a json_equal value. */
  lemma DumpLoads(v: Value, fl: P.Flags, reject: bool)
    requires (v.Array? || v.Object?) && P.Printable(v) && WellFormed(v)
    ensures var out := Loaded(R.DumpText(v, fl, 0), reject);
            out.Parsed? && WellFormed(out.value) && SameValue(out.value, v) && Forget(out.value) == Forget(v)
  {
    R.DumpGood(v, fl);
    R.DumpThenLoad(v, fl, reject);
  }

  lemma LexPrintable(lex: Lexeme)
    requires !lex.Punct? && Meaning.GoodLex(lex)
    ensures P.Printable(Meaning.LexValue(lex))
  {
    if lex.Number? && !IsInteger(lex.num) {
      S.ScanNumComplete(lex.num, []);
      assert NumText(lex.num) + [] == NumText(lex.num);
    }
  }

  lemma {:induction false} SynPrintable(syn: Syn)
    requires Meaning.GoodSyn(syn)
    ensures P.Printable(Meaning.ValueOf(syn))
    decreases syn, 1
  {
    match syn
    case Leaf(lex) => LexPrintable(lex);
    case EmptyArray(_) =>
    case Array(_, head, tail) =>
      SynPrintable(head);
      ElemsPrintable([Meaning.ValueOf(head)], tail);
    case EmptyObject(_) =>
    case Object(first, rest) =>
      SynPrintable(first.value);
      SetPrintable([], 0, KeyOf(first.key), Meaning.ValueOf(first.value));
      MembersPrintable(V.Set([], 0, KeyOf(first.key), Meaning.ValueOf(first.value)), 1, rest);
  }

  lemma {:induction false} ElemsPrintable(items: seq<Value>, e: Elems)
    requires P.Printable(V.Array(items)) && Meaning.GoodElems(e)
    ensures P.Printable(V.Array(Meaning.ElemValues(items, e)))
    decreases e
  {
    if e.Elem? {
      SynPrintable(e.head);
      ElemsPrintable(items + [Meaning.ValueOf(e.head)], e.tail);
    }
  }

  lemma SetPrintable(es: seq<Entry>, serial: nat, key: bytes, value: Value)
    requires P.Printable(V.Object(es)) && Meaning.GoodText(key) && P.Printable(value)
    ensures P.Printable(V.Object(V.Set(es, serial, key, value)))
  {
    hide Meaning.GoodText;
    PrintableObject(es);
    var r := V.Set(es, serial, key, value);
    PrintableObject(r);
    hide P.Printable;
    assert forall i :: 0 <= i < |r| ==> r[i] == V.Entry(key, r[i].serial, value) || (i < |es| && r[i] == es[i]);
  }

  lemma PrintableObject(es: seq<V.Entry>)
    ensures P.Printable(V.Object(es)) <==> forall i :: 0 <= i < |es| ==> Meaning.GoodText(es[i].key) && P.Printable(es[i].value)
  {
  }

  lemma {:induction false} MembersPrintable(es: seq<Entry>, serial: nat, m: Members)
    requires P.Printable(V.Object(es)) && Meaning.GoodMembers(m)
    ensures P.Printable(V.Object(Meaning.MemberValues(es, serial, m)))
    decreases m
  {
    hide Meaning.GoodText, KeyOf;
    if m.More? {
      SynPrintable(m.head.value);
      SetPrintable(es, serial, KeyOf(m.head.key), Meaning.ValueOf(m.head.value));
      MembersPrintable(V.Set(es, serial, KeyOf(m.head.key), Meaning.ValueOf(m.head.value)), serial + 1, m.tail);
    }
  }

  /** Whatever bytes a value was loaded from, it can be dumped: its strings and keys are
      valid, NUL-free UTF-8, although the parser never checks them, and no object repeats a
      key. Loading that dump gives the value back. */
  lemma LoadDumpLoad(data: bytes, first: bool, fl: P.Flags, second: bool)
    requires Loaded(data, first).Parsed?
    ensures var v := Loaded(data, first).value;
            && P.Printable(v) && WellFormed(v) && (v.Array? || v.Object?)
            && var out := Loaded(R.DumpText(v, fl, 0), second);
               out.Parsed? && SameValue(out.value, v) && Forget(out.value) == Forget(v)
  {
    hide Utf8.ValidText, Utf8.Deliverable, ParseDoc, P.Printable, WellFormed, Meaning.GoodSyn;
    NotBroken(data, first);
    Meaning.DocGood(data, false, first);
    var top := ParseDoc(data, false, first).v.top;
    SynPrintable(top);
    Meaning.ValueWellFormed(top);
    TopIsContainer(data, first);
    DumpLoads(Meaning.ValueOf(top), fl, second);
  }

  lemma TopIsContainer(data: bytes, reject: bool)
    requires ParseDoc(data, false, reject).Ok?
    ensures var v := Meaning.ValueOf(ParseDoc(data, false, reject).v.top); v.Array? || v.Object?
  {
    hide Read;
    var Ok((_, lex), s) := Read(data, false);
    if lex == Punct(LBRACE) {
      ObjectIsObject(s, reject);
    } else {
      ArrayIsArray(s, reject);
    }
  }

  lemma ArrayIsArray(s: bytes, reject: bool)
    requires ParseArray(s, false, reject).Ok?
    ensures Meaning.ValueOf(ParseArray(s, false, reject).v).Array?
  {
    hide Read, ParseValue, ParseElems;
  }

  lemma ObjectIsObject(s: bytes, reject: bool)
    requires ParseObject(s, false, reject).Ok?
    ensures Meaning.ValueOf(ParseObject(s, false, reject).v).Object?
  {
    hide Read, ParseMember, ParseMembers;
  }
}
