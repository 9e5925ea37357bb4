/**
  The JSON grammar of RFC 4627 section 2 as syntax trees: what text a tree spells,
  when a tree is well-formed, and what value it means. load.c is compared with this.
 */
module Grammar {
  import opened Bytes
  import Utf8

  // ------------------------------------------------------------------ strings

  /** One piece of a string literal: a byte that stands for itself, a two-character
      escape, or \u and the four bytes after it. */
  datatype Unit = Raw(b: byte) | Short(b: byte) | Hex(h0: byte, h1: byte, h2: byte, h3: byte)

  function UnitText(u: Unit): (r: bytes)
    ensures |r| >= 1
  {
    match u
    case Raw(b) => [b]
    case Short(b) => [BACKSLASH, b]
    case Hex(h0, h1, h2, h3) => [BACKSLASH, 117, h0, h1, h2, h3]
  }

  function UnitsText(us: seq<Unit>): bytes {
    if us == [] then [] else UnitText(us[0]) + UnitsText(us[1..])
  }

  lemma {:induction false} UnitsTextConcat(us: seq<Unit>, vs: seq<Unit>)
    ensures UnitsText(us + vs) == UnitsText(us) + UnitsText(vs)
  {
    if us == [] {
      assert us + vs == vs;
    } else {
      UnitsTextConcat(us[1..], vs);
      assert (us + vs)[1..] == us[1..] + vs && (us + vs)[0] == us[0];
      Cat2(UnitText(us[0]), UnitsText(us[1..]), UnitsText(vs));
    }
  }

  predicate IsShort(b: byte) {
    b == QUOTE || b == BACKSLASH || b == 47 || b == 98 || b == 102 || b == 110 || b == 114 || b == 116
  }

  /** What the lexer's first pass lets through; any four bytes may follow \u. */
  predicate UnitOk(u: Unit) {
    match u
    case Raw(b) => b >= 0x20 && b != QUOTE && b != BACKSLASH
    case Short(b) => IsShort(b)
    case Hex(_, _, _, _) => true
  }

  predicate UnitsOk(us: seq<Unit>) {
    us == [] || (UnitOk(us[0]) && UnitsOk(us[1..]))
  }

  predicate IsHexDigit(b: byte) { IsDigit(b) || 65 <= b <= 70 || 97 <= b <= 102 }

  function Unescape(b: byte): byte {
    match b as int
    case 98 => 8 case 102 => 12 case 110 => 10 case 114 => 13 case 116 => 9
    case _ => b
  }

  predicate IsAlnum(b: byte) { IsDigit(b) || IsAlpha(b) }

  /** The four bytes after \u are hexadecimal digits, or any letters and digits. */
  predicate DigitsOk(u: Unit, letters: bool)
    requires u.Hex?
  {
    if letters then IsAlnum(u.h0) && IsAlnum(u.h1) && IsAlnum(u.h2) && IsAlnum(u.h3)
    else IsHexDigit(u.h0) && IsHexDigit(u.h1) && IsHexDigit(u.h2) && IsHexDigit(u.h3)
  }

  /** RFC 4627 section 2.5 asks for four hexadecimal digits after \u. */
  predicate StrictUnits(us: seq<Unit>, letters: bool) {
    us == [] || ((us[0].Hex? ==> DigitsOk(us[0], letters)) && StrictUnits(us[1..], letters))
  }

  /** One digit of decode_unicode_escape, which takes any letter. */
  function DigitValue(b: byte): (v: nat)
    requires IsAlnum(b)
    ensures v < 36
    ensures IsHexDigit(b) ==> v < 16
  {
    if IsDigit(b) then b as int - 48 else if IsLower(b) then b as int - 97 + 10 else b as int - 65 + 10
  }

  /** The value of four digits, or None where the C code hits assert(0). */
  function EscapeValue(h0: byte, h1: byte, h2: byte, h3: byte): (r: Option<nat>)
    ensures r.Some? <==> IsAlnum(h0) && IsAlnum(h1) && IsAlnum(h2) && IsAlnum(h3)
    ensures r.Some? ==> r.value <= 152915
    ensures r.Some? && IsHexDigit(h0) && IsHexDigit(h1) && IsHexDigit(h2) && IsHexDigit(h3) ==> r.value < 0x10000
  {
    if IsAlnum(h0) && IsAlnum(h1) && IsAlnum(h2) && IsAlnum(h3) then
      Some(((DigitValue(h0) * 16 + DigitValue(h1)) * 16 + DigitValue(h2)) * 16 + DigitValue(h3))
    else None
  }

  /** How the second pass over a string literal ends. */
  datatype Decoded = Text(text: bytes) | Invalid | Aborts

  function Prefixed(head: bytes, d: Decoded): Decoded {
    if d.Text? then Text(head + d.text) else d
  }

  lemma PrefixedTwice(a: bytes, b: bytes, d: Decoded)
    ensures Prefixed(a, Prefixed(b, d)) == Prefixed(a + b, d)
  {
    if d.Text? {
      assert a + (b + d.text) == (a + b) + d.text;
    }
  }

  function IsHighSurrogate(v: int): bool { 0xD800 <= v <= 0xDBFF }

  function IsLowSurrogate(v: int): bool { 0xDC00 <= v <= 0xDFFF }

  /** RFC 2781 section 2.2. */
  function Combine(high: int, low: int): (cp: int)
    requires IsHighSurrogate(high) && IsLowSurrogate(low)
    ensures 0x10000 <= cp <= 0x10FFFF
  {
    (high - 0xD800) * 1024 + (low - 0xDC00) + 0x10000
  }

  /** What the units of a literal mean. */
  function DecodeUnits(us: seq<Unit>): Decoded {
    if us == [] then Text([])
    else
      match us[0]
      case Raw(b) => Prefixed([b], DecodeUnits(us[1..]))
      case Short(b) => Prefixed([Unescape(b)], DecodeUnits(us[1..]))
      case Hex(h0, h1, h2, h3) =>
        match EscapeValue(h0, h1, h2, h3)
        case None => Aborts
        case Some(v) =>
          if IsHighSurrogate(v) then
            if |us| > 1 && us[1].Hex? then
              match EscapeValue(us[1].h0, us[1].h1, us[1].h2, us[1].h3)
              case None => Aborts
              case Some(v2) =>
                if IsLowSurrogate(v2) then Prefixed(Utf8.Encode(Combine(v, v2)).value, DecodeUnits(us[2..]))
                else Invalid
            else Invalid
          else if IsLowSurrogate(v) || v == 0 then Invalid
          else Prefixed(Utf8.Encode(v).value, DecodeUnits(us[1..]))
  }

  // ------------------------------------------------------------------ numbers

  datatype Exponent = NoExponent | Exponent(mark: byte, sign: bytes, digits: bytes)

  /** RFC 4627 section 2.4: int, frac and exp. */
  datatype Num = Num(neg: bool, digits: bytes, frac: Option<bytes>, exp: Exponent)

  predicate AllDigits(s: bytes) {
    forall i :: 0 <= i < |s| ==> IsDigit(s[i])
  }

  function FracText(f: Option<bytes>): bytes {
    if f.Some? then [46] + f.value else []
  }

  function ExpText(e: Exponent): bytes {
    if e.Exponent? then [e.mark] + (e.sign + e.digits) else []
  }

  function SignText(neg: bool): bytes { if neg then [MINUS] else [] }

  function NumText(n: Num): bytes {
    SignText(n.neg) + (n.digits + (FracText(n.frac) + ExpText(n.exp)))
  }

  predicate ExpOk(e: Exponent) {
    e.Exponent? ==> && (e.mark == 69 || e.mark == 101) && (e.sign == [] || e.sign == [43] || e.sign == [MINUS])
                    && e.digits != [] && AllDigits(e.digits)
  }

  predicate NumOk(n: Num) {
    && n.digits != [] && AllDigits(n.digits) && (n.digits[0] == 48 ==> |n.digits| == 1)
    && (n.frac.Some? ==> n.frac.value != [] && AllDigits(n.frac.value))
    && ExpOk(n.exp)
  }

  predicate IsInteger(n: Num) { n.frac.None? && n.exp.NoExponent? }

  function Decimal(s: bytes): int {
    if s == [] then 0 else 10 * Decimal(s[..|s|-1]) + (s[|s|-1] as int - 48)
  }

  /** The value strtoll computes before it checks the range. */
  function IntValue(n: Num): int {
    if n.neg then -Decimal(n.digits) else Decimal(n.digits)
  }

  predicate IsInt64(v: int) { -0x8000_0000_0000_0000 <= v < 0x8000_0000_0000_0000 }

  function Pow(b: nat, e: nat): nat { if e == 0 then 1 else b * Pow(b, e - 1) }

  /** IEEE 754 double precision: digits of the significand and the largest exponent. */
  const MANT_DIG: nat := 53
  const MAX_EXP: nat := 1024

  /** Rounding to nearest makes everything from here on infinite. */
  function Huge(): int { Pow(2, MAX_EXP) - Pow(2, MAX_EXP - MANT_DIG - 1) }

  function ExpValue(e: Exponent): int {
    if e.NoExponent? then 0 else if e.sign == [MINUS] then -Decimal(e.digits) else Decimal(e.digits)
  }

  /** strtod reports ERANGE and HUGE_VAL. */
  predicate Overflows(n: Num) {
    var frac := if n.frac.Some? then n.frac.value else [];
    Exceeds(Decimal(n.digits + frac), ExpValue(n.exp) - |frac|)
  }

  /** m times ten to the e is too large. */
  predicate Exceeds(m: int, e: int) {
    if e >= 0 then m * Pow(10, e) >= Huge() else m >= Huge() * Pow(10, -e)
  }

  /** What lex_scan_number can store: 64-bit integers, and reals that do not overflow. */
  predicate NumFits(n: Num) {
    if IsInteger(n) then IsInt64(IntValue(n)) else !Overflows(n)
  }

  // ------------------------------------------------------------------ lexemes

  datatype Word = True | False | Null

  datatype Lexeme = Punct(b: byte) | Str(units: seq<Unit>) | Number(num: Num) | Literal(word: Word)

  predicate IsPunct(b: byte) {
    b == LBRACE || b == RBRACE || b == LBRACKET || b == RBRACKET || b == COLON || b == COMMA
  }

  function WordText(w: Word): bytes {
    match w
    case True => [116, 114, 117, 101]
    case False => [102, 97, 108, 115, 101]
    case Null => [110, 117, 108, 108]
  }

  function LexText(lex: Lexeme): bytes {
    match lex
    case Punct(b) => [b]
    case Str(us) => [QUOTE] + UnitsText(us) + [QUOTE]
    case Number(n) => NumText(n)
    case Literal(w) => WordText(w)
  }

  predicate StrOk(us: seq<Unit>) { UnitsOk(us) && DecodeUnits(us).Text? }

  predicate LexOk(lex: Lexeme) {
    match lex
    case Punct(b) => IsPunct(b)
    case Str(us) => StrOk(us)
    case Number(n) => NumOk(n) && NumFits(n)
    case Literal(_) => true
  }

  // ------------------------------------------------------------- syntax trees

  /** A value and the white space inside it; Elems and Members are what follows a
      value up to the closing bracket. */
  datatype Syn =
    | Leaf(lex: Lexeme)
    | EmptyArray(w: bytes)
    | Array(w: bytes, head: Syn, tail: Elems)
    | EmptyObject(w: bytes)
    | Object(first: Member, rest: Members)

  datatype Elems = EndArray(w: bytes) | Elem(w: bytes, wv: bytes, head: Syn, tail: Elems)

  datatype Member = Member(wk: bytes, key: seq<Unit>, wc: bytes, wv: bytes, value: Syn)

  datatype Members = EndObject(w: bytes) | More(w: bytes, head: Member, tail: Members)

  function Render(syn: Syn): bytes {
    match syn
    case Leaf(lex) => LexText(lex)
    case EmptyArray(w) => [LBRACKET] + (w + [RBRACKET])
    case Array(w, head, tail) => [LBRACKET] + (w + (Render(head) + RenderElems(tail)))
    case EmptyObject(w) => [LBRACE] + (w + [RBRACE])
    case Object(head, tail) => [LBRACE] + (RenderMember(head) + RenderMembers(tail))
  }

  function RenderElems(e: Elems): bytes {
    match e
    case EndArray(w) => w + [RBRACKET]
    case Elem(w, wv, head, tail) => w + ([COMMA] + (wv + (Render(head) + RenderElems(tail))))
  }

  function RenderMember(m: Member): bytes {
    m.wk + (LexText(Str(m.key)) + (m.wc + ([COLON] + (m.wv + Render(m.value)))))
  }

  function RenderMembers(m: Members): bytes {
    match m
    case EndObject(w) => w + [RBRACE]
    case More(w, head, tail) => w + ([COMMA] + (RenderMember(head) + RenderMembers(tail)))
  }

  predicate AllSpace(w: bytes) {
    forall i :: 0 <= i < |w| ==> IsSpace(w[i])
  }

  predicate IsScalarLex(lex: Lexeme) { !lex.Punct? && LexOk(lex) }

  predicate SynOk(syn: Syn) {
    match syn
    case Leaf(lex) => IsScalarLex(lex)
    case EmptyArray(w) => AllSpace(w)
    case Array(w, head, tail) => AllSpace(w) && SynOk(head) && ElemsOk(tail)
    case EmptyObject(w) => AllSpace(w)
    case Object(head, tail) => MemberOk(head) && MembersOk(tail)
  }

  predicate ElemsOk(e: Elems) {
    match e
    case EndArray(w) => AllSpace(w)
    case Elem(w, wv, head, tail) => AllSpace(w) && AllSpace(wv) && SynOk(head) && ElemsOk(tail)
  }

  predicate MemberOk(m: Member) {
    AllSpace(m.wk) && StrOk(m.key) && AllSpace(m.wc) && AllSpace(m.wv) && SynOk(m.value)
  }

  predicate MembersOk(m: Members) {
    match m
    case EndObject(w) => AllSpace(w)
    case More(w, head, tail) => AllSpace(w) && MemberOk(head) && MembersOk(tail)
  }

  /** The key a string literal names. */
  function KeyOf(us: seq<Unit>): bytes {
    var d := DecodeUnits(us); if d.Text? then d.text else []
  }

  /** No object repeats a key: what JSON_REJECT_DUPLICATES asks for. */
  predicate UniqueKeys(syn: Syn) {
    match syn
    case Leaf(_) => true
    case EmptyArray(_) => true
    case Array(_, head, tail) => UniqueKeys(head) && UniqueInElems(tail)
    case EmptyObject(_) => true
    case Object(first, rest) => UniqueKeys(first.value) && UniqueInMembers(rest, {KeyOf(first.key)})
  }

  predicate UniqueInElems(e: Elems) {
    e.Elem? ==> UniqueKeys(e.head) && UniqueInElems(e.tail)
  }

  predicate UniqueInMembers(m: Members, keys: set<bytes>) {
    m.More? ==> KeyOf(m.head.key) !in keys && UniqueKeys(m.head.value) && UniqueInMembers(m.tail, keys + {KeyOf(m.head.key)})
  }

  /** JSON-text: an object or array with white space around it. */
  datatype Doc = Doc(before: bytes, top: Syn, after: bytes)

  function RenderDoc(d: Doc): bytes { d.before + (Render(d.top) + d.after) }

  predicate DocOk(d: Doc) {
    AllSpace(d.before) && SynOk(d.top) && !d.top.Leaf? && AllSpace(d.after)
  }

  // ---------------------------------------------------- the grammar of the RFC

  /** What the grammar alone asks of a lexeme: any units, numbers of any size. */
  predicate LexShape(lex: Lexeme) {
    match lex
    case Punct(b) => IsPunct(b)
    case Str(us) => UnitsOk(us)
    case Number(n) => NumOk(n)
    case Literal(_) => true
  }

  predicate SynShape(syn: Syn) {
    match syn
    case Leaf(lex) => !lex.Punct? && LexShape(lex)
    case EmptyArray(w) => AllSpace(w)
    case Array(w, head, tail) => AllSpace(w) && SynShape(head) && ElemsShape(tail)
    case EmptyObject(w) => AllSpace(w)
    case Object(head, tail) => MemberShape(head) && MembersShape(tail)
  }

  predicate ElemsShape(e: Elems) {
    match e
    case EndArray(w) => AllSpace(w)
    case Elem(w, wv, head, tail) => AllSpace(w) && AllSpace(wv) && SynShape(head) && ElemsShape(tail)
  }

  predicate MemberShape(m: Member) {
    AllSpace(m.wk) && UnitsOk(m.key) && AllSpace(m.wc) && AllSpace(m.wv) && SynShape(m.value)
  }

  predicate MembersShape(m: Members) {
    match m
    case EndObject(w) => AllSpace(w)
    case More(w, head, tail) => AllSpace(w) && MemberShape(head) && MembersShape(tail)
  }

  predicate DocShape(d: Doc) {
    AllSpace(d.before) && SynShape(d.top) && !d.top.Leaf? && AllSpace(d.after)
  }

  // ------------------------------------- what load.c holds against such a text

  datatype Fault = NoDigit | LoneSurrogate | NulEscape | IntegerRange | RealRange | RepeatedKey

  /** The escapes that stand for nothing, in their order. */
  function UnitFaults(us: seq<Unit>): seq<Fault> {
    if us == [] then []
    else if !us[0].Hex? then UnitFaults(us[1..])
    else
      match EscapeValue(us[0].h0, us[0].h1, us[0].h2, us[0].h3)
      case None => [NoDigit] + UnitFaults(us[1..])
      case Some(v) =>
        if IsHighSurrogate(v) then
          if |us| > 1 && us[1].Hex? then
            match EscapeValue(us[1].h0, us[1].h1, us[1].h2, us[1].h3)
            case None => [NoDigit] + UnitFaults(us[2..])
            case Some(v2) => if IsLowSurrogate(v2) then UnitFaults(us[2..]) else [LoneSurrogate] + UnitFaults(us[1..])
          else [LoneSurrogate] + UnitFaults(us[1..])
        else if IsLowSurrogate(v) then [LoneSurrogate] + UnitFaults(us[1..])
        else if v == 0 then [NulEscape] + UnitFaults(us[1..])
        else UnitFaults(us[1..])
  }

  function LexFaults(lex: Lexeme): seq<Fault> {
    match lex
    case Str(us) => UnitFaults(us)
    case Number(n) => if NumFits(n) then [] else if IsInteger(n) then [IntegerRange] else [RealRange]
    case _ => []
  }

  /** All faults of a value in the order of its text. */
  function SynFaults(syn: Syn, reject: bool): seq<Fault> {
    match syn
    case Leaf(lex) => LexFaults(lex)
    case EmptyArray(_) => []
    case Array(_, head, tail) => SynFaults(head, reject) + ElemsFaults(tail, reject)
    case EmptyObject(_) => []
    case Object(first, rest) => MemberFaults(first, reject, {}) + MembersFaults(rest, reject, {KeyOf(first.key)})
  }

  function ElemsFaults(e: Elems, reject: bool): seq<Fault> {
    match e
    case EndArray(_) => []
    case Elem(_, _, head, tail) => SynFaults(head, reject) + ElemsFaults(tail, reject)
  }

  function MemberFaults(m: Member, reject: bool, keys: set<bytes>): seq<Fault> {
    UnitFaults(m.key) + (Repeats(m.key, reject, keys) + SynFaults(m.value, reject))
  }

  function Repeats(key: seq<Unit>, reject: bool, keys: set<bytes>): seq<Fault> {
    if reject && KeyOf(key) in keys then [RepeatedKey] else []
  }

  function MembersFaults(m: Members, reject: bool, keys: set<bytes>): seq<Fault> {
    match m
    case EndObject(_) => []
    case More(_, head, tail) => MemberFaults(head, reject, keys) + MembersFaults(tail, reject, keys + {KeyOf(head.key)})
  }

  /** The second pass over a literal ends as its first fault says. */
  lemma {:induction false} FirstFault(us: seq<Unit>)
    ensures DecodeUnits(us).Text? <==> UnitFaults(us) == []
    ensures DecodeUnits(us).Aborts? <==> UnitFaults(us) != [] && UnitFaults(us)[0] == NoDigit
    decreases |us|
  {
    hide EscapeValue, Utf8.Encode, Combine;
    if us != [] {
      FirstFault(us[1..]);
      if |us| > 1 {
        FirstFault(us[2..]);
      }
    }
  }

  lemma LexFaultless(lex: Lexeme)
    ensures LexOk(lex) <==> LexShape(lex) && LexFaults(lex) == []
  {
    hide NumFits, NumOk, DecodeUnits;
    if lex.Str? {
      FirstFault(lex.units);
    }
  }

  /** The documents load.c takes are those of the grammar without a fault. */
  lemma {:induction false} SynFaultless(syn: Syn, reject: bool)
    ensures SynShape(syn) && SynFaults(syn, reject) == [] <==> SynOk(syn) && (reject ==> UniqueKeys(syn))
    decreases syn
  {
    hide LexOk, LexShape, LexFaults;
    match syn
    case Leaf(lex) => LexFaultless(lex);
    case Array(_, head, tail) =>
      SynFaultless(head, reject);
      ElemsFaultless(tail, reject);
    case Object(first, rest) =>
      MemberFaultless(first, reject, {});
      MembersFaultless(rest, reject, {KeyOf(first.key)});
    case _ =>
  }

  lemma {:induction false} ElemsFaultless(e: Elems, reject: bool)
    ensures ElemsShape(e) && ElemsFaults(e, reject) == [] <==> ElemsOk(e) && (reject ==> UniqueInElems(e))
    decreases e
  {
    if e.Elem? {
      SynFaultless(e.head, reject);
      ElemsFaultless(e.tail, reject);
    }
  }

  lemma {:induction false} MemberFaultless(m: Member, reject: bool, keys: set<bytes>)
    ensures MemberShape(m) && MemberFaults(m, reject, keys) == [] <==>
            MemberOk(m) && (reject ==> KeyOf(m.key) !in keys && UniqueKeys(m.value))
    decreases m
  {
    hide DecodeUnits, KeyOf;
    FirstFault(m.key);
    SynFaultless(m.value, reject);
  }

  lemma {:induction false} MembersFaultless(m: Members, reject: bool, keys: set<bytes>)
    ensures MembersShape(m) && MembersFaults(m, reject, keys) == [] <==> MembersOk(m) && (reject ==> UniqueInMembers(m, keys))
    decreases m
  {
    hide KeyOf, MemberOk, MemberShape, MemberFaults;
    if m.More? {
      MemberFaultless(m.head, reject, keys);
      MembersFaultless(m.tail, reject, keys + {KeyOf(m.head.key)});
    }
  }
}
