/**
  The tables of load.c told byte by byte: which bytes are white space, which letters make a
  word, what each escape stands for, and what becomes of texts given in full.
 */
module Spelling {
  import opened Bytes
  import opened Grammar
  import opened Loading
  import opened Parser
  import opened Parsing
  import opened Values
  import Escapes
  import Meaning
  import R = RoundTrip
  import S = Scanning
  import Utf8
  import V = Values

  // ------------------------------------------------------------- the scanner

  /** White space is space, tab, newline and carriage return. */
  lemma SpaceBytes(s: bytes)
    ensures var n := S.Spaces(s);
            && n <= |s| && (forall i :: 0 <= i < n ==> s[i] == 32 || s[i] == 9 || s[i] == 10 || s[i] == 13)
            && (n < |s| ==> s[n] != 32 && s[n] != 9 && s[n] != 10 && s[n] != 13)
  {
    var n := S.Spaces(s);
    forall i | 0 <= i < n
      ensures IsSpace(s[i])
    {
      assert s[..n][i] == s[i];
    }
  }

  /** Letters up to the first byte that is none make a word if they spell true, false or null. */
  lemma WordBytes(t: bytes, n: nat)
    requires n <= |t| && (forall i :: 0 <= i < n ==> 65 <= t[i] <= 90 || 97 <= t[i] <= 122)
    requires n < |t| ==> !(65 <= t[n] <= 90 || 97 <= t[n] <= 122)
    ensures S.ScanWord([], t).Tok? <==> t[..n] == [116, 114, 117, 101] || t[..n] == [102, 97, 108, 115, 101] || t[..n] == [110, 117, 108, 108]
    ensures t[..n] == [116, 114, 117, 101] ==> S.ScanWord([], t) == S.Tok([], Literal(Word.True), S.Unread(t[n..]))
    ensures t[..n] == [102, 97, 108, 115, 101] ==> S.ScanWord([], t) == S.Tok([], Literal(Word.False), S.Unread(t[n..]))
    ensures t[..n] == [110, 117, 108, 108] ==> S.ScanWord([], t) == S.Tok([], Literal(Word.Null), S.Unread(t[n..]))
  {
    assert t == t[..n] + t[n..];
    S.AlphasComplete(t[..n], t[n..]);
  }

  // ------------------------------------------------------------ one element

  predicate Ascii(t: bytes) { forall i :: 0 <= i < |t| ==> 0 < t[i] < 0x80 }

  lemma Joins(a: bytes, b: bytes)
    requires Ascii(a) && Ascii(b)
    ensures Ascii(a + b)
  {
  }

  lemma AsciiValid(t: bytes)
    requires Ascii(t)
    ensures Utf8.ValidText(t)
  {
    R.AsciiGood(t);
  }

  lemma OneLoads(lex: Lexeme, t: bytes, reject: bool)
    requires !lex.Punct? && LexShape(lex) && LexText(lex) == t && Ascii(t)
    ensures LexFaults(lex) == [] ==> Loaded([91] + t + [93], reject) == Parsed(V.Array([Meaning.LexValue(lex)]))
  {
    hide LexShape, LexText, Meaning.LexValue, Loaded;
    OneElementIs(lex);
    R.AsciiGood([91] + t + [93]);
    hide RenderDoc, DocShape, Meaning.GoodText, SynFaults, Meaning.ValueOf;
    GrammarJudged([91] + t + [93], reject, OneElement(lex));
  }

  /** [true], [false] and [null]. */
  lemma WordsLoad(reject: bool)
    ensures Loaded([91, 116, 114, 117, 101, 93], reject) == Parsed(V.Array([V.True]))
    ensures Loaded([91, 102, 97, 108, 115, 101, 93], reject) == Parsed(V.Array([V.False]))
    ensures Loaded([91, 110, 117, 108, 108, 93], reject) == Parsed(V.Array([V.Null]))
  {
    hide Loaded;
    OneLoads(Literal(Word.True), [116, 114, 117, 101], reject);
    OneLoads(Literal(Word.False), [102, 97, 108, 115, 101], reject);
    OneLoads(Literal(Word.Null), [110, 117, 108, 108], reject);
    assert [91] + [116, 114, 117, 101] + [93] == [91, 116, 114, 117, 101, 93];
    assert [91] + [102, 97, 108, 115, 101] + [93] == [91, 102, 97, 108, 115, 101, 93];
    assert [91] + [110, 117, 108, 108] + [93] == [91, 110, 117, 108, 108, 93];
  }

  // ---------------------------------------------------------------- strings

  /** A literal that means the given text. */
  lemma LiteralLoads(us: seq<Unit>, t: bytes, text: bytes, reject: bool)
    requires UnitsOk(us) && UnitsText(us) == t && Ascii(t) && DecodeUnits(us) == Text(text)
    ensures Loaded([91, 34] + t + [34, 93], reject) == Parsed(V.Array([V.String(text)]))
  {
    hide Loaded, DecodeUnits, UnitsText, UnitsOk, UnitFaults;
    var lex := Str(us);
    assert LexText(lex) == [34] + t + [34];
    FirstFault(us);
    OneLoads(lex, [34] + t + [34], reject);
    assert [91] + ([34] + t + [34]) + [93] == [91, 34] + t + [34, 93];
  }

  lemma UnitLoads(u: Unit, t: bytes, text: bytes, reject: bool)
    requires UnitOk(u) && UnitText(u) == t && Ascii(t) && DecodeUnits([u]) == Text(text)
    ensures Loaded([91, 34] + t + [34, 93], reject) == Parsed(V.Array([V.String(text)]))
  {
    hide Loaded, DecodeUnits;
    assert [u][1..] == [] && UnitsOk([]) && t + [] == t;
    assert UnitsText([u]) == UnitText(u) + UnitsText([]);
    LiteralLoads([u], t, text, reject);
  }

  lemma DecodesOne(u: Unit)
    ensures u.Raw? ==> DecodeUnits([u]) == Text([u.b])
    ensures u.Short? ==> DecodeUnits([u]) == Text([Unescape(u.b)])
  {
    assert [u][1..] == [] && DecodeUnits([]) == Text([]);
    hide Unescape;
  }

  /** The eight short escapes. */
  lemma ShortEscapesLoad(b: byte, x: byte, reject: bool)
    requires || (b == 34 && x == 34) || (b == 92 && x == 92) || (b == 47 && x == 47) || (b == 98 && x == 8)
             || (b == 102 && x == 12) || (b == 110 && x == 10) || (b == 114 && x == 13) || (b == 116 && x == 9)
    ensures Loaded([91, 34, 92, b, 34, 93], reject) == Parsed(V.Array([V.String([x])]))
  {
    hide Loaded, DecodeUnits;
    DecodesOne(Short(b));
    UnitLoads(Short(b), [92, b], [x], reject);
    assert [91, 34] + [92, b] + [34, 93] == [91, 34, 92, b, 34, 93];
  }

  /** A byte of ASCII that is neither a quotation mark nor a backslash nor below 0x20. */
  lemma PlainBytesLoad(b: byte, reject: bool)
    requires 0x20 <= b < 0x80 && b != 34 && b != 92
    ensures Loaded([91, 34, b, 34, 93], reject) == Parsed(V.Array([V.String([b])]))
  {
    hide Loaded, DecodeUnits;
    DecodesOne(Raw(b));
    UnitLoads(Raw(b), [b], [b], reject);
    assert [91, 34] + [b] + [34, 93] == [91, 34, b, 34, 93];
  }

  /** The value of a hexadecimal digit, of either case. */
  predicate Digit(b: byte, d: int) {
    || (0 <= d < 10 && b as int == 48 + d)
    || (10 <= d < 16 && (b as int == 65 + d - 10 || b as int == 97 + d - 10))
  }

  /** Four digits of the given value. */
  predicate Spells(h0: byte, h1: byte, h2: byte, h3: byte, v: int) {
    0 <= v < 0x10000 && Digit(h0, v / 4096) && Digit(h1, v / 256 % 16) && Digit(h2, v / 16 % 16) && Digit(h3, v % 16)
  }

  lemma SpelledValue(h0: byte, h1: byte, h2: byte, h3: byte, v: int)
    requires Spells(h0, h1, h2, h3, v)
    ensures EscapeValue(h0, h1, h2, h3) == Some(v)
    ensures 0 < h0 < 0x80 && 0 < h1 < 0x80 && 0 < h2 < 0x80 && 0 < h3 < 0x80
  {
    assert v / 256 / 16 == v / 4096 && v / 16 / 16 == v / 256;
    assert v / 256 == v / 4096 * 16 + v / 256 % 16 && v / 16 == v / 256 * 16 + v / 16 % 16 && v == v / 16 * 16 + v % 16;
  }

  /** \u and four hexadecimal digits, capital or not: the character of that number. */
  lemma HexEscapesLoad(h0: byte, h1: byte, h2: byte, h3: byte, v: int, reject: bool)
    requires Spells(h0, h1, h2, h3, v) && 0 < v && !(0xD800 <= v <= 0xDFFF)
    ensures Utf8.Encode(v).Some?
    ensures Loaded([91, 34, 92, 117, h0, h1, h2, h3, 34, 93], reject) == Parsed(V.Array([V.String(Utf8.Encode(v).value)]))
  {
    SpelledValue(h0, h1, h2, h3, v);
    Utf8.EncodedBits(v);
    hide Loaded, Spells, Utf8.Encode, EscapeValue;
    var u := Hex(h0, h1, h2, h3);
    HexDecodes(u, v);
    hide DecodeUnits;
    UnitLoads(u, [92, 117, h0, h1, h2, h3], Utf8.Encode(v).value, reject);
    Quoted(h0, h1, h2, h3);
  }

  lemma Quoted(h0: byte, h1: byte, h2: byte, h3: byte)
    ensures [91, 34] + [92, 117, h0, h1, h2, h3] + [34, 93] == [91, 34, 92, 117, h0, h1, h2, h3, 34, 93]
  {
  }

  lemma HexDecodes(u: Unit, v: int)
    requires u.Hex? && EscapeValue(u.h0, u.h1, u.h2, u.h3) == Some(v) && Utf8.Encode(v).Some?
    requires 0 < v && !(0xD800 <= v <= 0xDFFF)
    ensures DecodeUnits([u]) == Text(Utf8.Encode(v).value)
  {
    hide EscapeValue, Utf8.Encode;
    assert [u][1..] == [] && DecodeUnits([]) == Text([]);
    var e := Utf8.Encode(v).value;
    assert e + [] == e;
  }

  /** Two \u escapes, a high surrogate and a low one: the character of RFC 2781 section 2.2. */
  lemma PairLoads(h: seq<byte>, l: seq<byte>, high: int, low: int, reject: bool)
    requires |h| == 4 && |l| == 4 && Spells(h[0], h[1], h[2], h[3], high) && Spells(l[0], l[1], l[2], l[3], low)
    requires 0xD800 <= high <= 0xDBFF && 0xDC00 <= low <= 0xDFFF
    ensures var cp := 0x10000 + (high - 0xD800) * 0x400 + (low - 0xDC00);
            && Utf8.Encode(cp).Some?
            && Loaded([91, 34] + ([92, 117] + h + ([92, 117] + l)) + [34, 93], reject)
               == Parsed(V.Array([V.String(Utf8.Encode(cp).value)]))
  {
    var cp := 0x10000 + (high - 0xD800) * 0x400 + (low - 0xDC00);
    SpelledValue(h[0], h[1], h[2], h[3], high);
    SpelledValue(l[0], l[1], l[2], l[3], low);
    Utf8.EncodedBits(cp);
    hide Loaded, Spells, Utf8.Encode, EscapeValue, Digit;
    var u, v := Hex(h[0], h[1], h[2], h[3]), Hex(l[0], l[1], l[2], l[3]);
    PairDecodes(u, v, high, low);
    PairText(u, v, h, l);
    LiteralLoads([u, v], [92, 117] + h + ([92, 117] + l), Utf8.Encode(cp).value, reject);
  }

  lemma PairText(u: Unit, v: Unit, h: seq<byte>, l: seq<byte>)
    requires |h| == 4 && |l| == 4 && u == Hex(h[0], h[1], h[2], h[3]) && v == Hex(l[0], l[1], l[2], l[3])
    ensures UnitsOk([u, v]) && UnitsText([u, v]) == [92, 117] + h + ([92, 117] + l)
    ensures Ascii(h) && Ascii(l) ==> Ascii([92, 117] + h + ([92, 117] + l))
  {
    assert [u, v][1..] == [v] && [v][1..] == [];
    assert UnitsText([u, v]) == UnitText(u) + (UnitText(v) + UnitsText([]));
    assert UnitText(u) == [92, 117] + h && UnitText(v) == [92, 117] + l;
  }

  lemma PairDecodes(u: Unit, v: Unit, high: int, low: int)
    requires u.Hex? && EscapeValue(u.h0, u.h1, u.h2, u.h3) == Some(high) && 0xD800 <= high <= 0xDBFF
    requires v.Hex? && EscapeValue(v.h0, v.h1, v.h2, v.h3) == Some(low) && 0xDC00 <= low <= 0xDFFF
    requires Utf8.Encode(0x10000 + (high - 0xD800) * 0x400 + (low - 0xDC00)).Some?
    ensures DecodeUnits([u, v]) == Text(Utf8.Encode(0x10000 + (high - 0xD800) * 0x400 + (low - 0xDC00)).value)
  {
    hide EscapeValue, Utf8.Encode;
    assert [u, v][2..] == [] && DecodeUnits([]) == Text([]);
    var e := Utf8.Encode(0x10000 + (high - 0xD800) * 0x400 + (low - 0xDC00)).value;
    assert e + [] == e && Combine(high, low) == 0x10000 + (high - 0xD800) * 0x400 + (low - 0xDC00);
  }

  // -------------------------------------------------------------- refusals

  lemma FirstTokenBad(t: bytes, reject: bool)
    requires (forall i :: 0 <= i < |t| ==> t[i] < 0x80) && S.Scan(t, false).Bad?
    ensures Loaded([91] + t, reject) == Rejected
  {
    hide Loaded, S.Scan;
    OpenArray(t, reject);
  }

  /** No other byte of ASCII but u may follow a backslash. */
  lemma OtherEscapesRefused(b: byte, reject: bool)
    requires b < 0x80 && b != 34 && b != 92 && b != 47 && b != 98 && b != 102 && b != 110 && b != 114 && b != 116 && b != 117
    ensures Loaded([91, 34, 92, b, 34, 93], reject) == Rejected
  {
    var t := [34, 92, b, 34, 93];
    assert t[0..] == t && t[1..] == [92, b, 34, 93];
    assert S.Units(t[1..]).None?;
    hide Loaded, S.Units;
    FirstTokenBad(t, reject);
    assert [91] + t == [91, 34, 92, b, 34, 93];
  }

  /** No byte below 0x20 may stand in a string. */
  lemma ControlsRefused(b: byte, reject: bool)
    requires b < 0x20
    ensures Loaded([91, 34, b, 34, 93], reject) == Rejected
  {
    var t := [34, b, 34, 93];
    assert t[0..] == t && t[1..] == [b, 34, 93];
    assert S.Units(t[1..]).None?;
    hide Loaded, S.Units;
    FirstTokenBad(t, reject);
    assert [91] + t == [91, 34, b, 34, 93];
  }

  /** [01], [+1], [.5], [-], [1.] and [1e] are no texts. */
  lemma NumbersRefused(reject: bool)
    ensures Loaded([91, 48, 49, 93], reject) == Rejected && Loaded([91, 43, 49, 93], reject) == Rejected
    ensures Loaded([91, 46, 53, 93], reject) == Rejected && Loaded([91, 45, 93], reject) == Rejected
    ensures Loaded([91, 49, 46, 93], reject) == Rejected && Loaded([91, 49, 101, 93], reject) == Rejected
  {
    hide Loaded;
    BadNumber([48, 49, 93], reject);
    BadNumber([43, 49, 93], reject);
    BadNumber([46, 53, 93], reject);
    BadNumber([45, 93], reject);
    BadNumber([49, 46, 93], reject);
    BadNumber([49, 101, 93], reject);
    assert [91] + [48, 49, 93] == [91, 48, 49, 93] && [91] + [43, 49, 93] == [91, 43, 49, 93];
    assert [91] + [46, 53, 93] == [91, 46, 53, 93] && [91] + [45, 93] == [91, 45, 93];
    assert [91] + [49, 46, 93] == [91, 49, 46, 93] && [91] + [49, 101, 93] == [91, 49, 101, 93];
  }

  lemma BadNumber(t: bytes, reject: bool)
    requires t in {[48, 49, 93], [43, 49, 93], [46, 53, 93], [45, 93], [49, 46, 93], [49, 101, 93]}
    ensures Loaded([91] + t, reject) == Rejected
  {
    NoNumber(t);
    hide Loaded, S.Scan;
    FirstTokenBad(t, reject);
  }

  lemma NoNumber(t: bytes)
    requires t in {[48, 49, 93], [43, 49, 93], [46, 53, 93], [45, 93], [49, 46, 93], [49, 101, 93]}
    ensures S.Scan(t, false).Bad?
  {
    assert t[0..] == t;
    if t[0] == 49 {
      DigitThen(t);
    } else if t[0] == 45 {
      assert t[1..] == [93];
    }
    hide S.Digits;
  }

  lemma DigitThen(t: bytes)
    requires t == [49, 46, 93] || t == [49, 101, 93]
    ensures S.ScanNum(t).None?
  {
    assert t[1..] == [t[1], 93] && t[1..][1..] == [93];
    assert S.Digits(t) == 1 && S.Digits([93]) == 0;
    hide S.Digits;
  }

  // -------------------------------------------------------- numbers, brackets

  /** [-120] is an integer, [1.5] a real that keeps its text. */
  lemma NumbersLoad(reject: bool)
    ensures Loaded([91, 45, 49, 50, 48, 93], reject) == Parsed(V.Array([V.Integer(-120)]))
    ensures Loaded([91, 49, 46, 53, 93], reject) == Parsed(V.Array([V.Real([49, 46, 53])]))
  {
    hide Loaded;
    HundredTwenty();
    OneAndAHalf();
    var m, n := Num(true, [49, 50, 48], None, NoExponent), Num(false, [49], Some([53]), NoExponent);
    hide NumText, NumOk, NumFits, Decimal;
    OneLoads(Number(m), [45, 49, 50, 48], reject);
    OneLoads(Number(n), [49, 46, 53], reject);
    assert [91] + [45, 49, 50, 48] + [93] == [91, 45, 49, 50, 48, 93] && [91] + [49, 46, 53] + [93] == [91, 49, 46, 53, 93];
  }

  lemma HundredTwenty()
    ensures var n := Num(true, [49, 50, 48], None, NoExponent);
            NumText(n) == [45, 49, 50, 48] && NumOk(n) && NumFits(n) && IntValue(n) == -120
  {
    assert [49, 50, 48][..2] == [49, 50] && [49, 50][..1] == [49] && [49][..0] == [];
    assert Decimal([]) == 0 && Decimal([49]) == 1 && Decimal([49, 50]) == 12 && Decimal([49, 50, 48]) == 120;
  }

  lemma OneAndAHalf()
    ensures var n := Num(false, [49], Some([53]), NoExponent); NumText(n) == [49, 46, 53] && NumOk(n) && NumFits(n)
  {
    var n := Num(false, [49], Some([53]), NoExponent);
    assert [49] + [53] == [49, 53] && [49, 53][..1] == [49] && [49][..0] == [];
    assert Decimal([]) == 0 && Decimal([49]) == 1 && Decimal([49, 53]) == 15;
    PowMonotone(4, MAX_EXP - MANT_DIG - 1);
    HugeIsLarge();
    hide Huge;
    assert Pow(10, 1) == 10 * Pow(10, 0);
  }

  lemma HugeIsLarge()
    ensures Huge() >= 16
  {
    var k := MAX_EXP - MANT_DIG - 1;
    PowMonotone(4, k);
    PowMonotone(k + 1, MAX_EXP);
    assert Pow(2, k + 1) == 2 * Pow(2, k);
    assert Pow(2, 4) == 2 * Pow(2, 3) && Pow(2, 3) == 2 * Pow(2, 2) && Pow(2, 2) == 2 * Pow(2, 1) && Pow(2, 1) == 2 * Pow(2, 0);
  }

  /** Integers are loaded as themselves from -2^63 to 2^63 - 1 and refused beyond. */
  lemma IntegersLoad(n: Num, reject: bool)
    requires NumOk(n) && IsInteger(n)
    ensures Loaded([91] + NumText(n) + [93], reject) ==
            if -0x8000_0000_0000_0000 <= IntValue(n) <= 0x7FFF_FFFF_FFFF_FFFF then Parsed(V.Array([V.Integer(IntValue(n))])) else Rejected
  {
    NumberLoads(n, reject);
  }

  /** 2^1024 - 2^970, from which on reals are rounded up to 2^1024, which no double holds. */
  predicate BelowLimit(m: int, e: int) {
    if e >= 0 then m * Pow(10, e) < Pow(2, 1024) - Pow(2, 970) else m < (Pow(2, 1024) - Pow(2, 970)) * Pow(10, -e)
  }

  lemma LimitIs(m: int, e: int)
    ensures BelowLimit(m, e) <==> !Exceeds(m, e)
  {
    hide Pow;
  }

  /** Reals are loaded with their text if their decimal value is below the limit. */
  lemma RealsLoad(n: Num, reject: bool)
    requires NumOk(n) && !IsInteger(n)
    ensures var frac := if n.frac.Some? then n.frac.value else [];
            Loaded([91] + NumText(n) + [93], reject) ==
            if BelowLimit(Decimal(n.digits + frac), ExpValue(n.exp) - |frac|) then Parsed(V.Array([V.Real(NumText(n))])) else Rejected
  {
    RealFits(n);
    NumberLoads(n, reject);
    hide BelowLimit, Decimal, ExpValue, NumText, Loaded, NumOk, NumFits;
  }

  lemma RealFits(n: Num)
    requires !IsInteger(n)
    ensures var frac := if n.frac.Some? then n.frac.value else [];
            NumFits(n) <==> BelowLimit(Decimal(n.digits + frac), ExpValue(n.exp) - |frac|)
  {
    hide BelowLimit, Exceeds, Decimal, ExpValue;
    var frac := if n.frac.Some? then n.frac.value else [];
    LimitIs(Decimal(n.digits + frac), ExpValue(n.exp) - |frac|);
  }

  lemma NumberLoads(n: Num, reject: bool)
    requires NumOk(n)
    ensures Loaded([91] + NumText(n) + [93], reject) == if NumFits(n) then Parsed(V.Array([Meaning.LexValue(Number(n))])) else Rejected
  {
    hide NumOk, NumText, NumFits, Loaded, IntValue;
    var lex, data := Number(n), [91] + NumText(n) + [93];
    OneElementIs(lex);
    NumberAscii(n);
    R.AsciiGood(data);
    hide RenderDoc, DocShape, Meaning.GoodText, SynFaults, Meaning.ValueOf;
    GrammarJudged(data, reject, OneElement(lex));
  }

  lemma NumberAscii(n: Num)
    requires NumOk(n)
    ensures Ascii([91] + NumText(n) + [93])
  {
    assert Ascii(n.digits) && Ascii(FracText(n.frac)) && Ascii(ExpText(n.exp)) && Ascii(SignText(n.neg));
    hide Ascii, NumOk;
    Joins(FracText(n.frac), ExpText(n.exp));
    Joins(n.digits, FracText(n.frac) + ExpText(n.exp));
    Joins(SignText(n.neg), n.digits + (FracText(n.frac) + ExpText(n.exp)));
    assert Ascii([91]) && Ascii([93]) by {
      OneAscii(91);
      OneAscii(93);
    }
    Joins([91], NumText(n));
    Joins([91] + NumText(n), [93]);
  }

  lemma OneAscii(b: byte)
    requires 0 < b < 0x80
    ensures Ascii([b])
  {
  }

  predicate White(w: bytes) {
    forall i :: 0 <= i < |w| ==> w[i] == 32 || w[i] == 9 || w[i] == 10 || w[i] == 13
  }

  /** [] and {} with any white space between and around the brackets. */
  lemma BracketsLoad(before: bytes, w: bytes, after: bytes, reject: bool)
    requires White(before) && White(w) && White(after)
    ensures Loaded(before + ([91] + (w + [93]) + after), reject) == Parsed(V.Array([]))
    ensures Loaded(before + ([123] + (w + [125]) + after), reject) == Parsed(V.Object([]))
  {
    hide Loaded;
    var a, o := before + ([91] + (w + [93]) + after), before + ([123] + (w + [125]) + after);
    assert RenderDoc(Doc(before, EmptyArray(w), after)) == a && RenderDoc(Doc(before, EmptyObject(w), after)) == o;
    R.AsciiGood(a);
    R.AsciiGood(o);
    hide RenderDoc, Meaning.GoodText;
    GrammarJudged(a, reject, Doc(before, EmptyArray(w), after));
    GrammarJudged(o, reject, Doc(before, EmptyObject(w), after));
  }

  /** The document [true,false]. */
  function TwoWords(): Doc {
    Doc([], Syn.Array([], Leaf(Literal(Word.True)), Elem([], [], Leaf(Literal(Word.False)), EndArray([]))), [])
  }

  /** [true,false]. */
  lemma ArrayLoads(reject: bool)
    ensures Loaded([91, 116, 114, 117, 101, 44, 102, 97, 108, 115, 101, 93], reject) == Parsed(V.Array([V.True, V.False]))
  {
    hide Loaded;
    var data: bytes := [91, 116, 114, 117, 101, 44, 102, 97, 108, 115, 101, 93];
    TwoWordsText();
    TwoWordsAre(reject);
    AsciiValid(data);
    hide RenderDoc, DocShape, SynFaults, Utf8.ValidText, Meaning.ValueOf, TwoWords;
    GrammarJudged(data, reject, TwoWords());
  }

  lemma TwoWordsAre(reject: bool)
    ensures DocShape(TwoWords()) && SynFaults(TwoWords().top, reject) == []
    ensures Meaning.ValueOf(TwoWords().top) == V.Array([V.True, V.False])
  {
    var t, f := Leaf(Literal(Word.True)), Leaf(Literal(Word.False));
    var end := EndArray([]);
    var tail := Elem([], [], f, end);
    assert LexFaults(Literal(Word.True)) == [] && LexFaults(Literal(Word.False)) == [];
    assert ElemsShape(end) && SynFaults(t, reject) == [] && SynFaults(f, reject) == [] && ElemsFaults(end, reject) == [];
    assert ElemsFaults(tail, reject) == SynFaults(f, reject) + ElemsFaults(end, reject) == [];
    assert SynFaults(TwoWords().top, reject) == SynFaults(t, reject) + ElemsFaults(tail, reject);
    hide SynFaults, ElemsFaults;
    assert Meaning.ElemValues([V.True] + [V.False], end) == [V.True, V.False];
    assert Meaning.ElemValues([V.True], tail) == [V.True, V.False];
  }

  lemma TwoWordsText()
    ensures RenderDoc(TwoWords()) == [91, 116, 114, 117, 101, 44, 102, 97, 108, 115, 101, 93]
  {
    var f := Leaf(Literal(Word.False));
    var end := EndArray([]);
    assert Render(f) + RenderElems(end) == [102, 97, 108, 115, 101, 93];
    assert RenderElems(Elem([], [], f, end)) == [44, 102, 97, 108, 115, 101, 93];
  }

  // ----------------------------------------------------------------- objects

  /** The text of an object that has the key "a" twice: {"a":true,"a":false}. */
  const TWICE: bytes := [123] + ([34, 97, 34, 58] + [116, 114, 117, 101]) + [44] + ([34, 97, 34, 58] + [102, 97, 108, 115, 101]) + [125]

  /** The text {"a":true,"b":false}. */
  const BOTH: bytes := [123] + ([34, 97, 34, 58] + [116, 114, 117, 101]) + [44] + ([34, 98, 34, 58] + [102, 97, 108, 115, 101]) + [125]

  function OneMember(k: byte, w: Word): Member { Member([], [Raw(k)], [], [], Leaf(Literal(w))) }

  function TwoMembers(k: byte): Doc {
    Doc([], Syn.Object(OneMember(97, Word.True), More([], OneMember(k, Word.False), EndObject([]))), [])
  }

  lemma OneLetter(k: byte)
    requires 97 <= k <= 98
    ensures UnitsOk([Raw(k)]) && UnitsText([Raw(k)]) == [k] && KeyOf([Raw(k)]) == [k] && UnitFaults([Raw(k)]) == []
    ensures LexText(Str([Raw(k)])) == [34, k, 34]
  {
    DecodesOne(Raw(k));
    assert [Raw(k)][1..] == [] && UnitsText([Raw(k)]) == UnitText(Raw(k)) + UnitsText([]);
    assert UnitFaults([]) == [] && UnitsOk([]);
  }

  lemma OneMemberText(k: byte, w: Word)
    requires 97 <= k <= 98
    ensures RenderMember(OneMember(k, w)) == [34, k, 34, 58] + WordText(w)
  {
    OneLetter(k);
    hide UnitsText, WordText;
    var t := WordText(w);
    assert Render(Leaf(Literal(w))) == t;
    hide LexText, Render;
    assert [] + ([34, k, 34] + ([] + ([58] + ([] + t)))) == [34, k, 34, 58] + t;
  }

  lemma TwoMembersText(k: byte)
    requires 97 <= k <= 98
    ensures RenderDoc(TwoMembers(k)) == if k == 97 then TWICE else BOTH
  {
    OneMemberText(97, Word.True);
    OneMemberText(k, Word.False);
    var m, n := OneMember(97, Word.True), OneMember(k, Word.False);
    assert WordText(Word.True) == [116, 114, 117, 101] && WordText(Word.False) == [102, 97, 108, 115, 101];
    hide RenderMember, WordText, RenderDoc;
    TwoPairsText(m, n);
    assert TwoMembers(k) == Doc([], Syn.Object(m, More([], n, EndObject([]))), []);
    hide TwoMembers, OneMember;
  }

  lemma TwoPairsText(m: Member, n: Member)
    ensures RenderDoc(Doc([], Syn.Object(m, More([], n, EndObject([]))), [])) ==
            [123] + RenderMember(m) + [44] + RenderMember(n) + [125]
  {
    hide RenderMember;
    assert RenderMembers(EndObject([])) == [] + [125];
    assert RenderMembers(More([], n, EndObject([]))) == [] + ([44] + (RenderMember(n) + ([] + [125])));
    hide RenderMembers;
    TwoPairs(RenderMember(m), RenderMember(n));
  }

  lemma TwoPairs(m: bytes, n: bytes)
    ensures [] + (([123] + (m + ([] + ([44] + (n + ([] + [125])))))) + []) == [123] + m + [44] + n + [125]
  {
  }

  lemma TwoMembersMean(k: byte)
    requires 97 <= k <= 98
    ensures Meaning.ValueOf(TwoMembers(k).top) ==
            V.Object(if k == 97 then [V.Entry([97], 0, V.False)] else [V.Entry([97], 0, V.True), V.Entry([98], 1, V.False)])
  {
    OneLetter(97);
    OneLetter(k);
    hide KeyOf, UnitsOk, UnitFaults, V.Set;
    var m, n := OneMember(97, Word.True), OneMember(k, Word.False);
    TwoSet(k);
    var es := V.Set([], 0, [97], V.True);
    assert Meaning.ValueOf(m.value) == V.True && Meaning.ValueOf(n.value) == V.False;
    MembersMean(es, n, [k], V.False);
    assert Meaning.ValueOf(TwoMembers(k).top) == V.Object(Meaning.MemberValues(es, 1, More([], n, EndObject([]))));
    hide Meaning.ValueOf, Meaning.MemberValues, OneMember;
  }

  lemma MembersMean(es: seq<V.Entry>, n: Member, key: bytes, v: Value)
    requires KeyOf(n.key) == key && Meaning.ValueOf(n.value) == v
    ensures Meaning.MemberValues(es, 1, More([], n, EndObject([]))) == V.Set(es, 1, key, v)
  {
    hide KeyOf, V.Set, Meaning.ValueOf;
    assert Meaning.MemberValues(V.Set(es, 1, key, v), 2, EndObject([])) == V.Set(es, 1, key, v);
  }

  lemma TwoSet(k: byte)
    requires 97 <= k <= 98
    ensures V.Set(V.Set([], 0, [97], V.True), 1, [k], V.False) ==
            if k == 97 then [V.Entry([97], 0, V.False)] else [V.Entry([97], 0, V.True), V.Entry([98], 1, V.False)]
  {
    var es := V.Set([], 0, [97], V.True);
    assert es == [V.Entry([97], 0, V.True)] && es[1..] == [];
    assert k != 97 ==> [k] != [97] by {
      assert [k][0] == k;
    }
  }

  lemma TextsGood()
    ensures Utf8.ValidText(BOTH) && Utf8.ValidText(TWICE)
  {
    var t, f: bytes := [116, 114, 117, 101], [102, 97, 108, 115, 101];
    assert Ascii([123]) && Ascii([44]) && Ascii([125]) && Ascii([34, 97, 34, 58]) && Ascii([34, 98, 34, 58]) && Ascii(t) && Ascii(f);
    hide Ascii;
    Joins([34, 97, 34, 58], t);
    Joins([34, 97, 34, 58], f);
    Joins([34, 98, 34, 58], f);
    var m, n, o := [34, 97, 34, 58] + t, [34, 97, 34, 58] + f, [34, 98, 34, 58] + f;
    Joins([123], m);
    Joins([123] + m, [44]);
    Joins([123] + m + [44], n);
    Joins([123] + m + [44], o);
    Joins([123] + m + [44] + n, [125]);
    Joins([123] + m + [44] + o, [125]);
    AsciiValid(BOTH);
    AsciiValid(TWICE);
  }

  lemma TwoMembersJudged(k: byte, reject: bool)
    requires 97 <= k <= 98
    ensures DocShape(TwoMembers(k)) && SynFaults(TwoMembers(k).top, reject) == if reject && k == 97 then [RepeatedKey] else []
  {
    OneLetter(97);
    OneLetter(k);
    hide KeyOf, UnitsOk, UnitFaults;
    var m, n := OneMember(97, Word.True), OneMember(k, Word.False);
    var end := EndObject([]);
    assert MemberShape(m) && MemberShape(n) && MembersShape(end) && MembersShape(More([], n, end));
    assert MemberFaults(m, reject, {}) == [] && MembersFaults(end, reject, {[97]} + {[k]}) == [];
    assert MemberFaults(n, reject, {[97]}) == if reject && k == 97 then [RepeatedKey] else [];
  }

  /** Members keep their order. */
  lemma ObjectLoads(reject: bool)
    ensures Loaded(BOTH, reject) == Parsed(V.Object([V.Entry([97], 0, V.True), V.Entry([98], 1, V.False)]))
  {
    hide Loaded;
    TwoMembersText(98);
    TwoMembersJudged(98, reject);
    TwoMembersMean(98);
    TextsGood();
    hide RenderDoc, DocShape, SynFaults, Utf8.ValidText, Meaning.ValueOf, TwoMembers, BOTH, TWICE;
    GrammarJudged(BOTH, reject, TwoMembers(98));
  }

  /** A key that comes again keeps its place and takes the later value, unless
      JSON_REJECT_DUPLICATES makes it an error. */
  lemma RepeatedKeyLoads(reject: bool)
    ensures Loaded(TWICE, reject) == if reject then Rejected else Parsed(V.Object([V.Entry([97], 0, V.False)]))
  {
    hide Loaded;
    TwoMembersText(97);
    TwoMembersJudged(97, reject);
    TwoMembersMean(97);
    TextsGood();
    hide RenderDoc, DocShape, SynFaults, Utf8.ValidText, Meaning.ValueOf, TwoMembers, BOTH, TWICE;
    GrammarJudged(TWICE, reject, TwoMembers(97));
  }
}
