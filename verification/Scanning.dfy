/**
  What the lexer of load.c recognises, as functions on the bytes still to be read,
  and the proof that it is the lexical grammar, read by maximal munch.
 */
module Scanning {
  import opened Bytes
  import opened Grammar
  import Utf8

  /** Pushing a byte back: a NUL is lost, because it also marks an empty buffer. */
  function Unread(s: bytes): (r: bytes)
    ensures |r| <= |s|
    ensures 0 !in s ==> r == s
  {
    if s != [] && s[0] == 0 then s[1..] else s
  }

  function Spaces(s: bytes): (n: nat)
    ensures n <= |s| && AllSpace(s[..n]) && (n < |s| ==> !IsSpace(s[n]))
  {
    if s != [] && IsSpace(s[0]) then
      assert forall i :: 0 < i <= Spaces(s[1..]) ==> s[i] == s[1..][i-1];
      1 + Spaces(s[1..])
    else 0
  }

  function Digits(s: bytes): (n: nat)
    ensures n <= |s| && AllDigits(s[..n]) && (n < |s| ==> !IsDigit(s[n]))
  {
    if s != [] && IsDigit(s[0]) then 1 + Digits(s[1..]) else 0
  }

  function Alphas(s: bytes): (n: nat)
    ensures n <= |s| && (forall i :: 0 <= i < n ==> IsAlpha(s[i])) && (n < |s| ==> !IsAlpha(s[n]))
  {
    if s != [] && IsAlpha(s[0]) then 1 + Alphas(s[1..]) else 0
  }

  // ------------------------------------------------------------------ strings

  /** The first pass over a string literal, from just after its opening quote. */
  function Units(s: bytes): (r: Option<(seq<Unit>, bytes)>)
    ensures r.Some? ==> |r.value.1| < |s|
  {
    if s == [] then None
    else if s[0] == QUOTE then Some(([], s[1..]))
    else if s[0] < 0x20 then None
    else if s[0] == BACKSLASH then
      if |s| < 2 then None
      else if s[1] == 117 then
        if |s| < 6 then None else Consed(Hex(s[2], s[3], s[4], s[5]), Units(s[6..]))
      else if IsShort(s[1]) then Consed(Short(s[1]), Units(s[2..]))
      else None
    else Consed(Raw(s[0]), Units(s[1..]))
  }

  function Consed(u: Unit, r: Option<(seq<Unit>, bytes)>): Option<(seq<Unit>, bytes)> {
    match r
    case None => None
    case Some((us, rest)) => Some(([u] + us, rest))
  }

  /** One round of the first pass. */
  lemma UnitsStep(u: Unit, t: bytes)
    requires UnitOk(u)
    ensures Units(UnitText(u) + t) == Consed(u, Units(t))
  {
    var s := UnitText(u) + t;
    assert s[|UnitText(u)|..] == t;
  }

  lemma {:induction false} FirstUnit(s: bytes)
    requires Units(s).Some? && s[0] != QUOTE
    ensures var (us, rest) := Units(s).value;
            && us != [] && UnitOk(us[0]) && |UnitText(us[0])| <= |s| && UnitText(us[0]) == s[..|UnitText(us[0])|]
            && Units(s[|UnitText(us[0])|..]) == Some((us[1..], rest))
  {
    var u := if s[0] != BACKSLASH then Raw(s[0]) else if s[1] == 117 then Hex(s[2], s[3], s[4], s[5]) else Short(s[1]);
    var n := if s[0] != BACKSLASH then 1 else if s[1] == 117 then 6 else 2;
    assert UnitOk(u) && n <= |s| && Units(s) == Consed(u, Units(s[n..]));
    hide Units;
    if n == 6 {
      Six(s);
    }
    assert UnitText(u) == s[..n];
    IsConsed(s, u, n);
  }

  lemma Six<T>(s: seq<T>)
    requires |s| >= 6
    ensures s[..6] == [s[0], s[1], s[2], s[3], s[4], s[5]]
  {
  }

  lemma IsConsed(s: bytes, u: Unit, n: nat)
    requires n <= |s| && UnitText(u) == s[..n] && Units(s).Some? && Units(s) == Consed(u, Units(s[n..]))
    ensures var (us, rest) := Units(s).value;
            us != [] && us[0] == u && |UnitText(u)| == n && Units(s[n..]) == Some((us[1..], rest))
  {
    hide Units;
    var r := Units(s[n..]);
    var us := Units(s).value.0;
    assert us == [u] + r.value.0 && us[1..] == r.value.0;
  }

  lemma {:induction false} UnitsSound(s: bytes)
    requires Units(s).Some?
    ensures var (us, rest) := Units(s).value; UnitsOk(us) && UnitsText(us) + [QUOTE] + rest == s
    decreases |s|
  {
    hide UnitText;
    var (us, rest) := Units(s).value;
    if s[0] == QUOTE {
      assert us == [] && s == [QUOTE] + rest;
    } else {
      FirstUnit(s);
      hide Units;
      var n := |UnitText(us[0])|;
      UnitsSound(s[n..]);
      assert UnitsOk(us);
      hide UnitsOk;
      assert s == s[..n] + s[n..];
      assert UnitsText(us) + [QUOTE] + rest == UnitText(us[0]) + (UnitsText(us[1..]) + [QUOTE] + rest);
    }
  }

  lemma {:induction false} UnitsComplete(us: seq<Unit>, rest: bytes)
    requires UnitsOk(us)
    ensures Units(UnitsText(us) + [QUOTE] + rest) == Some((us, rest))
  {
    var s := UnitsText(us) + [QUOTE] + rest;
    if us == [] {
      assert s == [QUOTE] + rest;
    } else {
      hide Units, UnitText;
      UnitsComplete(us[1..], rest);
      var t := UnitsText(us[1..]) + [QUOTE] + rest;
      UnitsStep(us[0], t);
      assert s == UnitText(us[0]) + t && us == [us[0]] + us[1..];
    }
  }

  // ------------------------------------------------------------------ numbers

  function ScanInt(s: bytes): Option<(bytes, bytes)> {
    if s == [] || !IsDigit(s[0]) then None
    else if s[0] == 48 then
      if |s| > 1 && IsDigit(s[1]) then None else Some((s[..1], s[1..]))
    else Some((s[..Digits(s)], s[Digits(s)..]))
  }

  function ScanFrac(s: bytes): Option<(Option<bytes>, bytes)> {
    if s == [] || s[0] != 46 then Some((None, s))
    else
      var n := Digits(s[1..]);
      if n == 0 then None else Some((Some(s[1..][..n]), s[1..][n..]))
  }

  function ScanExp(s: bytes): Option<(Exponent, bytes)> {
    if s == [] || (s[0] != 69 && s[0] != 101) then Some((NoExponent, s))
    else
      var k := if |s| > 1 && (s[1] == 43 || s[1] == MINUS) then 2 else 1;
      var n := Digits(s[k..]);
      if n == 0 then None else Some((Exponent(s[0], s[1..k], s[k..][..n]), s[k..][n..]))
  }

  /** lex_scan_number, from the number's first byte. */
  function ScanNum(s: bytes): Option<(Num, bytes)> {
    var neg := s != [] && s[0] == MINUS;
    match ScanInt(if neg then s[1..] else s)
    case None => None
    case Some((digits, s1)) =>
      match ScanFrac(s1)
      case None => None
      case Some((frac, s2)) =>
        match ScanExp(s2)
        case None => None
        case Some((exp, rest)) => Some((Num(neg, digits, frac, exp), rest))
  }

  /** Nothing after a number may prolong it. */
  predicate EndsNumber(s: bytes) {
    s == [] || (!IsDigit(s[0]) && s[0] != 46 && s[0] != 69 && s[0] != 101)
  }

  lemma ScanIntSound(s: bytes)
    requires ScanInt(s).Some?
    ensures var (d, rest) := ScanInt(s).value;
            d + rest == s && d != [] && AllDigits(d) && (d[0] == 48 ==> |d| == 1) && (rest != [] ==> !IsDigit(rest[0]))
  {
  }

  lemma ScanFracSound(s: bytes)
    requires ScanFrac(s).Some?
    ensures var (f, rest) := ScanFrac(s).value;
            FracText(f) + rest == s && (f.Some? ==> f.value != [] && AllDigits(f.value))
  {
    var (f, rest) := ScanFrac(s).value;
    if f.Some? {
      assert s == [s[0]] + (f.value + rest);
    }
  }

  lemma ScanExpSound(s: bytes)
    requires ScanExp(s).Some?
    ensures var (e, rest) := ScanExp(s).value; ExpText(e) + rest == s && ExpOk(e)
  {
    hide Digits;
    var (e, rest) := ScanExp(s).value;
    if e.Exponent? {
      var k := 1 + |e.sign|;
      assert s[k..] == e.digits + rest && s[1..] == e.sign + s[k..];
      assert s == [e.mark] + (e.sign + (e.digits + rest));
      ExpRegroup(e, rest);
    }
  }

  lemma ExpRegroup(e: Exponent, rest: bytes)
    requires e.Exponent?
    ensures ExpText(e) + rest == [e.mark] + (e.sign + (e.digits + rest))
  {
  }

  lemma Regroup(a: bytes, b: bytes, c: bytes, d: bytes, rest: bytes)
    ensures a + (b + (c + d)) + rest == a + (b + (c + (d + rest)))
  {
  }

  lemma ScanNumSound(s: bytes)
    requires ScanNum(s).Some?
    ensures var (n, rest) := ScanNum(s).value; NumOk(n) && NumText(n) + rest == s
  {
    var neg := s != [] && s[0] == MINUS;
    var s0 := if neg then s[1..] else s;
    var (n, rest) := ScanNum(s).value;
    var (_, s1) := ScanInt(s0).value;
    var (_, s2) := ScanFrac(s1).value;
    ScanIntSound(s0);
    ScanFracSound(s1);
    ScanExpSound(s2);
    hide ScanInt, ScanFrac, ScanExp, FracText, ExpText, AllDigits, ExpOk;
    Regroup(SignText(neg), n.digits, FracText(n.frac), ExpText(n.exp), rest);
  }

  lemma {:induction false} DigitsComplete(d: bytes, rest: bytes)
    requires AllDigits(d) && (rest != [] ==> !IsDigit(rest[0]))
    ensures Digits(d + rest) == |d|
  {
    if d == [] {
      assert d + rest == rest;
    } else {
      assert IsDigit(d[0]) && forall i :: 0 <= i < |d| - 1 ==> d[1..][i] == d[i+1];
      DigitsComplete(d[1..], rest);
      assert (d + rest)[1..] == d[1..] + rest;
    }
  }

  lemma ScanExpComplete(e: Exponent, rest: bytes)
    requires ExpOk(e) && EndsNumber(rest)
    ensures ScanExp(ExpText(e) + rest) == Some((e, rest))
  {
    hide Digits;
    var s := ExpText(e) + rest;
    if e.Exponent? {
      var k := 1 + |e.sign|;
      assert IsDigit(e.digits[0]);
      DigitsComplete(e.digits, rest);
      ExpRegroup(e, rest);
      var t := e.sign + (e.digits + rest);
      assert s == [e.mark] + t && s[1..] == t;
      assert s[k..] == t[k-1..] == e.digits + rest && s[1..k] == t[..k-1] == e.sign;
      assert s[1] == t[0] && (e.sign == [] ==> t[0] == e.digits[0]);
      ScanExpParts(s, e, rest);
    } else {
      assert s == rest;
    }
  }

  lemma ScanExpParts(s: bytes, e: Exponent, rest: bytes)
    requires ExpOk(e) && e.Exponent? && |s| > 1 + |e.sign| && s[0] == e.mark
    requires s[1..1+|e.sign|] == e.sign && s[1+|e.sign|..] == e.digits + rest && (e.sign == [] ==> s[1] == e.digits[0])
    requires Digits(e.digits + rest) == |e.digits| && IsDigit(e.digits[0])
    ensures ScanExp(s) == Some((e, rest))
  {
    hide Digits;
    assert (e.digits + rest)[..|e.digits|] == e.digits && (e.digits + rest)[|e.digits|..] == rest;
    assert e.sign != [] ==> s[1] == s[1..1+|e.sign|][0];
  }

  lemma ScanFracComplete(f: Option<bytes>, rest: bytes)
    requires (f.Some? ==> f.value != [] && AllDigits(f.value)) && (rest != [] ==> !IsDigit(rest[0]) && rest[0] != 46)
    ensures ScanFrac(FracText(f) + rest) == Some((f, rest))
  {
    var s := FracText(f) + rest;
    if f.Some? {
      assert s[1..] == f.value + rest;
      DigitsComplete(f.value, rest);
    } else {
      assert s == rest;
    }
  }

  lemma ScanIntComplete(d: bytes, rest: bytes)
    requires d != [] && AllDigits(d) && (d[0] == 48 ==> |d| == 1) && (rest != [] ==> !IsDigit(rest[0]))
    ensures ScanInt(d + rest) == Some((d, rest))
  {
    var s := d + rest;
    assert s[0] == d[0] && IsDigit(d[0]);
    DigitsComplete(d, rest);
    assert s[..|d|] == d && s[|d|..] == rest;
    assert |d| == 1 && |s| > 1 ==> s[1] == rest[0];
  }

  lemma ScanNumComplete(n: Num, rest: bytes)
    requires NumOk(n) && EndsNumber(rest)
    ensures ScanNum(NumText(n) + rest) == Some((n, rest))
  {
    hide ScanInt, ScanFrac, ScanExp, Digits;
    var s2 := ExpText(n.exp) + rest;
    var s1 := FracText(n.frac) + s2;
    var s0 := n.digits + s1;
    ScanExpComplete(n.exp, rest);
    ScanFracComplete(n.frac, s2);
    ScanIntComplete(n.digits, s1);
    Regroup(SignText(n.neg), n.digits, FracText(n.frac), ExpText(n.exp), rest);
    assert IsDigit(n.digits[0]) && s0[0] == n.digits[0];
    if n.neg {
      assert (SignText(true) + s0)[1..] == s0;
    } else {
      assert SignText(false) + s0 == s0;
    }
  }

  // ------------------------------------------------------------------- tokens

  /** One call of lex_scan: the white space skipped, the lexeme and the bytes left. */
  datatype Scanned = Tok(w: bytes, lex: Lexeme, rest: bytes) | AtEnd | Bad | Aborts

  function ScanString(w: bytes, t: bytes): Scanned {
    match Units(t)
    case None => Bad
    case Some((us, rest)) =>
      match DecodeUnits(us)
      case Text(_) => Tok(w, Str(us), rest)
      case Invalid => Bad
      case Aborts => Scanned.Aborts
  }

  function ScanNumber(w: bytes, t: bytes): Scanned {
    match ScanNum(t)
    case None => Bad
    case Some((n, rest)) =>
      if NumFits(n) then Tok(w, Number(n), Unread(rest)) else Bad
  }

  function ScanWord(w: bytes, t: bytes): Scanned {
    var n := Alphas(t);
    var rest := Unread(t[n..]);
    if t[..n] == WordText(True) then Tok(w, Literal(True), rest)
    else if t[..n] == WordText(False) then Tok(w, Literal(False), rest)
    else if t[..n] == WordText(Null) then Tok(w, Literal(Null), rest)
    else Bad
  }

  function ScanToken(w: bytes, t: bytes): Scanned
    requires t != []
  {
    if IsPunct(t[0]) then Tok(w, Punct(t[0]), t[1..])
    else if t[0] == QUOTE then ScanString(w, t[1..])
    else if IsDigit(t[0]) || t[0] == MINUS then ScanNumber(w, t)
    else if IsAlpha(t[0]) then ScanWord(w, t)
    else Bad
  }

  /** lex_scan on the bytes still deliverable; `broken` says that invalid UTF-8 comes after them. */
  function Scan(s: bytes, broken: bool): Scanned {
    var k := Spaces(s);
    if k == |s| then if broken then Bad else AtEnd
    else ScanToken(s[..k], s[k..])
  }

  /** What is said of each kind of token that is read from a nonempty text. */
  predicate Sound(w: bytes, t: bytes, r: Scanned) {
    r.Tok? ==> && r.w == w && LexOk(r.lex) && |r.rest| < |t|
               && (0 !in t ==> LexText(r.lex) + r.rest == t)
  }

  lemma ScanStringSound(w: bytes, t: bytes)
    requires t != [] && t[0] == QUOTE
    ensures Sound(w, t, ScanString(w, t[1..]))
  {
    hide DecodeUnits, Units;
    if Units(t[1..]).Some? {
      UnitsSound(t[1..]);
      var (us, rest) := Units(t[1..]).value;
      assert t == [QUOTE] + (UnitsText(us) + [QUOTE] + rest);
    }
  }

  lemma ScanNumberSound(w: bytes, t: bytes)
    requires t != []
    ensures Sound(w, t, ScanNumber(w, t))
  {
    hide ScanNum, NumOk, NumText, NumFits;
    if ScanNum(t).Some? {
      ScanNumSound(t);
      var (n, rest) := ScanNum(t).value;
      NumTextNonempty(n);
      assert 0 !in t ==> 0 !in rest;
    }
  }

  lemma ScanWordSound(w: bytes, t: bytes)
    requires t != [] && IsAlpha(t[0])
    ensures Sound(w, t, ScanWord(w, t))
  {
    hide WordText;
    var n := Alphas(t);
    assert t == t[..n] + t[n..] && n > 0;
    assert 0 !in t ==> 0 !in t[n..];
  }

  lemma ScanTokenSound(w: bytes, t: bytes)
    requires t != []
    ensures Sound(w, t, ScanToken(w, t))
  {
    hide ScanString, ScanNumber, ScanWord;
    if IsPunct(t[0]) {
      assert t == [t[0]] + t[1..];
    } else if t[0] == QUOTE {
      ScanStringSound(w, t);
    } else if IsDigit(t[0]) || t[0] == MINUS {
      ScanNumberSound(w, t);
    } else if IsAlpha(t[0]) {
      ScanWordSound(w, t);
    }
  }

  lemma NumTextNonempty(n: Num)
    requires NumOk(n)
    ensures |NumText(n)| > 0
    ensures NumText(n)[0] == if n.neg then MINUS else n.digits[0]
  {
  }

  /** Every token lex_scan reports is well-formed, and on NUL-free input it is the text
      that was read. */
  lemma ScanSound(s: bytes, broken: bool)
    requires Scan(s, broken).Tok?
    ensures var tok := Scan(s, broken);
            && AllSpace(tok.w) && LexOk(tok.lex) && |tok.rest| < |s|
            && (0 !in s ==> tok.w + (LexText(tok.lex) + tok.rest) == s)
  {
    hide ScanToken, LexText, LexOk;
    var k := Spaces(s);
    ScanTokenSound(s[..k], s[k..]);
    assert s == s[..k] + s[k..];
  }

  /** What may follow a lexeme without being read as part of it, or lost. */
  predicate Ends(lex: Lexeme, rest: bytes) {
    && (lex.Number? ==> EndsNumber(rest) && (rest != [] ==> rest[0] != 0))
    && (lex.Literal? && rest != [] ==> !IsAlpha(rest[0]) && rest[0] != 0)
  }

  lemma {:induction false} SpacesComplete(w: bytes, t: bytes)
    requires AllSpace(w) && (t != [] ==> !IsSpace(t[0]))
    ensures Spaces(w + t) == |w|
  {
    if w == [] {
      assert w + t == t;
    } else {
      assert IsSpace(w[0]) && forall i :: 0 <= i < |w| - 1 ==> w[1..][i] == w[i+1];
      SpacesComplete(w[1..], t);
      assert (w + t)[1..] == w[1..] + t;
    }
  }

  lemma {:induction false} AlphasComplete(a: bytes, rest: bytes)
    requires (forall i :: 0 <= i < |a| ==> IsAlpha(a[i])) && (rest != [] ==> !IsAlpha(rest[0]))
    ensures Alphas(a + rest) == |a|
  {
    if a == [] {
      assert a + rest == rest;
    } else {
      assert forall i :: 0 <= i < |a| - 1 ==> a[1..][i] == a[i+1];
      AlphasComplete(a[1..], rest);
      assert (a + rest)[1..] == a[1..] + rest;
    }
  }

  lemma WordComplete(w: bytes, word: Word, rest: bytes)
    requires Ends(Literal(word), rest)
    ensures ScanToken(w, WordText(word) + rest) == Tok(w, Literal(word), rest)
  {
    var a := WordText(word);
    AlphasComplete(a, rest);
    assert (a + rest)[..|a|] == a && (a + rest)[|a|..] == rest;
    assert (a + rest)[0] == a[0];
  }

  /** How a token with these faults is received. */
  function Graded(fs: seq<Fault>, tok: Scanned): Scanned {
    if fs == [] then tok else if fs[0] == NoDigit then Scanned.Aborts else Bad
  }

  lemma StringComplete(w: bytes, us: seq<Unit>, rest: bytes)
    requires UnitsOk(us)
    ensures ScanToken(w, LexText(Str(us)) + rest) == Graded(UnitFaults(us), Tok(w, Str(us), rest))
  {
    hide DecodeUnits, Units, UnitFaults, UnitsText;
    FirstFault(us);
    var u := UnitsText(us) + [QUOTE] + rest;
    UnitsComplete(us, rest);
    assert LexText(Str(us)) + rest == [QUOTE] + u;
    hide LexText, UnitsOk;
    assert ([QUOTE] + u)[1..] == u;
  }

  lemma NumberComplete(w: bytes, n: Num, rest: bytes)
    requires NumOk(n) && Ends(Number(n), rest)
    ensures ScanToken(w, NumText(n) + rest) == Graded(LexFaults(Number(n)), Tok(w, Number(n), rest))
  {
    hide ScanNum, NumText, NumFits, EndsNumber;
    ScanNumComplete(n, rest);
    NumTextNonempty(n);
    assert (NumText(n) + rest)[0] == NumText(n)[0] && IsDigit(n.digits[0]);
  }

  lemma ScanTokenComplete(w: bytes, lex: Lexeme, rest: bytes)
    requires LexShape(lex) && Ends(lex, rest)
    ensures ScanToken(w, LexText(lex) + rest) == Graded(LexFaults(lex), Tok(w, lex, rest))
  {
    match lex
    case Punct(b) =>
    case Str(us) => StringComplete(w, us, rest);
    case Number(n) => NumberComplete(w, n, rest);
    case Literal(word) => WordComplete(w, word, rest);
  }

  /** Every lexeme of the grammar, after any white space, is read back as it is, or refused
      for its first fault. */
  lemma ScanComplete(w: bytes, lex: Lexeme, rest: bytes, broken: bool)
    requires AllSpace(w) && LexShape(lex) && Ends(lex, rest)
    ensures Scan(w + (LexText(lex) + rest), broken) == Graded(LexFaults(lex), Tok(w, lex, rest))
  {
    hide LexFaults;
    var t := LexText(lex) + rest;
    if lex.Number? {
      NumTextNonempty(lex.num);
      assert IsDigit(lex.num.digits[0]);
    }
    assert t != [] && !IsSpace(t[0]);
    SpacesComplete(w, t);
    assert (w + t)[..|w|] == w && (w + t)[|w|..] == t;
    ScanTokenComplete(w, lex, rest);
  }
}
