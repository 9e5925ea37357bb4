/**
  The lexical analyzer of load.c: an object over the byte stream, with the text saved
  so far and the current token. Every method does to the stream what the functions of
  module Scanning say about the bytes still to be read.
 */
module Lexing {
  import opened Bytes
  import opened Grammar
  import opened Scanning
  import opened ByteStream
  import Utf8

  /** The token field and its value; Crashed is a failed assertion of the C code. */
  datatype Token =
    | Mark(b: byte)
    | String(text: bytes)
    | Integer(n: int)
    | Real(text: bytes)
    | Word(word: Grammar.Word)
    | EndOfInput
    | Invalid
    | Crashed

  /** The token a scan amounts to. */
  function TokenOf(r: Scanned): Token {
    match r
    case Tok(_, lex, _) => LexToken(lex)
    case AtEnd => EndOfInput
    case Bad => Token.Invalid
    case Aborts => Crashed
  }

  function LexToken(lex: Lexeme): Token {
    match lex
    case Punct(b) => Mark(b)
    case Str(us) => String(KeyOf(us))
    case Number(n) => if IsInteger(n) then Integer(IntValue(n)) else Real(NumText(n))
    case Literal(w) => Word(w)
  }

  predicate DigitChar(c: int) { 48 <= c <= 57 }

  predicate AlphaChar(c: int) { 65 <= c <= 90 || 97 <= c <= 122 }

  predicate SpaceChar(c: int) { c == 32 || c == 9 || c == 10 || c == 13 }

  /** The C macros on a signed char agree with the byte classes. */
  lemma CharClasses(b: byte)
    ensures DigitChar(AsChar(b)) <==> IsDigit(b)
    ensures AlphaChar(AsChar(b)) <==> IsAlpha(b)
    ensures SpaceChar(AsChar(b)) <==> IsSpace(b)
  {
  }

  /** strtoll on an optional minus sign and digits, before the range check. */
  function StrToInt(s: bytes): int {
    if s != [] && s[0] == MINUS then -Decimal(s[1..]) else Decimal(s)
  }

  lemma StrToIntIs(n: Num)
    requires NumOk(n) && IsInteger(n)
    ensures StrToInt(NumText(n)) == IntValue(n)
  {
    assert n.digits + ([] + []) == n.digits;
    assert NumText(n) == SignText(n.neg) + n.digits;
    if n.neg {
      assert NumText(n)[1..] == n.digits;
    } else {
      assert NumText(n) == n.digits && IsDigit(n.digits[0]);
    }
  }

  /** Whether strtod overflows on the text of a number. */
  predicate StrToDOverflows(s: bytes) {
    ScanNum(s).Some? && Overflows(ScanNum(s).value.0)
  }

  /** The text t has k more bytes read from it. */
  lemma Advanced(t: bytes, k: nat, text: bytes)
    requires k < |t|
    ensures t[k..] == [t[k]] + t[k+1..] && text + t[..k] + [t[k]] == text + t[..k+1]
  {
  }

  lemma DigitsStep(t: bytes, k: nat)
    requires k <= |t| && k <= Digits(t)
    ensures Digits(t[k..]) == Digits(t) - k
    ensures k < Digits(t) <==> k < |t| && IsDigit(t[k])
  {
    if k > 0 {
      DigitsStep(t[1..], k - 1);
      assert t[1..][k-1..] == t[k..];
    } else {
      assert t[0..] == t;
    }
  }

  lemma AlphasStep(t: bytes, k: nat)
    requires k <= |t| && k <= Alphas(t)
    ensures Alphas(t[k..]) == Alphas(t) - k
    ensures k < Alphas(t) <==> k < |t| && IsAlpha(t[k])
  {
    if k > 0 {
      AlphasStep(t[1..], k - 1);
      assert t[1..][k-1..] == t[k..];
    } else {
      assert t[0..] == t;
    }
  }

  lemma SpacesStep(t: bytes, k: nat)
    requires k <= |t| && k <= Spaces(t)
    ensures Spaces(t[k..]) == Spaces(t) - k
    ensures k < Spaces(t) <==> k < |t| && IsSpace(t[k])
  {
    if k > 0 {
      SpacesStep(t[1..], k - 1);
      assert t[1..][k-1..] == t[k..];
    } else {
      assert t[0..] == t;
    }
  }

  /** A number put together from its parts. */
  lemma NumParts(t: bytes, digits: bytes, s1: bytes, frac: Option<bytes>, s2: bytes, exp: Exponent, rest: bytes)
    requires var neg := t != [] && t[0] == MINUS; ScanInt(if neg then t[1..] else t) == Some((digits, s1))
    requires ScanFrac(s1) == Some((frac, s2)) && ScanExp(s2) == Some((exp, rest))
    ensures var neg := t != [] && t[0] == MINUS;
            var n := Num(neg, digits, frac, exp);
            && ScanNum(t) == Some((n, rest)) && NumOk(n)
            && SignText(neg) + digits + FracText(frac) + ExpText(exp) == NumText(n)
            && (IsInteger(n) ==> SignText(neg) + digits == NumText(n) && StrToInt(NumText(n)) == IntValue(n))
            && StrToDOverflows(NumText(n)) == Overflows(n)
  {
    hide ScanInt, ScanFrac, ScanExp, Overflows;
    hide NumOk;
    var neg := t != [] && t[0] == MINUS;
    var n := Num(neg, digits, frac, exp);
    ScanNumSound(t);
    ScanNumComplete(n, []);
    assert NumText(n) + [] == NumText(n);
    LeftNested(SignText(neg), digits, FracText(frac), ExpText(exp));
    if IsInteger(n) {
      StrToIntIs(n);
      assert digits + ([] + []) == digits;
    }
  }

  lemma NoNum(t: bytes, digits: bytes, s1: bytes)
    requires var neg := t != [] && t[0] == MINUS; ScanInt(if neg then t[1..] else t) == Some((digits, s1))
    ensures ScanFrac(s1).None? ==> ScanNum(t).None?
    ensures ScanFrac(s1).Some? && ScanExp(ScanFrac(s1).value.1).None? ==> ScanNum(t).None?
  {
    hide ScanInt, ScanFrac, ScanExp;
  }

  lemma LeftNested(a: bytes, b: bytes, c: bytes, d: bytes)
    ensures a + b + c + d == a + (b + (c + d))
  {
  }

  /** Where no fraction and no exponent follow, the number is an integer. */
  lemma NoMore(s: bytes)
    ensures (s != [] ==> s[0] != 46) ==> ScanFrac(s) == Some((None, s))
    ensures (s != [] ==> s[0] != 69 && s[0] != 101) ==> ScanExp(s) == Some((NoExponent, s))
  {
  }

  lemma NothingThere(text: bytes)
    ensures text + FracText(None) == text && text + ExpText(NoExponent) == text
  {
  }

  /** An exponent's digits start after its sign, if it has one. */
  lemma ExpScanned(t: bytes, k: nat)
    requires |t| > 0 && (t[0] == 69 || t[0] == 101)
    requires k == if |t| > 1 && (t[1] == 43 || t[1] == MINUS) then 2 else 1
    ensures var n := Digits(t[k..]);
            ScanExp(t) == if n == 0 then None else Some((Exponent(t[0], t[1..k], t[k..][..n]), t[k..][n..]))
  {
  }

  function Appended(acc: seq<Unit>, r: Option<(seq<Unit>, bytes)>): Option<(seq<Unit>, bytes)> {
    match r
    case None => None
    case Some((us, rest)) => Some((acc + us, rest))
  }

  lemma AppendedMore(acc: seq<Unit>, u: Unit, r: Option<(seq<Unit>, bytes)>)
    ensures Appended(acc, Consed(u, r)) == Appended(acc + [u], r)
    ensures UnitsText(acc + [u]) == UnitsText(acc) + UnitText(u)
  {
    if r.Some? {
      assert acc + ([u] + r.value.0) == (acc + [u]) + r.value.0;
    }
    UnitsTextConcat(acc, [u]);
    assert [u][1..] == [] && UnitText(u) + [] == UnitText(u);
  }

  lemma AtStart(t: bytes)
    ensures Units(t) == Appended([], Units(t)) && [QUOTE] + UnitsText([]) == [QUOTE]
  {
    if Units(t).Some? {
      assert [] + Units(t).value.0 == Units(t).value.0;
    }
  }

  lemma FirstByte(s: bytes)
    ensures s == [] ==> Units(s).None?
    ensures s != [] ==> UnitText(Raw(s[0])) == [s[0]]
    ensures s != [] && s[0] == QUOTE ==> Units(s) == Some(([], s[1..]))
    ensures s != [] && s[0] != QUOTE && s[0] < 0x20 ==> Units(s).None?
    ensures s != [] && s[0] != QUOTE && s[0] >= 0x20 && s[0] != BACKSLASH ==> Units(s) == Consed(Raw(s[0]), Units(s[1..]))
  {
  }

  lemma EscapedHex(s: bytes)
    requires |s| >= 2 && s[0] == BACKSLASH && s[1] == 117
    ensures |s| < 6 ==> Units(s).None? && Units([]).None?
    ensures |s| >= 6 ==> Units(s) == Consed(Hex(s[2], s[3], s[4], s[5]), Units(s[6..]))
    ensures |s| >= 6 ==> UnitText(Hex(s[2], s[3], s[4], s[5])) == [BACKSLASH] + ([117] + s[2..][..4])
    ensures |s| >= 6 ==> UnitOk(Hex(s[2], s[3], s[4], s[5]))
  {
  }

  lemma EscapedShort(s: bytes)
    requires |s| >= 2 && s[0] == BACKSLASH && IsShort(s[1])
    ensures Units(s) == Consed(Short(s[1]), Units(s[2..]))
    ensures UnitOk(Short(s[1])) && UnitText(Short(s[1])) == [BACKSLASH] + [s[1]]
  {
  }

  lemma EscapedOther(s: bytes)
    requires |s| >= 1 && s[0] == BACKSLASH && (|s| > 1 ==> s[1] != 117 && !IsShort(s[1]))
    ensures Units(s).None?
  {
  }

  lemma ExpJoined(text: bytes, t: bytes, k: nat, digits: bytes)
    requires 1 <= k <= |t|
    ensures text + t[..k] + digits == text + ExpText(Exponent(t[0], t[1..k], digits))
  {
    assert t[..k] == [t[0]] + t[1..k];
  }

  /** White space before a token makes no difference to the token. */
  lemma AnySpace(w: bytes, t: bytes)
    requires t != []
    ensures TokenOf(ScanToken(w, t)) == TokenOf(ScanToken([], t))
    ensures ScanToken(w, t).Tok? <==> ScanToken([], t).Tok?
    ensures ScanToken(w, t).Tok? ==> ScanToken(w, t).rest == ScanToken([], t).rest
  {
  }

  class Lexer {
    const stream: Stream
    var saved: bytes
    var token: Token

    constructor (data: bytes)
      ensures stream.Valid() && fresh(stream) && fresh(stream.buffer)
      ensures stream.data == data && stream.rest == Utf8.Deliverable(data)
    {
      var s := new Stream(data);
      stream := s;
      saved := [];
      token := Token.Invalid;
    }

    /** The stream is in order, c was just read, and these bytes lie ahead. */
    ghost predicate At(c: int, ahead: bytes)
      reads stream, stream.buffer
    {
      stream.Valid() && stream.Last(c) && stream.Ahead(c) == ahead
    }

    lemma InHand(c: int, ahead: bytes)
      requires At(c, ahead)
      ensures IsEnd(c) <==> ahead == []
      ensures ahead != [] ==> c == AsChar(ahead[0]) && AsByte(c) == ahead[0]
    {
      hide Stream.Valid;
    }

    /** The character in hand is the one at position k of the text. */
    lemma Here(c: int, t: bytes, k: nat)
      requires k <= |t| && At(c, t[k..])
      ensures IsEnd(c) <==> k == |t|
      ensures k < |t| ==> AsByte(c) == t[k]
      ensures DigitChar(c) <==> k < |t| && IsDigit(t[k])
      ensures AlphaChar(c) <==> k < |t| && IsAlpha(t[k])
      ensures SpaceChar(c) <==> k < |t| && IsSpace(t[k])
    {
      InHand(c, t[k..]);
      if k < |t| {
        CharClasses(t[k]);
      }
    }

    /** The token and the bytes left are what this scan says. */
    ghost predicate Scanned(r: Scanning.Scanned)
      reads this`token, stream, stream.buffer
    {
      stream.Valid() && token == TokenOf(r) && (r.Tok? ==> stream.rest == r.rest)
    }

    /** After a token of a NUL-free source, position, line and column are those of its end. */
    lemma TokenEnd(r: Scanning.Scanned)
      requires Scanned(r) && r.Tok? && 0 !in stream.data
      ensures var source := Utf8.Deliverable(stream.data);
              && stream.position == |source| - |r.rest| && source[stream.position..] == r.rest
              && stream.line == 1 + Newlines(source[..stream.position])
              && stream.column == Column(source[..stream.position])
    {
      hide Stream.Valid;
      stream.Bookkeeping();
    }

    method GetSave() returns (c: int)
      requires stream.Valid()
      modifies this`saved, stream, stream.buffer
      ensures At(c, old(stream.rest))
      ensures IsEnd(c) <==> old(stream.rest) == []
      ensures saved == old(saved) + Cur(c)
    {
      hide Stream.Valid;
      c := stream.Get();
      if !IsEnd(c) {
        saved := saved + [AsByte(c)];
      } else {
        assert saved + [] == saved;
      }
    }

    method UngetChar(c: int, ghost ahead: bytes)
      requires At(c, ahead)
      modifies stream
      ensures stream.Valid() && stream.rest == Unread(ahead)
    {
      hide Stream.Valid;
      stream.Unget(c);
    }

    /** lex_unget_unsave */
    method UngetUnsave(c: int, ghost ahead: bytes, ghost text: bytes)
      requires At(c, ahead) && saved == text + Cur(c)
      modifies this`saved, stream
      ensures stream.Valid() && stream.rest == Unread(ahead) && saved == text
    {
      hide Stream.Valid;
      if !IsEnd(c) {
        stream.Unget(c);
        saved := saved[..|saved|-1];
      }
    }

    // -------------------------------------------------------------- numbers

    /** A loop over digits, the first of which is in hand. */
    method ReadDigits(c0: int, ghost t: bytes, ghost text: bytes) returns (c: int)
      requires At(c0, t) && saved == text + Cur(c0)
      modifies this`saved, stream, stream.buffer
      ensures At(c, t[Digits(t)..]) && saved == text + t[..Digits(t)] + Cur(c)
    {
      hide Stream.Valid, DigitChar, IsDigit;
      c := c0;
      ghost var k := 0;
      assert t[0..] == t && text + t[..0] == text;
      while DigitChar(c)
        invariant k <= Digits(t) && At(c, t[k..]) && saved == text + t[..k] + Cur(c)
        decreases |t| - k
      {
        Here(c, t, k);
        Advanced(t, k, text);
        DigitsStep(t, k);
        c := GetSave();
        k := k + 1;
      }
      DigitsStep(t, k);
      Here(c, t, k);
    }

    method ReadInt(c0: int, ghost t: bytes, ghost text: bytes) returns (ok: bool, c: int)
      requires At(c0, t) && saved == text + Cur(c0)
      modifies this`saved, stream, stream.buffer
      ensures stream.Valid() && (ok <==> ScanInt(t).Some?)
      ensures ok ==> At(c, ScanInt(t).value.1) && saved == text + ScanInt(t).value.0 + Cur(c)
    {
      hide Stream.Valid;
      ok, c := true, c0;
      if c == 48 {
        Advanced(t, 0, text);
        c := GetSave();
        if DigitChar(c) {
          UngetUnsave(c, t[1..], text + t[..1]);
          ok := false;
        }
      } else if DigitChar(c) {
        c := ReadDigits(c, t, text);
      } else {
        UngetUnsave(c, t, text);
        ok := false;
      }
    }

    method ReadFrac(c0: int, ghost t: bytes, ghost text: bytes) returns (ok: bool, c: int)
      requires At(c0, t) && saved == text + Cur(c0) && c0 == 46
      modifies this`saved, stream, stream.buffer
      ensures stream.Valid() && (ok <==> ScanFrac(t).Some?)
      ensures ok ==> ScanFrac(t).value.0.Some? && At(c, ScanFrac(t).value.1) && saved == text + FracText(ScanFrac(t).value.0) + Cur(c)
    {
      hide Stream.Valid, Digits;
      ghost var u := t[1..];
      DigitsStep(u, 0);
      c := stream.Get();
      if !DigitChar(c) {
        UngetChar(c, u);
        return false, c;
      }
      ok := true;
      saved := saved + [AsByte(c)];
      c := ReadDigits(c, u, text + [46]);
      ghost var n := Digits(u);
      assert text + [46] + u[..n] == text + ([46] + u[..n]);
    }

    method ReadExp(c0: int, ghost t: bytes, ghost text: bytes) returns (ok: bool, c: int)
      requires At(c0, t) && saved == text + Cur(c0) && (c0 == 69 || c0 == 101)
      modifies this`saved, stream, stream.buffer
      ensures stream.Valid() && (ok <==> ScanExp(t).Some?)
      ensures ok ==> ScanExp(t).value.0.Exponent? && At(c, ScanExp(t).value.1) && saved == text + ExpText(ScanExp(t).value.0) + Cur(c)
    {
      hide Stream.Valid, ScanExp, Digits;
      c := GetSave();
      ghost var k := 1;
      ghost var before := text + t[..1];
      if c == 43 || c == 45 {
        Advanced(t, 1, text);
        before := text + t[..2];
        assert t[1..][1..] == t[2..];
        c := GetSave();
        k := 2;
      }
      assert At(c, t[k..]) && saved == before + Cur(c);
      ExpScanned(t, k);
      DigitsStep(t[k..], 0);
      if !DigitChar(c) {
        UngetUnsave(c, t[k..], before);
        return false, c;
      }
      ok := true;
      c := ReadDigits(c, t[k..], before);
      ExpJoined(text, t, k, t[k..][..Digits(t[k..])]);
    }

    /** lex_scan_number, with the first byte in hand and saved. */
    method ReadNumber(c0: int, ghost t: bytes)
      requires At(c0, t) && saved == Cur(c0) && t != []
      modifies this`saved, this`token, stream, stream.buffer
      ensures Scanned(ScanNumber([], t))
    {
      hide Stream.Valid, ScanInt, ScanFrac, ScanExp;
      token := Token.Invalid;
      var c, ok := c0, true;
      ghost var neg := c == 45;
      if c == 45 {
        c := GetSave();
      }
      ghost var s0 := if neg then t[1..] else t;
      assert saved == SignText(neg) + Cur(c);
      ok, c := ReadInt(c, s0, SignText(neg));
      if !ok {
        return;
      }
      ghost var (digits, s1) := ScanInt(s0).value;
      if c != 46 && c != 69 && c != 101 {
        FinishInteger(c, t, digits, s1);
      } else {
        FinishReal(c, t, digits, s1);
      }
    }

    /** The branch of lex_scan_number without fraction and exponent. */
    method FinishInteger(c: int, ghost t: bytes, ghost digits: bytes, ghost s1: bytes)
      requires t != []
      requires var neg := t[0] == MINUS;
               && ScanInt(if neg then t[1..] else t) == Some((digits, s1))
               && At(c, s1) && saved == SignText(neg) + digits + Cur(c)
      requires c != 46 && c != 69 && c != 101 && token == Token.Invalid
      modifies this`saved, this`token, stream
      ensures Scanned(ScanNumber([], t))
    {
      hide Stream.Valid, ScanInt, ScanFrac, ScanExp, NumText, ScanNum, NumOk, Overflows, StrToDOverflows, StrToInt, IntValue;
      NoMore(s1);
      NumParts(t, digits, s1, None, s1, NoExponent, s1);
      UngetUnsave(c, s1, SignText(t[0] == MINUS) + digits);
      var value := StrToInt(saved);
      if IsInt64(value) {
        token := Integer(value);
      }
    }

    /** The rest of lex_scan_number. */
    method FinishReal(c0: int, ghost t: bytes, ghost digits: bytes, ghost s1: bytes)
      requires t != []
      requires var neg := t[0] == MINUS;
               && ScanInt(if neg then t[1..] else t) == Some((digits, s1))
               && At(c0, s1) && saved == SignText(neg) + digits + Cur(c0)
      requires (c0 == 46 || c0 == 69 || c0 == 101) && token == Token.Invalid
      modifies this`saved, this`token, stream, stream.buffer
      ensures Scanned(ScanNumber([], t))
    {
      hide Stream.Valid, ScanInt, ScanFrac, ScanExp, ScanNum, NumText, NumOk, FracText, ExpText, Overflows, StrToDOverflows;
      var c, ok := c0, true;
      NoNum(t, digits, s1);
      ghost var text := SignText(t[0] == MINUS) + digits;
      if c == 46 {
        ok, c := ReadFrac(c, s1, text);
        if !ok {
          return;
        }
      } else {
        NoMore(s1);
        NothingThere(text);
      }
      ghost var (frac, s2) := ScanFrac(s1).value;
      text := text + FracText(frac);
      if c == 69 || c == 101 {
        ok, c := ReadExp(c, s2, text);
        if !ok {
          return;
        }
      } else {
        NoMore(s2);
        NothingThere(text);
      }
      ghost var (exp, rest) := ScanExp(s2).value;
      NumParts(t, digits, s1, frac, s2, exp, rest);
      UngetUnsave(c, rest, text + ExpText(exp));
      if !StrToDOverflows(saved) {
        token := Real(saved);
      }
    }

    // ---------------------------------------------------------------- words

    /** A loop over letters, the first of which is in hand. */
    method ReadLetters(c0: int, ghost t: bytes, ghost text: bytes) returns (c: int)
      requires At(c0, t) && saved == text + Cur(c0)
      modifies this`saved, stream, stream.buffer
      ensures At(c, t[Alphas(t)..]) && saved == text + t[..Alphas(t)] + Cur(c)
    {
      hide Stream.Valid, AlphaChar, IsAlpha;
      c := c0;
      ghost var k := 0;
      assert t[0..] == t && text + t[..0] == text;
      while AlphaChar(c)
        invariant k <= Alphas(t) && At(c, t[k..]) && saved == text + t[..k] + Cur(c)
        decreases |t| - k
      {
        Here(c, t, k);
        Advanced(t, k, text);
        AlphasStep(t, k);
        c := GetSave();
        k := k + 1;
      }
      AlphasStep(t, k);
      Here(c, t, k);
    }

    /** The identifier branch of lex_scan. */
    method ReadWord(c0: int, ghost t: bytes)
      requires At(c0, t) && saved == Cur(c0)
      modifies this`saved, this`token, stream, stream.buffer
      ensures Scanned(ScanWord([], t))
      ensures saved == t[..Alphas(t)]
      ensures token == if saved == [116, 114, 117, 101] then Word(True)
                       else if saved == [102, 97, 108, 115, 101] then Word(False)
                       else if saved == [110, 117, 108, 108] then Word(Null)
                       else Token.Invalid
    {
      hide Stream.Valid, Stream.Last, Stream.Ahead, Alphas;
      var c := ReadLetters(c0, t, []);
      ghost var n := Alphas(t);
      assert [] + t[..n] == t[..n];
      UngetUnsave(c, t[n..], t[..n]);
      if saved == WordText(True) {
        token := Word(True);
      } else if saved == WordText(False) {
        token := Word(False);
      } else if saved == WordText(Null) {
        token := Word(Null);
      } else {
        token := Token.Invalid;
      }
    }

    /** The leading loop of lex_scan. */
    method SkipSpaces(ghost t: bytes) returns (c: int)
      requires stream.Valid() && stream.rest == t
      modifies stream, stream.buffer
      ensures At(c, t[Spaces(t)..]) && (IsEnd(c) ==> c == stream.End())
    {
      hide Stream.Valid;
      c := stream.Get();
      ghost var k := 0;
      assert t[0..] == t;
      while SpaceChar(c)
        invariant k <= Spaces(t) && At(c, t[k..]) && (IsEnd(c) ==> c == stream.End())
        decreases |t| - k
      {
        Here(c, t, k);
        Advanced(t, k, []);
        SpacesStep(t, k);
        c := stream.Get();
        k := k + 1;
      }
      SpacesStep(t, k);
      Here(c, t, k);
    }

    // -------------------------------------------------------------- strings

    /** The four bytes after \\u. The source tests each with l_isxdigit, a macro that any
        value passes, end of input included. */
    method ReadHex(ghost v: bytes, ghost text: bytes) returns (c: int)
      requires stream.Valid() && stream.rest == v && saved == text
      modifies this`saved, stream, stream.buffer
      ensures |v| < 4 ==> At(c, [])
      ensures |v| >= 4 ==> At(c, v[4..]) && saved == text + v[..4] + Cur(c)
    {
      hide Stream.Valid;
      c := GetSave();
      assert v[0..] == v && text + v[..0] == text;
      for i := 0 to 4
        invariant if i <= |v| then At(c, v[i..]) && saved == text + v[..i] + Cur(c) else At(c, [])
      {
        if i < |v| {
          InHand(c, v[i..]);
          Advanced(v, i, text);
        }
        c := GetSave();
      }
    }

    /** An escape sequence, its backslash in hand; `left` is what lies ahead after it. */
    method ReadEscape(ghost s: bytes, ghost text: bytes)
      returns (ok: bool, c: int, ghost u: Unit, ghost left: bytes, ghost kept: bytes)
      requires stream.Valid() && s != [] && s[0] == BACKSLASH && stream.rest == s[1..]
      requires Units(s).Some? ==> saved == text + [BACKSLASH]
      modifies this`saved, stream, stream.buffer
      ensures stream.Valid() && (!ok ==> Units(s).None?)
      ensures ok ==> At(c, left) && |left| < |s| && saved == kept + Cur(c)
      ensures ok && Units(s).Some? ==> UnitOk(u) && Units(s) == Consed(u, Units(left)) && kept == text + UnitText(u)
      ensures ok && Units(s).None? ==> Units(left).None?
    {
      hide Stream.Valid, Units, UnitText, UnitOk;
      c := GetSave();
      InHand(c, s[1..]);
      u, left, kept := Raw(0), [], saved;
      if c == 117 {
        c := ReadHex(s[2..], saved);
        left := if |s| < 6 then [] else s[6..];
        u := if |s| < 6 then u else Hex(s[2], s[3], s[4], s[5]);
        EscapedHex(s);
        kept := if |s| < 6 then saved else kept + s[2..][..4];
        LeftNested(text, [BACKSLASH], [117], s[2..][..if |s| < 6 then 0 else 4]);
        assert |s| < 6 ==> saved + Cur(c) == saved;
        ok := true;
      } else if c == 34 || c == 92 || c == 47 || c == 98 || c == 102 || c == 110 || c == 114 || c == 116 {
        u, left := Short(AsByte(c)), s[2..];
        c := GetSave();
        EscapedShort(s);
        ok := true;
      } else {
        EscapedOther(s);
        ok := false;
      }
    }

    /** The first pass of lex_scan_string, from after the opening quote. */
    method ReadUnits(ghost t: bytes) returns (ok: bool)
      requires stream.Valid() && stream.rest == t && saved == [QUOTE]
      modifies this`saved, stream, stream.buffer
      ensures stream.Valid() && (ok <==> Units(t).Some?)
      ensures ok ==> stream.rest == Units(t).value.1 && saved == [QUOTE] + UnitsText(Units(t).value.0) + [QUOTE]
    {
      hide Stream.Valid, Units, UnitsText, UnitText, UnitOk;
      var c := GetSave();
      ghost var acc, s, kept := [], t, [QUOTE];
      AtStart(t);
      while c != 34
        invariant At(c, s) && Units(t) == Appended(acc, Units(s))
        invariant saved == kept + Cur(c) && (Units(t).Some? ==> kept == [QUOTE] + UnitsText(acc))
        decreases |s|
      {
        InHand(c, s);
        FirstByte(s);
        if IsEnd(c) {
          return false;
        } else if 0 <= c <= 0x1F {
          UngetUnsave(c, s, kept);
          return false;
        }
        ghost var u, left := Raw(s[0]), s[1..];
        if c == 92 {
          ok, c, u, left, kept := ReadEscape(s, kept);
          if !ok {
            return false;
          }
        } else {
          kept := saved;
          c := GetSave();
        }
        AppendedMore(acc, u, Units(left));
        Cat2([QUOTE], UnitsText(acc), UnitText(u));
        acc, s := acc + [u], left;
      }
      InHand(c, s);
      FirstByte(s);
      assert acc + [] == acc;
      ok := true;
    }

    /** lex_scan_string, its opening quote already saved. */
    method ReadString(ghost t: bytes)
      requires stream.Valid() && stream.rest == t && saved == [QUOTE]
      modifies this`saved, this`token, stream, stream.buffer
      ensures Scanned(ScanString([], t))
    {
      hide Stream.Valid, Units, DecodeUnits, UnitsText;
      token := Token.Invalid;
      var ok := ReadUnits(t);
      if ok {
        ghost var us := Units(t).value.0;
        UnitsSound(t);
        assert saved[1..] == UnitsText(us) + [QUOTE] by {
          Cat2([QUOTE], UnitsText(us), [QUOTE]);
        }
        var d, _ := DecodeLiteral(saved, us);
        match d {
          case Text(text) => token := String(text);
          case Invalid =>
          case Aborts => token := Crashed;
        }
      }
    }

    /** lex_scan: the stream and the token after it are what Scan says, given the bytes
        still deliverable and what follows them. */
    method Scan()
      requires stream.Valid()
      modifies this`saved, this`token, stream, stream.buffer
      ensures Scanned(Scanning.Scan(old(stream.rest), stream.End() == ERROR))
    {
      hide Stream.Valid, ScanString, ScanNumber, ScanWord;
      ghost var s := stream.rest;
      saved := [];
      var c := SkipSpaces(s);
      ghost var k := Spaces(s);
      ghost var t := s[k..];
      InHand(c, t);
      if c == EOF {
        token := EndOfInput;
        return;
      }
      if c == ERROR {
        token := Token.Invalid;
        return;
      }
      AnySpace(s[..k], t);
      saved := saved + [AsByte(c)];
      CharClasses(t[0]);
      if c == 123 || c == 125 || c == 91 || c == 93 || c == 58 || c == 44 {
        token := Mark(AsByte(c));
      } else if c == 34 {
        ReadString(t[1..]);
      } else if DigitChar(c) || c == 45 {
        ReadNumber(c, t);
      } else if AlphaChar(c) {
        ReadWord(c, t);
      } else {
        token := Token.Invalid;
      }
    }
  }

  // ------------------------------------------------- the second pass over a string

  /** The digits of an escape read so far, most significant first. */
  function Hexed(s: bytes): Option<nat> {
    if s == [] then Some(0)
    else
      var k := |s| - 1;
      match Hexed(s[..k])
      case None => None
      case Some(v) => if IsAlnum(s[k]) then Some(16 * v + DigitValue(s[k])) else None
  }

  lemma HexedStep(s: bytes, b: byte)
    ensures Hexed(s + [b]) == match Hexed(s)
                              case None => None
                              case Some(v) => if IsAlnum(b) then Some(16 * v + DigitValue(b)) else None
  {
    assert (s + [b])[..|s|] == s;
  }

  lemma HexedFour(a: byte, b: byte, c: byte, d: byte)
    ensures Hexed([a, b, c, d]) == EscapeValue(a, b, c, d)
  {
    hide DigitValue, IsAlnum;
    HexedStep([], a);
    HexedStep([a], b);
    HexedStep([a, b], c);
    HexedStep([a, b, c], d);
    assert [a] == [] + [a] && [a, b] == [a] + [b] && [a, b, c] == [a, b] + [c] && [a, b, c, d] == [a, b, c] + [d];
  }

  /** decode_unicode_escape; None where it reaches assert(0). */
  method DecodeUnicodeEscape(str: bytes, p: nat) returns (r: Option<nat>)
    requires p + 5 <= |str|
    ensures r == EscapeValue(str[p+1], str[p+2], str[p+3], str[p+4])
  {
    ghost var digits := str[p+1..p+5];
    HexedFour(str[p+1], str[p+2], str[p+3], str[p+4]);
    assert digits == [str[p+1], str[p+2], str[p+3], str[p+4]];
    var value := 0;
    for i := 1 to 5
      invariant Hexed(digits[..i-1]) == Some(value)
    {
      var c := str[p+i];
      HexedStep(digits[..i-1], c);
      assert digits[..i-1] + [c] == digits[..i];
      value := value * 16;
      if IsDigit(c) {
        value := value + (c as int - 48);
      } else if IsLower(c) {
        value := value + (c as int - 97 + 10);
      } else if IsUpper(c) {
        value := value + (c as int - 65 + 10);
      } else {
        HexedNone(digits, i);
        return None;
      }
    }
    assert digits[..4] == digits;
    r := Some(value);
  }

  lemma {:induction false} HexedNone(s: bytes, i: nat)
    requires i <= |s| && Hexed(s[..i]).None?
    ensures Hexed(s).None?
    decreases |s| - i
  {
    if i == |s| {
      assert s[..i] == s;
    } else {
      assert s[..i+1][..i] == s[..i];
      HexedNone(s, i + 1);
    }
  }

  /** From position p on the saved text spells these units and the closing quote. */
  ghost predicate Spells(str: bytes, p: nat, left: seq<Unit>) {
    p <= |str| && str[p..] == UnitsText(left) + [QUOTE] && UnitsOk(left)
  }

  /** What is found at position p. */
  lemma SpellsHead(str: bytes, p: nat, left: seq<Unit>)
    requires Spells(str, p, left)
    ensures p < |str| && (str[p] == QUOTE <==> left == [])
    ensures left != [] ==> p + |UnitText(left[0])| < |str| && Spells(str, p + |UnitText(left[0])|, left[1..])
    ensures left != [] ==> UnitText(left[0]) == str[p..p+|UnitText(left[0])|] && UnitOk(left[0])
  {
    var t := str[p..];
    if left != [] {
      var u := UnitText(left[0]);
      assert t == u + (UnitsText(left[1..]) + [QUOTE]);
      assert t[..|u|] == u && t[|u|..] == UnitsText(left[1..]) + [QUOTE];
      assert str[p..p+|u|] == t[..|u|] && str[p+|u|..] == t[|u|..];
      assert t[0] == u[0];
    } else {
      assert t == [QUOTE];
    }
  }

  /** The kind of unit is told by the first two bytes. */
  lemma UnitKind(str: bytes, p: nat, left: seq<Unit>)
    requires Spells(str, p, left) && left != []
    ensures str[p] != BACKSLASH <==> left[0].Raw?
    ensures left[0].Raw? ==> left[0] == Raw(str[p]) && Spells(str, p + 1, left[1..])
    ensures !left[0].Raw? ==> p + 2 < |str| && (str[p+1] == 117 <==> left[0].Hex?)
    ensures left[0].Short? ==> left[0] == Short(str[p+1]) && Spells(str, p + 2, left[1..])
    ensures left[0].Hex? ==> p + 6 < |str| && left[0] == Hex(str[p+2], str[p+3], str[p+4], str[p+5]) && Spells(str, p + 6, left[1..])
  {
    hide Spells, UnitsText;
    SpellsHead(str, p, left);
    var u := UnitText(left[0]);
    assert forall i :: 0 <= i < |u| ==> str[p+i] == u[i] by {
      assert forall i :: 0 <= i < |u| ==> str[p..p+|u|][i] == u[i];
    }
  }

  /** The code point of the escape at position p, surrogates combined; q is the position
      after it. Text([]) means that there is one. */
  method ReadCodePoint(str: bytes, p: nat, ghost left: seq<Unit>)
      returns (d: Decoded, value: nat, q: nat, ghost after: seq<Unit>)
    requires Spells(str, p, left) && left != [] && left[0].Hex?
    ensures !d.Text? ==> DecodeUnits(left) == d
    ensures d.Text? ==> Spells(str, q, after) && |after| < |left| && p + 6 <= q && Utf8.Encode(value).Some?
    ensures d.Text? ==> DecodeUnits(left) == Prefixed(Utf8.Encode(value).value, DecodeUnits(after))
  {
    hide Spells, EscapeValue;
    UnitKind(str, p, left);
    q, after, value := p + 6, left[1..], 0;
    SpellsHead(str, q, after);
    var first := DecodeUnicodeEscape(str, p + 1);
    if first.None? {
      return Decoded.Aborts, value, q, after;
    }
    value := first.value;
    d := Text([]);
    if IsHighSurrogate(value) {
      if after != [] {
        UnitKind(str, q, after);
      }
      if str[q] == BACKSLASH && str[q+1] == 117 {
        assert after[0] == left[1] && after[1..] == left[2..];
        var second := DecodeUnicodeEscape(str, q + 1);
        if second.None? {
          return Decoded.Aborts, value, q, after;
        }
        q, after := q + 6, after[1..];
        if IsLowSurrogate(second.value) {
          value := Combine(value, second.value);
        } else {
          d := Decoded.Invalid;
        }
      } else {
        d := Decoded.Invalid;
      }
    } else if IsLowSurrogate(value) || value == 0 {
      d := Decoded.Invalid;
    }
  }

  /** Encodes the escape at position p into the target at position t. */
  method PutEscape(str: bytes, p: nat, target: array<byte>, t: nat, ghost left: seq<Unit>)
      returns (d: Decoded, q: nat, end: nat, ghost after: seq<Unit>)
    requires Spells(str, p, left) && left != [] && left[0].Hex? && t < p && target.Length == |str| + 1
    modifies target
    ensures !d.Text? ==> DecodeUnits(left) == d
    ensures d.Text? ==> Spells(str, q, after) && |after| < |left| && t <= end < q && target[..t] == old(target[..t])
    ensures d.Text? ==> end <= target.Length && DecodeUnits(left) == Prefixed(target[t..end], DecodeUnits(after))
  {
    hide DecodeUnits, Utf8.Encode, UnitsText, UnitsOk, UnitOk, UnitText;
    var value;
    d, value, q, after := ReadCodePoint(str, p, left);
    end := t;
    if d.Text? {
      var buffer := new byte[4](_ => 0);
      var ok, length := Utf8.EncodeInto(value, buffer);
      SpellsHead(str, q, after);
      forall i | 0 <= i < length {
        target[t+i] := buffer[i];
      }
      end := t + length;
      assert target[t..end] == buffer[..length];
    }
  }

  lemma NothingDecoded(d: Decoded)
    ensures Prefixed([], d) == d
  {
    assert d.Text? ==> [] + d.text == d.text;
  }

  lemma NothingLeft(text: bytes)
    ensures Prefixed(text, DecodeUnits([])) == Text(text)
  {
    assert text + [] == text;
  }

  lemma FailureStays(text: bytes, d: Decoded)
    requires !d.Text?
    ensures Prefixed(text, d) == d
  {
  }

  lemma DecodesTo(left: seq<Unit>)
    requires left != [] && !left[0].Hex?
    ensures DecodeUnits(left) == Prefixed([if left[0].Raw? then left[0].b else Unescape(left[0].b)], DecodeUnits(left[1..]))
  {
  }

  /** The second pass of lex_scan_string over the saved literal. The target has one byte
      more than the saved text and is never written beyond its end. */
  method DecodeLiteral(str: bytes, ghost us: seq<Unit>) returns (d: Decoded, target: array<byte>)
    requires Spells(str, 1, us)
    ensures d == DecodeUnits(us) && target.Length == |str| + 1
    ensures d.Text? ==> |d.text| <= |str| && target[..|d.text|+1] == d.text + [0]
  {
    hide Spells, DecodeUnits, UnitOk, UnitText, Prefixed, UnitsText, UnitsOk;
    target := new byte[|str| + 1](_ => 0);
    var t: nat, p: nat := 0, 1;
    ghost var left := us;
    assert target[..0] == [];
    NothingDecoded(DecodeUnits(us));
    SpellsHead(str, p, left);
    while str[p] != QUOTE
      invariant Spells(str, p, left) && p < |str| && t < p && (str[p] == QUOTE <==> left == [])
      invariant DecodeUnits(us) == Prefixed(target[..t], DecodeUnits(left))
      decreases |left|
    {
      UnitKind(str, p, left);
      ghost var done := target[..t];
      var c := str[p];
      if c == BACKSLASH && str[p+1] == 117 {
        ghost var after;
        ghost var was := t;
        d, p, t, after := PutEscape(str, p, target, t, left);
        if !d.Text? {
          FailureStays(done, d);
          return;
        }
        PrefixedTwice(done, target[was..t], DecodeUnits(after));
        assert target[..t] == done + target[was..t];
        left := after;
      } else {
        if c == BACKSLASH {
          p := p + 1;
          c := Unescape(str[p]);
        }
        target[t] := c;
        t := t + 1;
        p := p + 1;
        assert target[..t] == done + [c];
        DecodesTo(left);
        PrefixedTwice(done, [c], DecodeUnits(left[1..]));
        left := left[1..];
      }
      SpellsHead(str, p, left);
    }
    target[t] := 0;
    d := Text(target[..t]);
    NothingLeft(target[..t]);
  }
}
