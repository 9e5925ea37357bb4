/**
  Where load.c and RFC 4627 part: the lexer takes any four bytes after \u. A text whose
  escapes all have letters or digits never makes it abort, and if it is accepted, its
  escapes have hexadecimal digits exactly when the RFC's grammar has it.
 */
module Escapes {
  import opened Bytes
  import opened Grammar
  import opened Parsing
  import opened Scanning

  /** Four hexadecimal digits, or any letters and digits, follow every \u that is not
      itself escaped. */
  predicate RealEscapes(s: bytes, letters: bool) {
    if s == [] then true
    else if s[0] != BACKSLASH then RealEscapes(s[1..], letters)
    else if |s| == 1 then true
    else if s[1] != 117 then RealEscapes(s[2..], letters)
    else |s| >= 6 && DigitsOk(Hex(s[2], s[3], s[4], s[5]), letters) && RealEscapes(s[6..], letters)
  }

  predicate StrictLex(lex: Lexeme, letters: bool) { lex.Str? ==> StrictUnits(lex.units, letters) }

  /** Every string and key of the tree has such escapes only. */
  predicate Strict(syn: Syn, letters: bool) {
    match syn
    case Leaf(lex) => StrictLex(lex, letters)
    case EmptyArray(_) => true
    case Array(_, head, tail) => Strict(head, letters) && StrictElems(tail, letters)
    case EmptyObject(_) => true
    case Object(first, rest) => StrictMember(first, letters) && StrictMembers(rest, letters)
  }

  predicate StrictElems(e: Elems, letters: bool) {
    e.Elem? ==> Strict(e.head, letters) && StrictElems(e.tail, letters)
  }

  predicate StrictMember(m: Member, letters: bool) {
    StrictUnits(m.key, letters) && Strict(m.value, letters)
  }

  predicate StrictMembers(m: Members, letters: bool) {
    m.More? ==> StrictMember(m.head, letters) && StrictMembers(m.tail, letters)
  }

  // ------------------------------------------------------------------ tokens

  lemma {:induction false} PlainPrefix(s: bytes, n: nat, letters: bool)
    requires n <= |s| && forall i :: 0 <= i < n ==> s[i] != BACKSLASH
    ensures RealEscapes(s, letters) <==> RealEscapes(s[n..], letters)
    decreases n
  {
    if n == 0 {
      assert s[0..] == s;
    } else {
      PlainPrefix(s[1..], n - 1, letters);
      assert s[1..][n-1..] == s[n..];
    }
  }

  lemma {:induction false} UnitsReal(t: bytes, letters: bool)
    requires Units(t).Some?
    ensures var (us, rest) := Units(t).value; RealEscapes(t, letters) <==> StrictUnits(us, letters) && RealEscapes(rest, letters)
    decreases |t|
  {
    if t[0] != QUOTE {
      FirstUnit(t);
      var n := |UnitText(Units(t).value.0[0])|;
      UnitsReal(t[n..], letters);
      FirstReal(t, Units(t).value.0[0], letters);
    }
  }

  lemma FirstReal(t: bytes, u: Unit, letters: bool)
    requires UnitOk(u) && |UnitText(u)| <= |t| && UnitText(u) == t[..|UnitText(u)|]
    ensures RealEscapes(t, letters) <==>
            && (u.Hex? ==> DigitsOk(u, letters))
            && RealEscapes(t[|UnitText(u)|..], letters)
  {
    assert forall i :: 0 <= i < |UnitText(u)| ==> t[i] == UnitText(u)[i];
  }

  lemma {:induction false} StrictDecodes(us: seq<Unit>, letters: bool)
    requires StrictUnits(us, letters)
    ensures DecodeUnits(us) != Decoded.Aborts
    decreases |us|
  {
    if us != [] {
      StrictDecodes(us[1..], letters);
      if |us| > 1 {
        assert us[2..] == us[1..][1..] && us[1] == us[1..][0];
        StrictDecodes(us[2..], letters);
      }
    }
  }

  lemma NumberPlain(t: bytes, letters: bool)
    requires ScanNum(t).Some?
    ensures RealEscapes(t, letters) <==> RealEscapes(ScanNum(t).value.1, letters)
  {
    ScanNumSound(t);
    hide ScanNum;
    var (n, rest) := ScanNum(t).value;
    NumNoBackslash(n);
    var a := NumText(n);
    assert forall i :: 0 <= i < |a| ==> t[i] == a[i];
    PlainPrefix(t, |a|, letters);
    assert t[|a|..] == rest;
  }

  lemma NumNoBackslash(n: Num)
    requires NumOk(n)
    ensures BACKSLASH !in NumText(n)
  {
    assert BACKSLASH !in n.digits && BACKSLASH !in SignText(n.neg);
    assert BACKSLASH !in FracText(n.frac) by {
      assert n.frac.Some? ==> BACKSLASH !in n.frac.value;
    }
    assert BACKSLASH !in ExpText(n.exp) by {
      assert n.exp.Exponent? ==> BACKSLASH !in n.exp.digits && BACKSLASH !in n.exp.sign;
    }
    var t := FracText(n.frac) + ExpText(n.exp);
    assert BACKSLASH !in t && BACKSLASH !in n.digits + t;
  }

  lemma UnreadReal(s: bytes, letters: bool)
    ensures RealEscapes(s, letters) <==> RealEscapes(Unread(s), letters)
  {
  }

  /** What is said of each scan from a text. */
  predicate ScannedReal(t: bytes, r: Scanned, letters: bool) {
    && (r.Tok? ==> (RealEscapes(t, letters) <==> StrictLex(r.lex, letters) && RealEscapes(r.rest, letters)))
    && (r.Aborts? ==> !RealEscapes(t, letters))
  }

  lemma StringReal(w: bytes, t: bytes, letters: bool)
    requires t != [] && t[0] == QUOTE
    ensures ScannedReal(t, ScanString(w, t[1..]), letters)
  {
    hide Units, DecodeUnits, StrictUnits;
    PlainPrefix(t, 1, letters);
    if Units(t[1..]).Some? {
      UnitsReal(t[1..], letters);
      var us := Units(t[1..]).value.0;
      if StrictUnits(us, letters) {
        StrictDecodes(us, letters);
      }
    }
  }

  lemma NumberReal(w: bytes, t: bytes, letters: bool)
    ensures ScannedReal(t, ScanNumber(w, t), letters)
  {
    hide ScanNum, NumFits;
    if ScanNum(t).Some? {
      NumberPlain(t, letters);
      UnreadReal(ScanNum(t).value.1, letters);
    }
  }

  lemma WordReal(w: bytes, t: bytes, letters: bool)
    ensures ScannedReal(t, ScanWord(w, t), letters)
  {
    hide WordText;
    PlainPrefix(t, Alphas(t), letters);
    UnreadReal(t[Alphas(t)..], letters);
  }

  lemma TokenReal(w: bytes, t: bytes, letters: bool)
    requires t != []
    ensures ScannedReal(t, ScanToken(w, t), letters)
  {
    hide ScanString, ScanNumber, ScanWord;
    if t[0] != BACKSLASH {
      PlainPrefix(t, 1, letters);
    }
    if t[0] == QUOTE {
      StringReal(w, t, letters);
    }
    NumberReal(w, t, letters);
    WordReal(w, t, letters);
  }

  lemma ReadReal(s: bytes, broken: bool, letters: bool)
    ensures var r := Read(s, broken);
            && (r.Ok? ==> (RealEscapes(s, letters) <==> StrictLex(r.v.1, letters) && RealEscapes(r.rest, letters)))
            && (r.Crash? ==> !RealEscapes(s, letters))
  {
    hide ScanToken, StrictLex;
    var k := Spaces(s);
    assert forall i :: 0 <= i < k ==> IsSpace(s[..k][i]);
    PlainPrefix(s, k, letters);
    if k < |s| {
      TokenReal(s[..k], s[k..], letters);
    }
  }

  // ------------------------------------------------------------- the descent

  lemma {:induction false} ValueReal(lex: Lexeme, s: bytes, broken: bool, reject: bool, letters: bool)
    ensures var p := ParseValue(lex, s, broken, reject);
            && (p.Ok? ==> (StrictLex(lex, letters) && RealEscapes(s, letters) <==> Strict(p.v, letters) && RealEscapes(p.rest, letters)))
            && (p.Crash? ==> !RealEscapes(s, letters))
    decreases |s|, 2
  {
    if lex == Punct(LBRACE) {
      ObjectReal(s, broken, reject, letters);
    } else if lex == Punct(LBRACKET) {
      ArrayReal(s, broken, reject, letters);
    }
  }

  lemma {:induction false} ArrayReal(s: bytes, broken: bool, reject: bool, letters: bool)
    ensures var p := ParseArray(s, broken, reject);
            && (p.Ok? ==> (RealEscapes(s, letters) <==> Strict(p.v, letters) && RealEscapes(p.rest, letters)))
            && (p.Crash? ==> !RealEscapes(s, letters))
    decreases |s|, 1
  {
    hide Read;
    ReadReal(s, broken, letters);
    var r := Read(s, broken);
    if r.Ok? && r.v.1 != Punct(RBRACKET) {
      ValueReal(r.v.1, r.rest, broken, reject, letters);
      var p := ParseValue(r.v.1, r.rest, broken, reject);
      if p.Ok? {
        ElemsReal(p.rest, broken, reject, letters);
      }
    }
  }

  lemma {:induction false} ElemsReal(s: bytes, broken: bool, reject: bool, letters: bool)
    ensures var p := ParseElems(s, broken, reject);
            && (p.Ok? ==> (RealEscapes(s, letters) <==> StrictElems(p.v, letters) && RealEscapes(p.rest, letters)))
            && (p.Crash? ==> !RealEscapes(s, letters))
    decreases |s|, 1
  {
    hide Read;
    ReadReal(s, broken, letters);
    var r := Read(s, broken);
    if r.Ok? && r.v.1 == Punct(COMMA) {
      ReadReal(r.rest, broken, letters);
      var n := Read(r.rest, broken);
      if n.Ok? {
        ValueReal(n.v.1, n.rest, broken, reject, letters);
        var p := ParseValue(n.v.1, n.rest, broken, reject);
        if p.Ok? {
          ElemsReal(p.rest, broken, reject, letters);
        }
      }
    }
  }

  lemma {:induction false} MemberReal(w: bytes, lex: Lexeme, s: bytes, broken: bool, reject: bool, keys: set<bytes>, letters: bool)
    ensures var p := ParseMember(w, lex, s, broken, reject, keys);
            && (p.Ok? ==> (StrictLex(lex, letters) && RealEscapes(s, letters) <==> StrictMember(p.v, letters) && RealEscapes(p.rest, letters)))
            && (p.Crash? ==> !RealEscapes(s, letters))
    decreases |s|, 3
  {
    hide Read;
    ReadReal(s, broken, letters);
    var r := Read(s, broken);
    if r.Ok? && r.v.1 == Punct(COLON) {
      ReadReal(r.rest, broken, letters);
      var n := Read(r.rest, broken);
      if n.Ok? {
        ValueReal(n.v.1, n.rest, broken, reject, letters);
      }
    }
  }

  lemma {:induction false} ObjectReal(s: bytes, broken: bool, reject: bool, letters: bool)
    ensures var p := ParseObject(s, broken, reject);
            && (p.Ok? ==> (RealEscapes(s, letters) <==> Strict(p.v, letters) && RealEscapes(p.rest, letters)))
            && (p.Crash? ==> !RealEscapes(s, letters))
    decreases |s|, 1
  {
    hide Read, ParseMember;
    ReadReal(s, broken, letters);
    var r := Read(s, broken);
    if r.Ok? && r.v.1 != Punct(RBRACE) {
      MemberReal(r.v.0, r.v.1, r.rest, broken, reject, {}, letters);
      var p := ParseMember(r.v.0, r.v.1, r.rest, broken, reject, {});
      if p.Ok? {
        MembersReal(p.rest, broken, reject, {KeyOf(p.v.key)}, letters);
      }
    }
  }

  lemma {:induction false} MembersReal(s: bytes, broken: bool, reject: bool, keys: set<bytes>, letters: bool)
    ensures var p := ParseMembers(s, broken, reject, keys);
            && (p.Ok? ==> (RealEscapes(s, letters) <==> StrictMembers(p.v, letters) && RealEscapes(p.rest, letters)))
            && (p.Crash? ==> !RealEscapes(s, letters))
    decreases |s|, 1
  {
    hide Read, ParseMember;
    ReadReal(s, broken, letters);
    var r := Read(s, broken);
    if r.Ok? && r.v.1 == Punct(COMMA) {
      ReadReal(r.rest, broken, letters);
      var n := Read(r.rest, broken);
      if n.Ok? {
        MemberReal(n.v.0, n.v.1, n.rest, broken, reject, keys, letters);
        var p := ParseMember(n.v.0, n.v.1, n.rest, broken, reject, keys);
        if p.Ok? {
          MembersReal(p.rest, broken, reject, keys + {KeyOf(p.v.key)}, letters);
        }
      }
    }
  }

  /** A text with such escapes never makes the parser abort; an accepted text has them
      exactly when its document does. */
  lemma DocReal(s: bytes, broken: bool, reject: bool, letters: bool)
    ensures var p := ParseDoc(s, broken, reject);
            && (p.Ok? ==> (RealEscapes(s, letters) <==> Strict(p.v.top, letters)))
            && (p.Crash? ==> !RealEscapes(s, letters))
  {
    hide ParseValue, Scan, StrictLex, RealEscapes;
    ReadReal(s, broken, letters);
    var r := Read(s, broken);
    if r.Ok? && (r.v.1 == Punct(LBRACKET) || r.v.1 == Punct(LBRACE)) {
      ValueReal(r.v.1, r.rest, broken, reject, letters);
      assert StrictLex(r.v.1, letters) by { PunctStrict(r.v.1.b, letters); }
      var p := ParseValue(r.v.1, r.rest, broken, reject);
      if p.Ok? {
        ReadReal(p.rest, broken, letters);
        EndReal(p.rest, broken, letters);
      }
    }
  }

  lemma PunctStrict(b: byte, letters: bool)
    ensures StrictLex(Punct(b), letters)
  {
  }

  lemma EndReal(s: bytes, broken: bool, letters: bool)
    ensures Scan(s, broken).AtEnd? ==> RealEscapes(s, letters)
  {
    hide ScanToken, RealEscapes;
    var k := Spaces(s);
    if k < |s| {
      NotAtEnd(s[..k], s[k..]);
    } else {
      AllPlain(s, letters);
    }
  }

  lemma NotAtEnd(w: bytes, t: bytes)
    requires t != []
    ensures !ScanToken(w, t).AtEnd?
  {
  }

  lemma AllPlain(s: bytes, letters: bool)
    requires Spaces(s) == |s|
    ensures RealEscapes(s, letters)
  {
    assert s[..|s|] == s;
    assert forall i :: 0 <= i < |s| ==> IsSpace(s[i]);
    PlainPrefix(s, |s|, letters);
  }
}
