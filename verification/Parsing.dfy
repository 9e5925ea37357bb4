/**
  The recursive descent of load.c as functions from text to syntax trees, and the
  proof that it reads exactly the grammar: soundly, completely and in one way.
 */
module Parsing {
  import opened Bytes
  import opened Grammar
  import opened Scanning

  /** A parse succeeds, is rejected, or makes the C code abort in an assertion. */
  datatype Parse<+T> = Ok(v: T, rest: bytes) | Fail | Crash {
    predicate IsFailure() { !Ok? }

    function PropagateFailure<U>(): Parse<U>
      requires !Ok?
    {
      if Fail? then Fail else Crash
    }

    function Extract(): (T, bytes)
      requires Ok?
    {
      (v, rest)
    }
  }

  /** The next token; the end of the input is no token. */
  function Read(s: bytes, broken: bool): (r: Parse<(bytes, Lexeme)>)
    ensures r.Ok? ==> |r.rest| < |s|
  {
    match Scan(s, broken)
    case Tok(w, lex, rest) =>
      ScanSound(s, broken);
      Ok((w, lex), rest)
    case AtEnd => Fail
    case Bad => Fail
    case Aborts => Crash
  }

  /** A token that has to be the given punctuation mark; the white space before it. */
  function Expect(b: byte, s: bytes, broken: bool): (r: Parse<bytes>)
    ensures r.Ok? ==> |r.rest| < |s|
  {
    var (tok, rest) :- Read(s, broken);
    if tok.1 == Punct(b) then Ok(tok.0, rest) else Fail
  }

  /** parse_value, with the current token already read. */
  function ParseValue(lex: Lexeme, s: bytes, broken: bool, reject: bool): (r: Parse<Syn>)
    ensures r.Ok? ==> |r.rest| <= |s|
    decreases |s|, 2
  {
    if lex == Punct(LBRACE) then ParseObject(s, broken, reject)
    else if lex == Punct(LBRACKET) then ParseArray(s, broken, reject)
    else if lex.Punct? then Fail
    else Ok(Leaf(lex), s)
  }

  function ParseArray(s: bytes, broken: bool, reject: bool): (r: Parse<Syn>)
    ensures r.Ok? ==> |r.rest| <= |s|
    decreases |s|, 1
  {
    var (tok, s1) :- Read(s, broken);
    if tok.1 == Punct(RBRACKET) then Ok(EmptyArray(tok.0), s1)
    else
      var (head, s2) :- ParseValue(tok.1, s1, broken, reject);
      var (tail, s3) :- ParseElems(s2, broken, reject);
      Ok(Array(tok.0, head, tail), s3)
  }

  function ParseElems(s: bytes, broken: bool, reject: bool): (r: Parse<Elems>)
    ensures r.Ok? ==> |r.rest| <= |s|
    decreases |s|, 1
  {
    var (tok, s1) :- Read(s, broken);
    if tok.1 == Punct(RBRACKET) then Ok(EndArray(tok.0), s1)
    else if tok.1 != Punct(COMMA) then Fail
    else
      var (next, s2) :- Read(s1, broken);
      var (head, s3) :- ParseValue(next.1, s2, broken, reject);
      var (tail, s4) :- ParseElems(s3, broken, reject);
      Ok(Elem(tok.0, next.0, head, tail), s4)
  }

  function ParseObject(s: bytes, broken: bool, reject: bool): (r: Parse<Syn>)
    ensures r.Ok? ==> |r.rest| <= |s|
    decreases |s|, 1
  {
    var (tok, s1) :- Read(s, broken);
    if tok.1 == Punct(RBRACE) then Ok(EmptyObject(tok.0), s1)
    else
      var (first, s2) :- ParseMember(tok.0, tok.1, s1, broken, reject, {});
      var (rest, s3) :- ParseMembers(s2, broken, reject, {KeyOf(first.key)});
      Ok(Object(first, rest), s3)
  }

  /** One key and value, with the key's token already read. */
  function ParseMember(w: bytes, lex: Lexeme, s: bytes, broken: bool, reject: bool, keys: set<bytes>): (r: Parse<Member>)
    ensures r.Ok? ==> |r.rest| <= |s|
    decreases |s|, 3
  {
    if !lex.Str? then Fail
    else if reject && KeyOf(lex.units) in keys then Fail
    else
      var (wc, s1) :- Expect(COLON, s, broken);
      var (next, s2) :- Read(s1, broken);
      var (value, s3) :- ParseValue(next.1, s2, broken, reject);
      Ok(Member(w, lex.units, wc, next.0, value), s3)
  }

  function ParseMembers(s: bytes, broken: bool, reject: bool, keys: set<bytes>): (r: Parse<Members>)
    ensures r.Ok? ==> |r.rest| <= |s|
    decreases |s|, 1
  {
    var (tok, s1) :- Read(s, broken);
    if tok.1 == Punct(RBRACE) then Ok(EndObject(tok.0), s1)
    else if tok.1 != Punct(COMMA) then Fail
    else
      var (next, s2) :- Read(s1, broken);
      var (head, s3) :- ParseMember(next.0, next.1, s2, broken, reject, keys);
      var (tail, s4) :- ParseMembers(s3, broken, reject, keys + {KeyOf(head.key)});
      Ok(More(tok.0, head, tail), s4)
  }

  /** parse_json with the end-of-file check on. */
  function ParseDoc(s: bytes, broken: bool, reject: bool): Parse<Doc> {
    var (tok, s1) :- Read(s, broken);
    if tok.1 != Punct(LBRACKET) && tok.1 != Punct(LBRACE) then Fail
    else
      var (top, s2) :- ParseValue(tok.1, s1, broken, reject);
      match Scan(s2, broken)
      case AtEnd => Ok(Doc(tok.0, top, s2), [])
      case Aborts => Crash
      case _ => Fail
  }

  /** parse_json with the end-of-file check off: the rest of the text is not looked at. */
  function ParseTop(s: bytes, broken: bool, reject: bool): Parse<Doc> {
    var (tok, s1) :- Read(s, broken);
    if tok.1 != Punct(LBRACKET) && tok.1 != Punct(LBRACE) then Fail
    else
      var (top, s2) :- ParseValue(tok.1, s1, broken, reject);
      Ok(Doc(tok.0, top, []), s2)
  }

  // ---------------------------------------------------------------- soundness

  lemma ReadSound(s: bytes, broken: bool)
    requires Read(s, broken).Ok? && 0 !in s
    ensures var r := Read(s, broken);
            && AllSpace(r.v.0) && LexOk(r.v.1) && |r.rest| < |s| && 0 !in r.rest
            && s == r.v.0 + (LexText(r.v.1) + r.rest)
  {
    ScanSound(s, broken);
    var r := Read(s, broken);
    assert forall b <- r.rest :: b in r.v.0 + (LexText(r.v.1) + r.rest);
  }

  lemma Cat3(a: bytes, b: bytes, c: bytes, d: bytes)
    ensures (a + (b + c)) + d == a + (b + (c + d))
  {
  }

  lemma Cat5(a: bytes, b: bytes, c: bytes, d: bytes, e: bytes, f: bytes)
    ensures (a + (b + (c + (d + e)))) + f == a + (b + (c + (d + (e + f))))
  {
    Regroup(b, c, d, e, f);
    Cat2(a, b + (c + (d + e)), f);
  }

  lemma Cat6(a: bytes, b: bytes, c: bytes, d: bytes, e: bytes, f: bytes, g: bytes)
    ensures (a + (b + (c + (d + (e + f))))) + g == a + (b + (c + (d + (e + (f + g)))))
  {
    Cat5(b, c, d, e, f, g);
    Cat2(a, b + (c + (d + (e + f))), g);
  }

  lemma {:induction false} ValueSound(lex: Lexeme, s: bytes, broken: bool, reject: bool)
    requires ParseValue(lex, s, broken, reject).Ok? && 0 !in s && LexOk(lex)
    ensures var r := ParseValue(lex, s, broken, reject);
            SynOk(r.v) && 0 !in r.rest && LexText(lex) + s == Render(r.v) + r.rest
    ensures reject ==> UniqueKeys(ParseValue(lex, s, broken, reject).v)
    decreases |s|, 2
  {
    if lex == Punct(LBRACE) {
      ObjectSound(s, broken, reject);
    } else if lex == Punct(LBRACKET) {
      ArraySound(s, broken, reject);
    }
  }

  lemma {:induction false} ArraySound(s: bytes, broken: bool, reject: bool)
    requires ParseArray(s, broken, reject).Ok? && 0 !in s
    ensures var r := ParseArray(s, broken, reject);
            SynOk(r.v) && 0 !in r.rest && [LBRACKET] + s == Render(r.v) + r.rest
    ensures reject ==> UniqueKeys(ParseArray(s, broken, reject).v)
    decreases |s|, 1
  {
    ReadSound(s, broken);
    var Ok((w, lex), s1) := Read(s, broken);
    if lex == Punct(RBRACKET) {
      Cat3([LBRACKET], w, [RBRACKET], s1);
    } else {
      ValueSound(lex, s1, broken, reject);
      var Ok(head, s2) := ParseValue(lex, s1, broken, reject);
      ElemsSound(s2, broken, reject);
      var Ok(tail, s3) := ParseElems(s2, broken, reject);
      Regroup([LBRACKET], w, Render(head), RenderElems(tail), s3);
    }
  }

  lemma {:induction false} ElemsSound(s: bytes, broken: bool, reject: bool)
    requires ParseElems(s, broken, reject).Ok? && 0 !in s
    ensures var r := ParseElems(s, broken, reject);
            ElemsOk(r.v) && 0 !in r.rest && s == RenderElems(r.v) + r.rest
    ensures reject ==> UniqueInElems(ParseElems(s, broken, reject).v)
    decreases |s|, 1
  {
    ReadSound(s, broken);
    var Ok((w, lex), s1) := Read(s, broken);
    if lex == Punct(RBRACKET) {
      Cat2(w, [RBRACKET], s1);
    } else {
      ReadSound(s1, broken);
      var Ok((wv, lex2), s2) := Read(s1, broken);
      ValueSound(lex2, s2, broken, reject);
      var Ok(head, s3) := ParseValue(lex2, s2, broken, reject);
      ElemsSound(s3, broken, reject);
      var Ok(tail, s4) := ParseElems(s3, broken, reject);
      Cat5(w, [COMMA], wv, Render(head), RenderElems(tail), s4);
    }
  }

  lemma {:induction false} ObjectSound(s: bytes, broken: bool, reject: bool)
    requires ParseObject(s, broken, reject).Ok? && 0 !in s
    ensures var r := ParseObject(s, broken, reject);
            SynOk(r.v) && 0 !in r.rest && [LBRACE] + s == Render(r.v) + r.rest
    ensures reject ==> UniqueKeys(ParseObject(s, broken, reject).v)
    decreases |s|, 1
  {
    ReadSound(s, broken);
    var Ok((w, lex), s1) := Read(s, broken);
    if lex == Punct(RBRACE) {
      Cat3([LBRACE], w, [RBRACE], s1);
    } else {
      MemberSound(w, lex, s1, broken, reject, {});
      var Ok(first, s2) := ParseMember(w, lex, s1, broken, reject, {});
      MembersSound(s2, broken, reject, {KeyOf(first.key)});
      var Ok(rest, s3) := ParseMembers(s2, broken, reject, {KeyOf(first.key)});
      Cat3([LBRACE], RenderMember(first), RenderMembers(rest), s3);
    }
  }

  lemma {:induction false} MemberSound(w: bytes, lex: Lexeme, s: bytes, broken: bool, reject: bool, keys: set<bytes>)
    requires ParseMember(w, lex, s, broken, reject, keys).Ok? && 0 !in s && AllSpace(w) && LexOk(lex)
    ensures var r := ParseMember(w, lex, s, broken, reject, keys);
            MemberOk(r.v) && 0 !in r.rest && w + (LexText(lex) + s) == RenderMember(r.v) + r.rest
    ensures reject ==> var m := ParseMember(w, lex, s, broken, reject, keys).v;
                       KeyOf(m.key) !in keys && UniqueKeys(m.value)
    decreases |s|, 3
  {
    ReadSound(s, broken);
    var Ok((wc, _), s1) := Read(s, broken);
    ReadSound(s1, broken);
    var Ok((wv, lex2), s2) := Read(s1, broken);
    ValueSound(lex2, s2, broken, reject);
    var Ok(value, s3) := ParseValue(lex2, s2, broken, reject);
    Cat6(w, LexText(lex), wc, [COLON], wv, Render(value), s3);
  }

  lemma {:induction false} MembersSound(s: bytes, broken: bool, reject: bool, keys: set<bytes>)
    requires ParseMembers(s, broken, reject, keys).Ok? && 0 !in s
    ensures var r := ParseMembers(s, broken, reject, keys);
            MembersOk(r.v) && 0 !in r.rest && s == RenderMembers(r.v) + r.rest
    ensures reject ==> UniqueInMembers(ParseMembers(s, broken, reject, keys).v, keys)
    decreases |s|, 1
  {
    ReadSound(s, broken);
    var Ok((w, lex), s1) := Read(s, broken);
    if lex == Punct(RBRACE) {
      Cat2(w, [RBRACE], s1);
    } else {
      ReadSound(s1, broken);
      var Ok((wk, lex2), s2) := Read(s1, broken);
      MemberSound(wk, lex2, s2, broken, reject, keys);
      var Ok(head, s3) := ParseMember(wk, lex2, s2, broken, reject, keys);
      MembersSound(s3, broken, reject, keys + {KeyOf(head.key)});
      var Ok(tail, s4) := ParseMembers(s3, broken, reject, keys + {KeyOf(head.key)});
      Regroup(w, [COMMA], RenderMember(head), RenderMembers(tail), s4);
    }
  }

  /** What the parser reads without looking at the rest is a document, and the rest is the rest. */
  lemma TopSound(s: bytes, broken: bool, reject: bool)
    requires ParseTop(s, broken, reject).Ok? && 0 !in s
    ensures var r := ParseTop(s, broken, reject);
            && DocOk(r.v) && r.v.after == [] && 0 !in r.rest
            && RenderDoc(r.v) + r.rest == s && (reject ==> UniqueKeys(r.v.top))
  {
    hide Render, SynOk, UniqueKeys, LexText, LexOk, Read, ParseValue;
    ReadSound(s, broken);
    var Ok((w, lex), s1) := Read(s, broken);
    var Ok(top, s2) := ParseValue(lex, s1, broken, reject);
    ValueSound(lex, s1, broken, reject);
    IsContainer(lex, s1, broken, reject);
    assert (w + (Render(top) + [])) + s2 == w + (Render(top) + s2);
  }

  lemma IsContainer(lex: Lexeme, s: bytes, broken: bool, reject: bool)
    requires (lex == Punct(LBRACKET) || lex == Punct(LBRACE)) && ParseValue(lex, s, broken, reject).Ok?
    ensures !ParseValue(lex, s, broken, reject).v.Leaf?
  {
    hide Read, ParseElems, ParseMember, ParseMembers, KeyOf;
  }

  /** Whatever NUL-free text the parser accepts is the text of the tree it returns. */
  lemma DocSound(s: bytes, broken: bool, reject: bool)
    requires ParseDoc(s, broken, reject).Ok? && 0 !in s
    ensures var d := ParseDoc(s, broken, reject).v;
            DocOk(d) && RenderDoc(d) == s && !broken && (reject ==> UniqueKeys(d.top))
  {
    hide Render, SynOk, UniqueKeys, Read, ParseValue, AllSpace;
    TopSound(s, broken, reject);
    var Ok(d, s2) := ParseTop(s, broken, reject);
    AtEndSound(s2, broken);
    assert (d.before + (Render(d.top) + [])) + s2 == d.before + (Render(d.top) + s2);
  }

  lemma AtEndSound(s: bytes, broken: bool)
    requires Scan(s, broken).AtEnd?
    ensures AllSpace(s) && !broken
  {
    assert s[..Spaces(s)] == s;
  }

  // ------------------------------------------------------------- completeness

  /** The token a value starts with, and what is left of its text. */
  function FirstLex(syn: Syn): Lexeme {
    match syn
    case Leaf(lex) => lex
    case EmptyArray(_) => Punct(LBRACKET)
    case Array(_, _, _) => Punct(LBRACKET)
    case EmptyObject(_) => Punct(LBRACE)
    case Object(_, _) => Punct(LBRACE)
  }

  function RestText(syn: Syn): bytes {
    match syn
    case Leaf(_) => []
    case EmptyArray(w) => w + [RBRACKET]
    case Array(w, head, tail) => w + (Render(head) + RenderElems(tail))
    case EmptyObject(w) => w + [RBRACE]
    case Object(head, tail) => RenderMember(head) + RenderMembers(tail)
  }

  lemma FirstRest(syn: Syn)
    requires SynShape(syn)
    ensures LexShape(FirstLex(syn)) && Render(syn) == LexText(FirstLex(syn)) + RestText(syn)
  {
    if syn.Leaf? {
      assert LexText(syn.lex) + [] == LexText(syn.lex);
    }
  }

  /** A byte no number or literal swallows. */
  predicate Delimits(s: bytes) {
    s != [] && (IsSpace(s[0]) || IsPunct(s[0]))
  }

  lemma SpaceThenMark(w: bytes, b: byte, k: bytes)
    requires AllSpace(w) && IsPunct(b)
    ensures Delimits(w + ([b] + k))
  {
    if w != [] {
      assert IsSpace(w[0]);
    }
  }

  /** How a text with these faults is received. */
  function Judged<T>(fs: seq<Fault>, ok: Parse<T>): Parse<T> {
    if fs == [] then ok else if fs[0] == NoDigit then Crash else Fail
  }

  lemma ReadComplete(w: bytes, lex: Lexeme, rest: bytes, broken: bool)
    requires AllSpace(w) && LexShape(lex) && (lex.Number? || lex.Literal? ==> Delimits(rest))
    ensures Read(w + (LexText(lex) + rest), broken) == Judged(LexFaults(lex), Ok((w, lex), rest))
  {
    ScanComplete(w, lex, rest, broken);
  }

  lemma ReadMark(w: bytes, b: byte, rest: bytes, broken: bool)
    requires AllSpace(w) && IsPunct(b)
    ensures Read(w + ([b] + rest), broken) == Ok((w, Punct(b)), rest)
  {
    ReadComplete(w, Punct(b), rest, broken);
  }

  /** The first token of a value, whatever white space precedes it. */
  lemma ReadValue(w: bytes, syn: Syn, k: bytes, broken: bool, reject: bool)
    requires AllSpace(w) && SynShape(syn) && Delimits(k)
    ensures Read(w + (Render(syn) + k), broken) == Judged(LexFaults(FirstLex(syn)), Ok((w, FirstLex(syn)), RestText(syn) + k))
    ensures LexFaults(FirstLex(syn)) != [] ==> SynFaults(syn, reject) == LexFaults(FirstLex(syn))
  {
    FirstRest(syn);
    Cat2(LexText(FirstLex(syn)), RestText(syn), k);
    if syn.Leaf? {
      assert RestText(syn) + k == k;
    }
    hide LexFaults;
    ReadComplete(w, FirstLex(syn), RestText(syn) + k, broken);
  }

  lemma ElemsDelimit(e: Elems, k: bytes)
    requires ElemsShape(e)
    ensures Delimits(RenderElems(e) + k)
  {
    match e
    case EndArray(w) =>
      SpaceThenMark(w, RBRACKET, k);
      Cat2(w, [RBRACKET], k);
    case Elem(w, wv, head, tail) =>
      var t := wv + (Render(head) + RenderElems(tail));
      SpaceThenMark(w, COMMA, t + k);
      Cat3(w, [COMMA], t, k);
  }

  lemma MembersDelimit(m: Members, k: bytes)
    requires MembersShape(m)
    ensures Delimits(RenderMembers(m) + k)
  {
    match m
    case EndObject(w) =>
      SpaceThenMark(w, RBRACE, k);
      Cat2(w, [RBRACE], k);
    case More(w, head, tail) =>
      var t := RenderMember(head) + RenderMembers(tail);
      SpaceThenMark(w, COMMA, t + k);
      Cat3(w, [COMMA], t, k);
  }

  /** A value of the grammar, its first token read: the parser takes it as it is, or
      refuses it for its first fault. */
  lemma {:induction false} ValueComplete(syn: Syn, k: bytes, broken: bool, reject: bool)
    requires SynShape(syn) && LexFaults(FirstLex(syn)) == []
    ensures ParseValue(FirstLex(syn), RestText(syn) + k, broken, reject) == Judged(SynFaults(syn, reject), Ok(syn, k))
    decreases syn, 1
  {
    hide LexFaults;
    match syn
    case Leaf(lex) =>
      assert RestText(syn) + k == k;
    case EmptyArray(w) =>
      Cat2(w, [RBRACKET], k);
      ReadMark(w, RBRACKET, k, broken);
    case Array(w, head, tail) =>
      ArrayComplete(w, head, tail, k, broken, reject);
    case EmptyObject(w) =>
      Cat2(w, [RBRACE], k);
      ReadMark(w, RBRACE, k, broken);
    case Object(first, rest) =>
      ObjectComplete(first, rest, k, broken, reject);
  }

  lemma {:induction false} ArrayComplete(w: bytes, head: Syn, tail: Elems, k: bytes, broken: bool, reject: bool)
    requires AllSpace(w) && SynShape(head) && ElemsShape(tail)
    ensures ParseArray((w + (Render(head) + RenderElems(tail))) + k, broken, reject)
         == Judged(SynFaults(head, reject) + ElemsFaults(tail, reject), Ok(Array(w, head, tail), k))
    decreases Array(w, head, tail), 0
  {
    hide LexFaults, SynFaults, ElemsFaults, ParseArray, ParseValue, ParseElems, Read, Delimits, Render, RenderElems, RestText;
    var k1 := RenderElems(tail) + k;
    Cat3(w, Render(head), RenderElems(tail), k);
    ElemsDelimit(tail, k);
    ReadValue(w, head, k1, broken, reject);
    if LexFaults(FirstLex(head)) == [] {
      ValueComplete(head, k1, broken, reject);
      ElemsComplete(tail, k, broken, reject);
    }
    ArrayJudged(w + (Render(head) + k1), RestText(head) + k1, k1, k, w, head, tail, broken, reject);
  }

  /** An array, put together from what becomes of its parts. */
  lemma ArrayJudged(s: bytes, s1: bytes, s2: bytes, k: bytes, w: bytes, head: Syn, tail: Elems, broken: bool, reject: bool)
    requires SynShape(head) && Read(s, broken) == Judged(LexFaults(FirstLex(head)), Ok((w, FirstLex(head)), s1))
    requires LexFaults(FirstLex(head)) != [] ==> SynFaults(head, reject) == LexFaults(FirstLex(head))
    requires LexFaults(FirstLex(head)) == [] ==>
               && ParseValue(FirstLex(head), s1, broken, reject) == Judged(SynFaults(head, reject), Ok(head, s2))
               && ParseElems(s2, broken, reject) == Judged(ElemsFaults(tail, reject), Ok(tail, k))
    ensures ParseArray(s, broken, reject) == Judged(SynFaults(head, reject) + ElemsFaults(tail, reject), Ok(Array(w, head, tail), k))
  {
    hide Read, ParseValue, ParseElems, LexFaults, SynFaults, ElemsFaults, NumFits, DecodeUnits;
  }

  lemma {:induction false} ElemsComplete(e: Elems, k: bytes, broken: bool, reject: bool)
    requires ElemsShape(e)
    ensures ParseElems(RenderElems(e) + k, broken, reject) == Judged(ElemsFaults(e, reject), Ok(e, k))
    decreases e
  {
    match e
    case EndArray(w) =>
      hide Read;
      Cat2(w, [RBRACKET], k);
      ReadMark(w, RBRACKET, k, broken);
    case Elem(w, wv, head, tail) =>
      hide LexFaults, SynFaults, ParseElems, ParseValue, Read, Delimits, Render, RestText;
      var k1 := RenderElems(tail) + k;
      Cat5(w, [COMMA], wv, Render(head), RenderElems(tail), k);
      ReadMark(w, COMMA, wv + (Render(head) + k1), broken);
      ElemsDelimit(tail, k);
      ReadValue(wv, head, k1, broken, reject);
      if LexFaults(FirstLex(head)) == [] {
        ValueComplete(head, k1, broken, reject);
        ElemsComplete(tail, k, broken, reject);
      }
      ElemJudged(RenderElems(e) + k, wv + (Render(head) + k1), RestText(head) + k1, k1, k, w, wv, head, tail, broken, reject);
  }

  /** A further element, put together from what becomes of its parts. */
  lemma ElemJudged(s: bytes, s1: bytes, s2: bytes, s3: bytes, k: bytes, w: bytes, wv: bytes, head: Syn, tail: Elems, broken: bool, reject: bool)
    requires SynShape(head) && Read(s, broken) == Ok((w, Punct(COMMA)), s1)
    requires Read(s1, broken) == Judged(LexFaults(FirstLex(head)), Ok((wv, FirstLex(head)), s2))
    requires LexFaults(FirstLex(head)) != [] ==> SynFaults(head, reject) == LexFaults(FirstLex(head))
    requires LexFaults(FirstLex(head)) == [] ==>
               && ParseValue(FirstLex(head), s2, broken, reject) == Judged(SynFaults(head, reject), Ok(head, s3))
               && ParseElems(s3, broken, reject) == Judged(ElemsFaults(tail, reject), Ok(tail, k))
    ensures ParseElems(s, broken, reject) == Judged(ElemsFaults(Elem(w, wv, head, tail), reject), Ok(Elem(w, wv, head, tail), k))
  {
    hide Read, ParseValue, LexFaults, SynFaults;
  }

  /** What follows the key of a member. */
  function AfterKey(m: Member): bytes { m.wc + ([COLON] + (m.wv + Render(m.value))) }

  lemma ReadKey(m: Member, k: bytes, broken: bool)
    requires MemberShape(m)
    ensures Read(RenderMember(m) + k, broken) == Judged(UnitFaults(m.key), Ok((m.wk, Str(m.key)), AfterKey(m) + k))
  {
    Cat3(m.wk, LexText(Str(m.key)), AfterKey(m), k);
    ReadComplete(m.wk, Str(m.key), AfterKey(m) + k, broken);
  }

  lemma {:induction false} MemberComplete(m: Member, k: bytes, broken: bool, reject: bool, keys: set<bytes>)
    requires MemberShape(m) && Delimits(k)
    ensures ParseMember(m.wk, Str(m.key), AfterKey(m) + k, broken, reject, keys)
         == Judged(Repeats(m.key, reject, keys) + SynFaults(m.value, reject), Ok(m, k))
    decreases m
  {
    hide LexFaults, SynFaults, KeyOf, Repeats, ParseMember, ParseValue, Read, Delimits, Render, RestText;
    Regroup(m.wc, [COLON], m.wv, Render(m.value), k);
    ReadMark(m.wc, COLON, m.wv + (Render(m.value) + k), broken);
    ReadValue(m.wv, m.value, k, broken, reject);
    if LexFaults(FirstLex(m.value)) == [] {
      ValueComplete(m.value, k, broken, reject);
    }
    MemberJudged(AfterKey(m) + k, m.wv + (Render(m.value) + k), RestText(m.value) + k, k, m, broken, reject, keys);
  }

  /** What follows a key, put together from what becomes of its parts. */
  lemma MemberJudged(s: bytes, s1: bytes, s2: bytes, k: bytes, m: Member, broken: bool, reject: bool, keys: set<bytes>)
    requires SynShape(m.value) && Read(s, broken) == Ok((m.wc, Punct(COLON)), s1)
    requires Read(s1, broken) == Judged(LexFaults(FirstLex(m.value)), Ok((m.wv, FirstLex(m.value)), s2))
    requires LexFaults(FirstLex(m.value)) != [] ==> SynFaults(m.value, reject) == LexFaults(FirstLex(m.value))
    requires LexFaults(FirstLex(m.value)) == [] ==>
               ParseValue(FirstLex(m.value), s2, broken, reject) == Judged(SynFaults(m.value, reject), Ok(m.value, k))
    ensures ParseMember(m.wk, Str(m.key), s, broken, reject, keys)
         == Judged(Repeats(m.key, reject, keys) + SynFaults(m.value, reject), Ok(m, k))
  {
    hide Read, ParseValue, LexFaults, SynFaults, KeyOf;
  }

  lemma {:induction false} ObjectComplete(first: Member, rest: Members, k: bytes, broken: bool, reject: bool)
    requires MemberShape(first) && MembersShape(rest)
    ensures ParseObject((RenderMember(first) + RenderMembers(rest)) + k, broken, reject)
         == Judged(SynFaults(Object(first, rest), reject), Ok(Object(first, rest), k))
    decreases Object(first, rest), 0
  {
    hide UnitFaults, SynFaults, MembersFaults, KeyOf, Repeats, ParseObject, ParseMember, ParseMembers, Read, RenderMember, AfterKey, Delimits;
    var k1 := RenderMembers(rest) + k;
    Cat2(RenderMember(first), RenderMembers(rest), k);
    MembersDelimit(rest, k);
    ReadKey(first, k1, broken);
    if UnitFaults(first.key) == [] {
      MemberComplete(first, k1, broken, reject, {});
      MembersComplete(rest, k, broken, reject, {KeyOf(first.key)});
    }
    ObjectJudged(RenderMember(first) + k1, AfterKey(first) + k1, k1, k, first, rest, broken, reject);
  }

  /** An object, put together from what becomes of its parts. */
  lemma ObjectJudged(s: bytes, s1: bytes, s2: bytes, k: bytes, first: Member, rest: Members, broken: bool, reject: bool)
    requires Read(s, broken) == Judged(UnitFaults(first.key), Ok((first.wk, Str(first.key)), s1))
    requires UnitFaults(first.key) == [] ==>
               && ParseMember(first.wk, Str(first.key), s1, broken, reject, {})
                  == Judged(Repeats(first.key, reject, {}) + SynFaults(first.value, reject), Ok(first, s2))
               && ParseMembers(s2, broken, reject, {KeyOf(first.key)})
                  == Judged(MembersFaults(rest, reject, {KeyOf(first.key)}), Ok(rest, k))
    ensures ParseObject(s, broken, reject) == Judged(SynFaults(Object(first, rest), reject), Ok(Object(first, rest), k))
  {
    hide Read, ParseMember, ParseMembers, UnitFaults, MembersFaults, Repeats, KeyOf;
    assert SynFaults(Object(first, rest), reject)
           == (UnitFaults(first.key) + (Repeats(first.key, reject, {}) + SynFaults(first.value, reject)))
              + MembersFaults(rest, reject, {KeyOf(first.key)});
    hide SynFaults, MemberFaults;
  }

  lemma {:induction false} MembersComplete(m: Members, k: bytes, broken: bool, reject: bool, keys: set<bytes>)
    requires MembersShape(m)
    ensures ParseMembers(RenderMembers(m) + k, broken, reject, keys) == Judged(MembersFaults(m, reject, keys), Ok(m, k))
    decreases m
  {
    match m
    case EndObject(w) =>
      hide Read;
      Cat2(w, [RBRACE], k);
      ReadMark(w, RBRACE, k, broken);
    case More(w, head, tail) =>
      hide UnitFaults, KeyOf, Repeats, ParseMember, ParseMembers, Read, RenderMember, AfterKey, Delimits;
      var k1 := RenderMembers(tail) + k;
      Regroup(w, [COMMA], RenderMember(head), RenderMembers(tail), k);
      ReadMark(w, COMMA, RenderMember(head) + k1, broken);
      MembersDelimit(tail, k);
      ReadKey(head, k1, broken);
      if UnitFaults(head.key) == [] {
        MemberComplete(head, k1, broken, reject, keys);
        MembersComplete(tail, k, broken, reject, keys + {KeyOf(head.key)});
      }
      MoreJudged(RenderMembers(m) + k, RenderMember(head) + k1, AfterKey(head) + k1, k1, k, w, head, tail, broken, reject, keys);
  }

  /** A further member, put together from what becomes of its parts. */
  lemma MoreJudged(s: bytes, s1: bytes, s2: bytes, s3: bytes, k: bytes, w: bytes, head: Member, tail: Members,
                   broken: bool, reject: bool, keys: set<bytes>)
    requires Read(s, broken) == Ok((w, Punct(COMMA)), s1)
    requires Read(s1, broken) == Judged(UnitFaults(head.key), Ok((head.wk, Str(head.key)), s2))
    requires UnitFaults(head.key) == [] ==>
               && ParseMember(head.wk, Str(head.key), s2, broken, reject, keys)
                  == Judged(Repeats(head.key, reject, keys) + SynFaults(head.value, reject), Ok(head, s3))
               && ParseMembers(s3, broken, reject, keys + {KeyOf(head.key)})
                  == Judged(MembersFaults(tail, reject, keys + {KeyOf(head.key)}), Ok(tail, k))
    ensures ParseMembers(s, broken, reject, keys) == Judged(MembersFaults(More(w, head, tail), reject, keys), Ok(More(w, head, tail), k))
  {
    hide Read, ParseMember, UnitFaults, SynFaults, Repeats, KeyOf;
  }

  /** What becomes of any text of the grammar: it is read as exactly its own tree, or refused
      for its first fault. */
  lemma DocJudged(d: Doc, reject: bool)
    requires DocShape(d)
    ensures ParseDoc(RenderDoc(d), false, reject) == Judged(SynFaults(d.top, reject), Ok(d, []))
  {
    hide SynFaults, ParseValue;
    FirstRest(d.top);
    Cat2(LexText(FirstLex(d.top)), RestText(d.top), d.after);
    ReadComplete(d.before, FirstLex(d.top), RestText(d.top) + d.after, false);
    ValueComplete(d.top, d.after, false, reject);
    SpacesComplete(d.after, []);
    assert d.after + [] == d.after;
  }

  /** Every document is accepted, and read as exactly its own tree. */
  lemma DocComplete(d: Doc, reject: bool)
    requires DocOk(d) && (reject ==> UniqueKeys(d.top))
    ensures ParseDoc(RenderDoc(d), false, reject) == Ok(d, [])
  {
    SynFaultless(d.top, reject);
    DocJudged(d, reject);
  }

  /** On NUL-free text the parser is the grammar: it accepts a text exactly when the text
      is that of a document, and then returns that document. */
  lemma ParserIsGrammar(s: bytes, reject: bool, d: Doc)
    requires 0 !in s
    ensures ParseDoc(s, false, reject) == Ok(d, []) <==>
            DocOk(d) && RenderDoc(d) == s && (reject ==> UniqueKeys(d.top))
  {
    if ParseDoc(s, false, reject).Ok? {
      DocSound(s, false, reject);
    }
    if DocOk(d) && RenderDoc(d) == s && (reject ==> UniqueKeys(d.top)) {
      DocComplete(d, reject);
    }
  }

  // ---------------------------------------------- without the end-of-file check

  /** A document is read, or judged by its first fault, whatever follows it. */
  lemma TopJudged(d: Doc, k: bytes, broken: bool, reject: bool)
    requires DocShape(d) && d.after == []
    ensures ParseTop(RenderDoc(d) + k, broken, reject) == Judged(SynFaults(d.top, reject), Ok(d, k))
  {
    hide SynFaults, ParseValue;
    FirstRest(d.top);
    var lex, t := FirstLex(d.top), RestText(d.top);
    assert RenderDoc(d) + k == d.before + (LexText(lex) + (t + k));
    ReadComplete(d.before, lex, t + k, broken);
    ValueComplete(d.top, k, broken, reject);
  }

  /** With the check off the parser reads exactly the texts that start with a document. */
  lemma PrefixIsGrammar(s: bytes, broken: bool, reject: bool, d: Doc, k: bytes)
    requires 0 !in s && d.after == []
    ensures ParseTop(s, broken, reject) == Ok(d, k) <==>
            DocOk(d) && RenderDoc(d) + k == s && (reject ==> UniqueKeys(d.top))
  {
    hide ParseTop, RenderDoc;
    if ParseTop(s, broken, reject).Ok? {
      TopSound(s, broken, reject);
    }
    if DocOk(d) && RenderDoc(d) + k == s && (reject ==> UniqueKeys(d.top)) {
      SynFaultless(d.top, reject);
      TopJudged(d, k, broken, reject);
    }
  }
}
