/**
  The recursive descent of load.c over a lexer object and the reference-counted heap. Each
  method builds nodes for the value that the syntax tree of module Parsing means, and fails or
  aborts where that function does; what a failed parse had built is gone again.
 */
module Parser {
  import opened Bytes
  import opened ByteStream
  import opened Grammar
  import opened Lexing
  import opened Meaning
  import opened Nodes
  import opened Parsing
  import opened Scanning
  import R = References
  import Utf8
  import V = Values

  /** The value of the node returned, a NULL return, or a failed assertion. */
  datatype Outcome = Parsed(value: V.Value) | Rejected | Aborted

  /** What a method returns for these. */
  datatype Reply = Node(ref: R.Ref) | NoNode | Abort

  /** What a parse amounts to. */
  function OutcomeOf(p: Parse<V.Value>): Outcome {
    match p
    case Ok(v, _) => Parsed(v)
    case Fail => Rejected
    case Crash => Aborted
  }

  function Valued(p: Parse<Syn>): Parse<V.Value> {
    match p
    case Ok(syn, rest) => Ok(ValueOf(syn), rest)
    case Fail => Fail
    case Crash => Crash
  }

  /** The length of the input after a token, or 0. */
  function Left(r: Scanned): nat { if r.Tok? then |r.rest| + 1 else 0 }

  lemma LeftLess(s: bytes, broken: bool)
    ensures Left(Scan(s, broken)) <= |s|
  {
    hide Scan;
    if Scan(s, broken).Tok? {
      ScanSound(s, broken);
    }
  }

  /** A value whose first token has been read. */
  function ValueFrom(r: Scanned, broken: bool, reject: bool): Parse<Syn> {
    match r
    case Tok(_, lex, rest) => ParseValue(lex, rest, broken, reject)
    case Aborts => Crash
    case _ => Fail
  }

  // ------------------------------------------------------------------ arrays

  /** The array's items, given those already appended, from after a value on. */
  function ItemsAfter(items: seq<V.Value>, s: bytes, broken: bool, reject: bool): Parse<V.Value> {
    match ParseElems(s, broken, reject)
    case Ok(tail, rest) => Ok(V.Array(ElemValues(items, tail)), rest)
    case Fail => Fail
    case Crash => Crash
  }

  /** The same from a value's first token on. */
  function ItemsFrom(items: seq<V.Value>, r: Scanned, broken: bool, reject: bool): Parse<V.Value> {
    match ValueFrom(r, broken, reject)
    case Ok(syn, rest) => ItemsAfter(items + [ValueOf(syn)], rest, broken, reject)
    case Fail => Fail
    case Crash => Crash
  }

  lemma ArrayStart(s: bytes, broken: bool, reject: bool)
    ensures Valued(ParseArray(s, broken, reject)) ==
            match Scan(s, broken)
            case Tok(_, lex, rest) =>
              if lex == Punct(RBRACKET) then Ok(V.Array([]), rest) else ItemsFrom([], Scan(s, broken), broken, reject)
            case _ => ItemsFrom([], Scan(s, broken), broken, reject)
  {
    hide Scan;
    var r := Scan(s, broken);
    if r.Tok? && r.lex != Punct(RBRACKET) {
      match ParseValue(r.lex, r.rest, broken, reject)
      case Ok(head, s2) =>
        assert [] + [ValueOf(head)] == [ValueOf(head)];
      case _ =>
    }
  }

  lemma ItemsStep(items: seq<V.Value>, s: bytes, broken: bool, reject: bool)
    ensures ItemsAfter(items, s, broken, reject) ==
            match Scan(s, broken)
            case Tok(_, lex, rest) =>
              if lex == Punct(RBRACKET) then Ok(V.Array(items), rest)
              else if lex == Punct(COMMA) then ItemsFrom(items, Scan(rest, broken), broken, reject)
              else Fail
            case Aborts => Crash
            case _ => Fail
  {
    hide Scan;
  }

  lemma FirstItem(items: seq<V.Value>, r: Scanned, broken: bool, reject: bool)
    ensures ItemsFrom(items, r, broken, reject) ==
            match ValueFrom(r, broken, reject)
            case Ok(syn, rest) => ItemsAfter(items + [ValueOf(syn)], rest, broken, reject)
            case Fail => Fail
            case Crash => Crash
    ensures ValueFrom(r, broken, reject).Ok? ==> |ValueFrom(r, broken, reject).rest| < Left(r)
  {
  }

  /** The heap and the reply are those of an outcome: a node for the value, held by the caller and
      new but for singletons, or a heap as it was before. */
  ghost predicate Came(was: Heap, now: Heap, reply: Reply, out: Outcome) {
    match out
    case Parsed(v) => reply.Node? && Made(was, now, reply.ref, v)
    case Rejected => reply == NoNode && Restored(was, now)
    case Aborted => reply == Abort
  }

  /** The parse ended as p says, with the bytes it leaves still to be read. */
  ghost predicate Ended(left: bytes, was: Heap, now: Heap, reply: Reply, p: Parse<V.Value>) {
    Came(was, now, reply, OutcomeOf(p)) && (p.Ok? ==> left == p.rest)
  }

  /** How a parse ends that makes nothing, that aborts, and that makes a node. */
  lemma Ends(left: bytes, was: Heap, now: Heap, p: Parse<V.Value>)
    ensures p.Fail? && Restored(was, now) ==> Ended(left, was, now, NoNode, p)
    ensures p.Crash? ==> Ended(left, was, now, Abort, p)
    ensures forall q :: p.Ok? && left == p.rest && Made(was, now, q, p.v) ==> Ended(left, was, now, Node(q), p)
  {
  }

  ghost function Broken(lexer: Lexer): bool { lexer.stream.End() == ERROR }

  method ParseValueAt(lexer: Lexer, m: R.Memory, reject: bool, ghost r: Scanned) returns (reply: Reply)
    requires lexer.Scanned(r) && m.Valid()
    modifies lexer, lexer.stream, lexer.stream.buffer, m
    ensures lexer.stream.Valid()
    ensures Ended(lexer.stream.rest, old(Now(m)), Now(m), reply, Valued(ValueFrom(r, Broken(lexer), reject)))
    decreases Left(r), 2
  {
    hide Stream.Valid, Made, R.State;
    match lexer.token {
      case String(text) => reply := MakeLeaf(m, V.String(text));
      case Integer(n) => reply := MakeLeaf(m, V.Integer(n));
      case Real(text) => reply := MakeLeaf(m, V.Real(text));
      case Word(True) => reply := MakeLeaf(m, V.True);
      case Word(False) => reply := MakeLeaf(m, V.False);
      case Word(Null) => reply := MakeLeaf(m, V.Null);
      case Mark(b) =>
        if b == LBRACE {
          reply := ParseObjectAt(lexer, m, reject, r.rest);
        } else if b == LBRACKET {
          reply := ParseArrayAt(lexer, m, reject, r.rest);
        } else {
          reply := NoNode;
        }
      case Crashed => reply := Abort;
      case _ => reply := NoNode;
    }
  }

  /** A node for a value that is no container: one of its own, or a singleton. */
  method MakeLeaf(m: R.Memory, v: V.Value) returns (reply: Reply)
    requires m.Valid() && !v.Array? && !v.Object?
    modifies m
    ensures reply.Node? && Made(old(Now(m)), Now(m), reply.ref, v)
  {
    hide R.State, Made;
    var q := match v case True => R.TRUE_REF case False => R.FALSE_REF case _ => R.NULL_REF;
    if v.True? || v.False? || v.Null? {
      Share(m, q, v);
    } else {
      q := Make(m, R.Scalar(v), v);
    }
    reply := Node(q);
  }

  lemma Untouched(h: Heap)
    requires Right(h)
    ensures Restored(h, h)
  {
  }

  /** What the loops over elements and members end with: another token, and if it is a comma the
      one after it. */
  method NextItem(lexer: Lexer, ghost s: bytes) returns (more: bool, ghost r: Scanned)
    requires lexer.stream.Valid() && lexer.stream.rest == s
    modifies lexer, lexer.stream, lexer.stream.buffer
    ensures lexer.stream.Valid() && lexer.token == TokenOf(r) && (r.Tok? ==> lexer.stream.rest == r.rest)
    ensures var t := Scan(s, Broken(lexer));
            && (more <==> t.Tok? && t.lex == Punct(COMMA))
            && (if more then r == Scan(t.rest, Broken(lexer)) && Left(r) < |s| else r == t)
  {
    hide Stream.Valid, Scan;
    ghost var broken := Broken(lexer);
    r := Scan(s, broken);
    LeftLess(s, broken);
    lexer.Scan();
    more := lexer.token == Mark(COMMA);
    if more {
      ghost var t := lexer.stream.rest;
      LeftLess(t, broken);
      r := Scan(t, broken);
      lexer.Scan();
    }
  }

  /** json_decref of a container that cannot be finished, as what should come next cannot be made. */
  method GiveUp(m: R.Memory, a: R.Ref, ghost was: Heap, ghost mid: Heap, ghost v: V.Value)
    requires Right(was) && Made(was, mid, a, v) && Restored(mid, Now(m)) && (v.Array? || v.Object?)
    modifies m
    ensures Restored(was, Now(m))
  {
    hide R.State, Grown;
    ContainerIsHigh(was, mid, a, v);
    MadeStill(was, mid, Now(m), a, v);
    Undo(m, a, was);
  }

  /** The end of a container: the right bracket, or it is given up. */
  method Close(m: R.Memory, a: R.Ref, token: Token, bracket: byte, ghost was: Heap, ghost v: V.Value) returns (reply: Reply)
    requires Right(was) && Made(was, Now(m), a, v) && (v.Array? || v.Object?)
    modifies m
    ensures token == Mark(bracket) ==> reply == Node(a) && Made(was, Now(m), a, v)
    ensures token != Mark(bracket) && token != Crashed ==> reply == NoNode && Restored(was, Now(m))
    ensures token == Crashed ==> reply == Abort
  {
    hide R.State, Made, Restored;
    if token == Crashed {
      return Abort;
    }
    if token != Mark(bracket) {
      MadeRight(was, Now(m), a, v);
      Untouched(Now(m));
      GiveUp(m, a, was, Now(m), v);
      return NoNode;
    }
    reply := Node(a);
  }

  /** What comes of the parse of an element. */
  lemma ElementRead(items: seq<V.Value>, r: Scanned, broken: bool, reject: bool, left: bytes, was: Heap, now: Heap, reply: Reply)
    requires Ended(left, was, now, reply, Valued(ValueFrom(r, broken, reject)))
    ensures var p, goal := Valued(ValueFrom(r, broken, reject)), ItemsFrom(items, r, broken, reject);
            && (reply == Abort ==> goal == Crash)
            && (reply == NoNode ==> goal == Fail && Restored(was, now))
            && (reply.Node? ==> && p.Ok? && |left| < Left(r) && Made(was, now, reply.ref, p.v)
                                && goal == ItemsAfter(items + [p.v], left, broken, reject))
  {
    hide Made, Restored, ValueFrom, ItemsAfter, ItemsFrom;
    FirstItem(items, r, broken, reject);
  }

  /** An element, its first token already read, appended to the array; else the array is given up. */
  method ItemInto(lexer: Lexer, m: R.Memory, reject: bool, a: R.Ref, ghost was: Heap, ghost items: seq<V.Value>, ghost r: Scanned)
      returns (reply: Reply, ghost more: seq<V.Value>)
    requires lexer.Scanned(r) && Right(was) && Made(was, Now(m), a, V.Array(items))
    modifies lexer, lexer.stream, lexer.stream.buffer, m
    ensures lexer.stream.Valid()
    ensures var goal := ItemsFrom(items, r, Broken(lexer), reject);
            && (reply == Abort ==> goal == Crash)
            && (reply == NoNode ==> goal == Fail && Restored(was, Now(m)))
            && (reply.Node? ==> && |lexer.stream.rest| < Left(r) && Made(was, Now(m), a, V.Array(more))
                                && goal == ItemsAfter(more, lexer.stream.rest, Broken(lexer), reject))
    decreases Left(r), 3
  {
    hide Stream.Valid, Scan, ValueFrom, ItemsFrom, ItemsAfter, Made, Restored, Ended, R.State;
    ghost var mid, broken := Now(m), Broken(lexer);
    MadeRight(was, mid, a, V.Array(items));
    reply := ParseValueAt(lexer, m, reject, r);
    ElementRead(items, r, broken, reject, lexer.stream.rest, mid, Now(m), reply);
    more := items;
    if reply == NoNode {
      GiveUp(m, a, was, mid, V.Array(items));
    } else if reply.Node? {
      ghost var v := Valued(ValueFrom(r, broken, reject)).v;
      AppendMade(m, a, reply.ref, was, mid, items, v);
      more := items + [v];
    }
  }

  method ParseArrayAt(lexer: Lexer, m: R.Memory, reject: bool, ghost s: bytes) returns (reply: Reply)
    requires lexer.stream.Valid() && lexer.stream.rest == s && m.Valid()
    modifies lexer, lexer.stream, lexer.stream.buffer, m
    ensures lexer.stream.Valid()
    ensures Ended(lexer.stream.rest, old(Now(m)), Now(m), reply, Valued(ParseArray(s, Broken(lexer), reject)))
    decreases |s| + 1, 1
  {
    hide Stream.Valid, Scan, ParseArray, ValueFrom, ItemsFrom, ItemsAfter, Made, Restored, Ended, R.State;
    ghost var broken := Broken(lexer);
    ghost var goal := Valued(ParseArray(s, broken, reject));
    ghost var was := Now(m);
    var a := Make(m, R.ArrayNode, V.Array([]));
    ArrayStart(s, broken, reject);
    lexer.Scan();
    if lexer.token == Mark(RBRACKET) {
      Ends(lexer.stream.rest, was, Now(m), goal);
      return Node(a);
    }
    ghost var items := [];
    ghost var r := Scan(s, broken);
    LeftLess(s, broken);
    while true
      invariant lexer.Scanned(r) && Left(r) <= |s|
      invariant Made(was, Now(m), a, V.Array(items))
      invariant goal == ItemsFrom(items, r, broken, reject)
      decreases Left(r)
    {
      reply, items := ItemInto(lexer, m, reject, a, was, items, r);
      if !reply.Node? {
        Ends(lexer.stream.rest, was, Now(m), goal);
        return;
      }
      ghost var s1 := lexer.stream.rest;
      ItemsStep(items, s1, broken, reject);
      var more;
      more, r := NextItem(lexer, s1);
      if !more {
        break;
      }
    }
    reply := Close(m, a, lexer.token, RBRACKET, was, V.Array(items));
    Ends(lexer.stream.rest, was, Now(m), goal);
  }

  // ----------------------------------------------------------------- objects

  /** The object's entries, given those already set, from after a member on. */
  function EntriesAfter(es: seq<V.Entry>, serial: nat, s: bytes, broken: bool, reject: bool, keys: set<bytes>): Parse<V.Value> {
    match ParseMembers(s, broken, reject, keys)
    case Ok(tail, rest) => Ok(V.Object(MemberValues(es, serial, tail)), rest)
    case Fail => Fail
    case Crash => Crash
  }

  function MemberFrom(r: Scanned, broken: bool, reject: bool, keys: set<bytes>): Parse<Member> {
    match r
    case Tok(w, lex, rest) => ParseMember(w, lex, rest, broken, reject, keys)
    case Aborts => Crash
    case _ => Fail
  }

  /** The same from a key's token on. */
  function EntriesFrom(es: seq<V.Entry>, serial: nat, r: Scanned, broken: bool, reject: bool, keys: set<bytes>): Parse<V.Value> {
    match MemberFrom(r, broken, reject, keys)
    case Ok(m, rest) =>
      EntriesAfter(V.Set(es, serial, KeyOf(m.key), ValueOf(m.value)), serial + 1, rest, broken, reject, keys + {KeyOf(m.key)})
    case Fail => Fail
    case Crash => Crash
  }

  lemma ObjectStart(s: bytes, broken: bool, reject: bool)
    ensures Valued(ParseObject(s, broken, reject)) ==
            match Scan(s, broken)
            case Tok(_, lex, rest) =>
              if lex == Punct(RBRACE) then Ok(V.Object([]), rest) else EntriesFrom([], 0, Scan(s, broken), broken, reject, {})
            case _ => EntriesFrom([], 0, Scan(s, broken), broken, reject, {})
  {
    hide Scan, ParseMember, ParseMembers, KeyOf, V.Set;
    var r := Scan(s, broken);
    if r.Tok? && r.lex != Punct(RBRACE) {
      match ParseMember(r.w, r.lex, r.rest, broken, reject, {})
      case Ok(m, s2) =>
        assert {} + {KeyOf(m.key)} == {KeyOf(m.key)};
      case _ =>
    }
  }

  lemma EntriesStep(es: seq<V.Entry>, serial: nat, s: bytes, broken: bool, reject: bool, keys: set<bytes>)
    ensures EntriesAfter(es, serial, s, broken, reject, keys) ==
            match Scan(s, broken)
            case Tok(_, lex, rest) =>
              if lex == Punct(RBRACE) then Ok(V.Object(es), rest)
              else if lex == Punct(COMMA) then EntriesFrom(es, serial, Scan(rest, broken), broken, reject, keys)
              else Fail
            case Aborts => Crash
            case _ => Fail
  {
    hide Scan, ParseMember;
  }

  lemma FirstEntry(es: seq<V.Entry>, serial: nat, r: Scanned, broken: bool, reject: bool, keys: set<bytes>)
    ensures EntriesFrom(es, serial, r, broken, reject, keys) ==
            match MemberFrom(r, broken, reject, keys)
            case Ok(m, rest) =>
              EntriesAfter(V.Set(es, serial, KeyOf(m.key), ValueOf(m.value)), serial + 1, rest, broken, reject, keys + {KeyOf(m.key)})
            case Fail => Fail
            case Crash => Crash
    ensures MemberFrom(r, broken, reject, keys).Ok? ==> |MemberFrom(r, broken, reject, keys).rest| < Left(r)
  {
  }

  lemma SetKeys(es: seq<V.Entry>, serial: nat, key: bytes, value: V.Value)
    ensures V.KeySet(V.Set(es, serial, key, value)) == V.KeySet(es) + {key}
  {
    var r := V.Set(es, serial, key, value);
    var i := V.Find(es, key);
    if i >= 0 {
      assert es[i] in es;
      assert forall j :: 0 <= j < |es| ==> r[j].key == es[j].key;
      assert forall k <- V.KeySet(es) :: k in V.KeySet(r) by {
        forall k <- V.KeySet(es)
          ensures k in V.KeySet(r)
        {
          var j :| 0 <= j < |es| && es[j].key == k;
          assert r[j] in r;
        }
      }
    } else {
      assert r[|es|] in r;
      assert forall e <- es :: e in r;
    }
  }

  /** The same for a key and a value. */
  ghost predicate MemberEnded(left: bytes, key: bytes, was: Heap, now: Heap, reply: Reply, p: Parse<Member>) {
    match p
    case Ok(m, rest) => Came(was, now, reply, Parsed(ValueOf(m.value))) && key == KeyOf(m.key) && left == rest
    case Fail => Came(was, now, reply, Rejected)
    case Crash => reply == Abort
  }

  lemma MemberFails(left: bytes, key: bytes, was: Heap, p: Parse<Member>)
    requires Restored(was, was)
    ensures p.Fail? ==> MemberEnded(left, key, was, was, NoNode, p)
    ensures p.Crash? ==> MemberEnded(left, key, was, was, Abort, p)
  {
  }

  /** A member of this key goes as its value does. */
  ghost predicate GoesAs(p: Parse<Member>, key: bytes, v: Parse<Syn>) {
    if v.Ok? then p.Ok? && p.rest == v.rest && p.v.value == v.v && key == KeyOf(p.v.key)
    else if v.Fail? then p.Fail? else p.Crash?
  }

  /** What parse_object asks of the tokens of a member. */
  lemma MemberSteps(r: Scanned, broken: bool, reject: bool, keys: set<bytes>)
    ensures var goal := MemberFrom(r, broken, reject, keys);
            if !r.Tok? || !r.lex.Str? then goal == if r.Aborts? then Crash else Fail
            else if reject && KeyOf(r.lex.units) in keys then goal == Fail
            else
              var t := Scan(r.rest, broken);
              if !t.Tok? || t.lex != Punct(COLON) then goal == if t.Aborts? then Crash else Fail
              else GoesAs(goal, KeyOf(r.lex.units), ValueFrom(Scan(t.rest, broken), broken, reject))
  {
    hide Scan, ParseValue, KeyOf;
  }

  lemma MemberGoesOn(left: bytes, key: bytes, was: Heap, now: Heap, reply: Reply, p: Parse<Member>, v: Parse<Syn>)
    requires Ended(left, was, now, reply, Valued(v)) && GoesAs(p, key, v)
    ensures MemberEnded(left, key, was, now, reply, p)
  {
  }

  /** One key, colon and value of parse_object, the key's token already read. */
  method ParseMemberAt(lexer: Lexer, m: R.Memory, reject: bool, a: R.Ref, ghost es: seq<V.Entry>, ghost r: Scanned)
      returns (key: bytes, reply: Reply)
    requires lexer.Scanned(r) && m.Valid() && Stands(m.cells, a, V.Object(es))
    modifies lexer, lexer.stream, lexer.stream.buffer, m
    ensures lexer.stream.Valid()
    ensures MemberEnded(lexer.stream.rest, key, old(Now(m)), Now(m), reply, MemberFrom(r, Broken(lexer), reject, V.KeySet(es)))
    decreases Left(r), 3
  {
    hide Stream.Valid, Scan, ParseValue, ValueOf, KeyOf, V.KeySet, Made, Restored, R.State, Stands, MemberEnded, Ended, MemberFrom, ValueFrom, GoesAs;
    ghost var broken, was := Broken(lexer), Now(m);
    ghost var goal := MemberFrom(r, broken, reject, V.KeySet(es));
    Untouched(was);
    MemberSteps(r, broken, reject, V.KeySet(es));
    key := [];
    if !lexer.token.String? {
      MemberFails(lexer.stream.rest, key, was, goal);
      return key, if lexer.token == Crashed then Abort else NoNode;
    }
    key := lexer.token.text;
    KeyThere(m.cells, a, es, key);
    if reject && R.FindSlot(m.cells[a].slots, key) >= 0 {
      MemberFails(lexer.stream.rest, key, was, goal);
      return key, NoNode;
    }
    LeftLess(r.rest, broken);
    lexer.Scan();
    if lexer.token != Mark(COLON) {
      MemberFails(lexer.stream.rest, key, was, goal);
      return key, if lexer.token == Crashed then Abort else NoNode;
    }
    ghost var s := lexer.stream.rest;
    LeftLess(s, broken);
    lexer.Scan();
    reply := ParseValueAt(lexer, m, reject, Scan(s, broken));
    MemberGoesOn(lexer.stream.rest, key, was, Now(m), reply, goal, ValueFrom(Scan(s, broken), broken, reject));
  }

  lemma KeyThere(c: R.Cells, a: R.Ref, es: seq<V.Entry>, key: bytes)
    requires Stands(c, a, V.Object(es))
    ensures a in c && (R.FindSlot(c[a].slots, key) >= 0 <==> key in V.KeySet(es))
  {
    var i := R.FindSlot(c[a].slots, key);
    if i >= 0 {
      assert es[i] in es;
    }
    if key in V.KeySet(es) {
      var j :| 0 <= j < |es| && es[j].key == key;
      assert c[a].slots[j].key == key;
    }
  }

  /** What comes of the parse of a member. */
  lemma MemberRead(es: seq<V.Entry>, serial: nat, r: Scanned, broken: bool, reject: bool, left: bytes, key: bytes,
                   was: Heap, now: Heap, reply: Reply)
    requires MemberEnded(left, key, was, now, reply, MemberFrom(r, broken, reject, V.KeySet(es)))
    ensures var p, goal := MemberFrom(r, broken, reject, V.KeySet(es)), EntriesFrom(es, serial, r, broken, reject, V.KeySet(es));
            && (reply == Abort ==> goal == Crash)
            && (reply == NoNode ==> goal == Fail && Restored(was, now))
            && (reply.Node? ==>
                  && p.Ok? && |left| < Left(r) && Made(was, now, reply.ref, ValueOf(p.v.value))
                  && var fs := V.Set(es, serial, key, ValueOf(p.v.value));
                     goal == EntriesAfter(fs, serial + 1, left, broken, reject, V.KeySet(fs)))
  {
    hide Made, Restored, MemberFrom, EntriesAfter, EntriesFrom, V.Set, V.KeySet, KeyOf, ValueOf;
    FirstEntry(es, serial, r, broken, reject, V.KeySet(es));
    if reply.Node? {
      SetKeys(es, serial, key, ValueOf(MemberFrom(r, broken, reject, V.KeySet(es)).v.value));
    }
  }

  /** A member, its key's token already read, set in the object; else the object is given up. */
  method MemberInto(lexer: Lexer, m: R.Memory, reject: bool, a: R.Ref, ghost was: Heap, ghost es: seq<V.Entry>, ghost serial: nat,
                    ghost r: Scanned) returns (reply: Reply, ghost more: seq<V.Entry>)
    requires lexer.Scanned(r) && Right(was) && Made(was, Now(m), a, V.Object(es))
    modifies lexer, lexer.stream, lexer.stream.buffer, m
    ensures lexer.stream.Valid()
    ensures var goal := EntriesFrom(es, serial, r, Broken(lexer), reject, V.KeySet(es));
            && (reply == Abort ==> goal == Crash)
            && (reply == NoNode ==> goal == Fail && Restored(was, Now(m)))
            && (reply.Node? ==> && |lexer.stream.rest| < Left(r) && Made(was, Now(m), a, V.Object(more))
                                && goal == EntriesAfter(more, serial + 1, lexer.stream.rest, Broken(lexer), reject, V.KeySet(more)))
    decreases Left(r), 4
  {
    hide Stream.Valid, Scan, EntriesFrom, EntriesAfter, MemberFrom, MemberEnded, Made, Restored, R.State, V.KeySet, V.Set, KeyOf, ValueOf;
    ghost var mid, broken := Now(m), Broken(lexer);
    MadeRight(was, mid, a, V.Object(es));
    var key;
    key, reply := ParseMemberAt(lexer, m, reject, a, es, r);
    MemberRead(es, serial, r, broken, reject, lexer.stream.rest, key, mid, Now(m), reply);
    more := es;
    if reply == NoNode {
      GiveUp(m, a, was, mid, V.Object(es));
    } else if reply.Node? {
      ghost var v := ValueOf(MemberFrom(r, broken, reject, V.KeySet(es)).v.value);
      SetMade(m, a, key, reply.ref, was, mid, es, serial, v);
      more := V.Set(es, serial, key, v);
    }
  }

  method ParseObjectAt(lexer: Lexer, m: R.Memory, reject: bool, ghost s: bytes) returns (reply: Reply)
    requires lexer.stream.Valid() && lexer.stream.rest == s && m.Valid()
    modifies lexer, lexer.stream, lexer.stream.buffer, m
    ensures lexer.stream.Valid()
    ensures Ended(lexer.stream.rest, old(Now(m)), Now(m), reply, Valued(ParseObject(s, Broken(lexer), reject)))
    decreases |s| + 1, 1
  {
    hide Stream.Valid, Scan, ParseObject, EntriesFrom, EntriesAfter, MemberFrom, MemberEnded, Made, Restored, Ended, R.State;
    ghost var broken := Broken(lexer);
    ghost var goal := Valued(ParseObject(s, broken, reject));
    ghost var was := Now(m);
    var a := Make(m, R.ObjectNode, V.Object([]));
    ObjectStart(s, broken, reject);
    lexer.Scan();
    if lexer.token == Mark(RBRACE) {
      Ends(lexer.stream.rest, was, Now(m), goal);
      return Node(a);
    }
    ghost var es, serial := [], 0;
    assert V.KeySet([]) == {};
    hide V.KeySet, V.Set, KeyOf, ValueOf;
    ghost var r := Scan(s, broken);
    LeftLess(s, broken);
    while true
      invariant lexer.Scanned(r) && Left(r) <= |s|
      invariant Made(was, Now(m), a, V.Object(es))
      invariant goal == EntriesFrom(es, serial, r, broken, reject, V.KeySet(es))
      decreases Left(r)
    {
      reply, es := MemberInto(lexer, m, reject, a, was, es, serial, r);
      if !reply.Node? {
        Ends(lexer.stream.rest, was, Now(m), goal);
        return;
      }
      serial := serial + 1;
      ghost var s1 := lexer.stream.rest;
      EntriesStep(es, serial, s1, broken, reject, V.KeySet(es));
      var more;
      more, r := NextItem(lexer, s1);
      if !more {
        break;
      }
    }
    reply := Close(m, a, lexer.token, RBRACE, was, V.Object(es));
    Ends(lexer.stream.rest, was, Now(m), goal);
  }

  lemma MadeRight(was: Heap, now: Heap, a: R.Ref, v: V.Value)
    requires Made(was, now, a, v)
    ensures Right(now) && Stands(now.cells, a, v)
  {
  }

  lemma MadeStill(was: Heap, mid: Heap, now: Heap, a: R.Ref, v: V.Value)
    requires Made(was, mid, a, v) && Restored(mid, now)
    ensures Made(was, now, a, v)
  {
    GrownStill(was, mid, now, a);
  }

  // -------------------------------------------------------------- documents

  function DocValue(p: Parse<Doc>): Parse<V.Value> {
    match p
    case Ok(d, rest) => Ok(ValueOf(d.top), rest)
    case Fail => Fail
    case Crash => Crash
  }

  lemma TopIsContainer(r: Scanned, broken: bool, reject: bool)
    requires r.Tok? && (r.lex == Punct(LBRACKET) || r.lex == Punct(LBRACE)) && ValueFrom(r, broken, reject).Ok?
    ensures var v := ValueOf(ValueFrom(r, broken, reject).v); v.Array? || v.Object?
  {
    hide ParseValue;
    IsContainer(r.lex, r.rest, broken, reject);
  }

  lemma ContainerIsHigh(was: Heap, now: Heap, q: R.Ref, v: V.Value)
    requires Made(was, now, q, v) && (v.Array? || v.Object?)
    ensures q >= 3
  {
    hide Right, Forest;
    if v.Array? {
      ArrayIs(now, q, v.items);
    } else {
      ObjectIs(now, q, v.entries);
    }
  }

  lemma TopGoal(s: bytes, broken: bool, reject: bool)
    ensures DocValue(ParseTop(s, broken, reject)) ==
            match Scan(s, broken)
            case Tok(_, lex, _) =>
              if lex == Punct(LBRACKET) || lex == Punct(LBRACE) then Valued(ValueFrom(Scan(s, broken), broken, reject)) else Fail
            case Aborts => Crash
            case _ => Fail
  {
    hide Scan, ParseValue;
  }

  lemma DocGoal(s: bytes, broken: bool, reject: bool)
    ensures OutcomeOf(DocValue(ParseDoc(s, broken, reject))) ==
            var p := DocValue(ParseTop(s, broken, reject));
            if p.Ok? then
              match Scan(p.rest, broken)
              case AtEnd => Parsed(p.v)
              case Aborts => Aborted
              case _ => Rejected
            else OutcomeOf(p)
  {
    hide Scan, ParseValue;
  }

  /** parse_json up to its end-of-file check. */
  method ParseTopAt(lexer: Lexer, m: R.Memory, reject: bool, ghost s: bytes) returns (reply: Reply)
    requires lexer.stream.Valid() && lexer.stream.rest == s && m.Valid()
    modifies lexer, lexer.stream, lexer.stream.buffer, m
    ensures lexer.stream.Valid()
    ensures Ended(lexer.stream.rest, old(Now(m)), Now(m), reply, DocValue(ParseTop(s, Broken(lexer), reject)))
    ensures reply.Node? ==> var v := DocValue(ParseTop(s, Broken(lexer), reject)).v; v.Array? || v.Object?
  {
    hide Stream.Valid, Scan, ParseTop, ValueFrom, Ended, Made, Restored, R.State;
    ghost var broken, was := Broken(lexer), Now(m);
    ghost var goal := DocValue(ParseTop(s, broken, reject));
    TopGoal(s, broken, reject);
    lexer.Scan();
    if lexer.token != Mark(LBRACKET) && lexer.token != Mark(LBRACE) {
      Untouched(was);
      Ends(lexer.stream.rest, was, was, goal);
      return if lexer.token == Crashed then Abort else NoNode;
    }
    reply := ParseValueAt(lexer, m, reject, Scan(s, broken));
    if reply.Node? {
      EndedOk(lexer.stream.rest, was, Now(m), reply, goal);
      TopIsContainer(Scan(s, broken), broken, reject);
    }
  }

  lemma EndedOk(left: bytes, was: Heap, now: Heap, reply: Reply, p: Parse<V.Value>)
    requires Ended(left, was, now, reply, p) && reply.Node?
    ensures p.Ok? && left == p.rest && Made(was, now, reply.ref, p.v)
  {
  }

  /** parse_json; `toEnd` is the end-of-file check. */
  method ParseJson(lexer: Lexer, m: R.Memory, reject: bool, toEnd: bool, ghost s: bytes) returns (reply: Reply)
    requires lexer.stream.Valid() && lexer.stream.rest == s && m.Valid()
    modifies lexer, lexer.stream, lexer.stream.buffer, m
    ensures var p := if toEnd then ParseDoc(s, Broken(lexer), reject) else ParseTop(s, Broken(lexer), reject);
            Came(old(Now(m)), Now(m), reply, OutcomeOf(DocValue(p)))
  {
    hide Stream.Valid, Scan, ParseTop, ParseDoc, DocValue, Made, Restored, R.State;
    ghost var broken, was := Broken(lexer), Now(m);
    DocGoal(s, broken, reject);
    reply := ParseTopAt(lexer, m, reject, s);
    if !reply.Node? || !toEnd {
      return;
    }
    ghost var v := DocValue(ParseTop(s, broken, reject)).v;
    lexer.Scan();
    if lexer.token == Crashed {
      return Abort;
    }
    if lexer.token != EndOfInput {
      MadeRight(was, Now(m), reply.ref, v);
      Untouched(Now(m));
      GiveUp(m, reply.ref, was, Now(m), v);
      reply := NoNode;
    }
  }

  /** What loading some bytes yields: the parser sees the longest valid prefix, and an
      error after it if it is not the whole. */
  function Loaded(data: bytes, reject: bool): Outcome {
    OutcomeOf(DocValue(ParseDoc(Utf8.Deliverable(data), !Utf8.ValidText(data), reject)))
  }

  /** The same with JSON_DISABLE_EOF_CHECK. */
  function LoadedPrefix(data: bytes, reject: bool): Outcome {
    OutcomeOf(DocValue(ParseTop(Utf8.Deliverable(data), !Utf8.ValidText(data), reject)))
  }

  /** json_loadb, next to whatever else is on the heap. */
  method LoadBuffer(m: R.Memory, data: bytes, reject: bool, toEnd: bool) returns (reply: Reply)
    requires m.Valid()
    modifies m
    ensures Came(old(Now(m)), Now(m), reply, if toEnd then Loaded(data, reject) else LoadedPrefix(data, reject))
  {
    hide Stream.Valid, ParseDoc, ParseTop, Came, R.State;
    var lexer := new Lexer(data);
    reply := ParseJson(lexer, m, reject, toEnd, Utf8.Deliverable(data));
  }
}
