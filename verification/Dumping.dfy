/**
  do_dump (dump.c) over a graph of nodes that may be shared or cyclic, with the visited
  flags that detect cycles and a sink that may refuse any piece of text.
 */
module Dumping {
  import opened Bytes
  import opened Calls
  import opened Printing
  import opened Values
  import G = Grammar
  import M = Meaning
  import O = Ordering
  import R = RoundTrip
  import Utf8

  /** With `out` written by the calls before number `calls`, of which `base` was there at the
      start, all has gone well; with the rest of the steps it will have gone as `goal` says. */
  ghost predicate DueAt(refuses: nat -> bool, base: bytes, goal: Played, rest: seq<Step>, out: bytes, calls: nat) {
    base <= out && goal == Then(out[|base|..], Play(rest, refuses, calls))
  }

  /** The dump callback and its data. It refuses a call when it is made to, and then takes
      nothing of the piece. */
  class Sink {
    const refuses: nat -> bool
    var out: bytes
    var calls: nat

    constructor (refuses: nat -> bool)
      ensures out == [] && calls == 0 && this.refuses == refuses
    {
      this.refuses := refuses;
      out := [];
      calls := 0;
    }

    method Write(text: bytes) returns (ok: bool)
      modifies this
      ensures ok == !refuses(old(calls)) && calls == old(calls) + 1
      ensures out == if ok then old(out) + text else old(out)
    {
      ok := !refuses(calls);
      calls := calls + 1;
      if ok {
        out := out + text;
      }
    }

    ghost predicate Due(base: bytes, goal: Played, rest: seq<Step>)
      reads this
    {
      DueAt(refuses, base, goal, rest, out, calls)
    }

    /** It has gone as `goal` says. */
    ghost predicate Over(base: bytes, goal: Played)
      reads this
    {
      out == base + goal.out && calls == goal.calls
    }

    /** The next step is a call whose result is checked. */
    method Put(text: bytes, ghost base: bytes, ghost goal: Played, ghost rest: seq<Step>) returns (ok: bool)
      requires Due(base, goal, [Step.Put(text)] + rest)
      modifies this
      ensures if ok then Due(base, goal, rest) else !goal.ok && Over(base, goal)
    {
      hide Play;
      PlayPut(text, rest, refuses, calls);
      ThenTwice(out[|base|..], text, Play(rest, refuses, calls + 1));
      Suffixes(base, out, text);
      ghost var before := out;
      ok := Write(text);
      if !ok {
        assert before[|base|..] + [] == before[|base|..];
      }
    }

    lemma Started(rest: seq<Step>)
      ensures Due(out, Play(rest, refuses, calls), rest)
    {
      hide Play;
      ThenTwice([], [], Play(rest, refuses, calls));
      assert out[|out|..] == [];
    }

    lemma Finished(base: bytes, goal: Played)
      requires Due(base, goal, [])
      ensures goal.ok && Over(base, goal)
    {
      assert out == base + out[|base|..] && out[|base|..] + [] == out[|base|..];
    }

    lemma Stopped(base: bytes, goal: Played, rest: seq<Step>)
      requires Due(base, goal, [Stop] + rest)
      ensures !goal.ok && Over(base, goal)
    {
      assert out == base + out[|base|..] && out[|base|..] + [] == out[|base|..];
    }

    /** Steps whose result is not looked at are over. */
    lemma Overlooked(base: bytes, goal: Played, inner: seq<Step>, rest: seq<Step>, before: bytes, k: nat)
      requires DueAt(refuses, base, goal, [Unchecked(inner)] + rest, before, k)
      requires Over(before, Play(inner, refuses, k))
      ensures Due(base, goal, rest)
    {
      hide Play;
      var p := Play(inner, refuses, k);
      PlayOverlooked(inner, rest, refuses, k);
      ThenTwice(before[|base|..], p.out, Play(rest, refuses, p.calls));
      Suffixes(base, before, p.out);
    }
  }

  lemma Suffixes(base: bytes, before: bytes, more: bytes)
    requires base <= before
    ensures base <= before + more && (before + more)[|base|..] == before[|base|..] + more && before == base + before[|base|..]
  {
  }

  // ------------------------------------------------------------------ strings

  /** The text of one escape; snprintf's "\\u%04x". */
  method EscapeOf(cp: int) returns (text: bytes)
    requires Utf8.IsScalar(cp)
    ensures text == EscapeText(cp)
  {
    var us := EscapeUnits(cp);
    text := [];
    for i := 0 to |us|
      invariant text == G.UnitsText(us[..i])
    {
      assert us[..i+1] == us[..i] + [us[i]] && [us[i]][1..] == [];
      G.UnitsTextConcat(us[..i], [us[i]]);
      assert G.UnitText(us[i]) + [] == G.UnitText(us[i]);
      text := text + G.UnitText(us[i]);
    }
    assert us[..|us|] == us;
  }

  /** The inner loop of dump_string: moves pos over what needs no escape. */
  method SkipPlain(t: bytes, ascii: bool, start: nat) returns (valid: bool, pos: nat, end: nat, cp: int)
    requires start <= |t| && 0 !in t
    ensures start <= pos <= |t|
    ensures valid ==> pos == start + PlainLen(t[start..], ascii)
    ensures var q := t[start..][PlainLen(t[start..], ascii)..]; valid <==> q == [] || Utf8.Next(q).Some?
    ensures valid ==> (pos == end <==> pos == |t|)
    ensures valid && pos < |t| ==> Utf8.Next(t[pos..]).Some? && end == pos + Utf8.Next(t[pos..]).value && end <= |t|
                                   && cp == Utf8.CodePoint(t[pos..])
  {
    hide NeedsEscape, Utf8.CodePoint, Utf8.Next, PlainLen;
    pos, end, cp := start, start, 0;
    valid := true;
    ghost var n := PlainLen(t[start..], ascii);
    while end < |t|
      invariant start <= pos == end <= |t|
      invariant n == pos - start + PlainLen(t[pos..], ascii)
    {
      Terminated(t, pos);
      var step;
      step, cp := Utf8.Iterate(t[pos..] + [0]);
      PlainStep(t[pos..], ascii);
      Slices(t, start, pos);
      if step.None? {
        return false, pos, end, cp;
      }
      end := pos + step.value;
      if NeedsEscape(cp, ascii) {
        return true, pos, end, cp;
      }
      Slices(t, pos, end);
      pos := end;
    }
    PlainStep([], ascii);
    Slices(t, start, |t|);
  }

  lemma Terminated(t: bytes, pos: nat)
    requires pos < |t| && 0 !in t
    ensures var b := t[pos..] + [0]; b[..|b|-1] == t[pos..] && 0 !in t[pos..]
  {
    var b := t[pos..] + [0];
    assert b[..|b|-1] == t[pos..];
  }

  lemma TailStopped(sink: Sink, t: bytes, ascii: bool, base: bytes, goal: Played, rest: seq<Step>)
    requires sink.Due(base, goal, TailSteps(t, ascii) + rest)
    requires var q := t[PlainLen(t, ascii)..]; q != [] && Utf8.Next(q).None?
    ensures !goal.ok && sink.Over(base, goal)
  {
    hide Sink.Due, Sink.Over, PlainLen, DueAt, Play;
    assert TailSteps(t, ascii) == [Stop];
    sink.Stopped(base, goal, rest);
  }

  /** dump_string */
  method WriteString(sink: Sink, t: bytes, ascii: bool, ghost base: bytes, ghost goal: Played, ghost rest: seq<Step>)
      returns (ok: bool)
    requires 0 !in t && sink.Due(base, goal, StringSteps(t, ascii) + rest)
    modifies sink
    ensures if ok then sink.Due(base, goal, rest) else !goal.ok && sink.Over(base, goal)
  {
    hide Sink.Due, Sink.Over, TailSteps, AfterRun, PlainLen, NeedsEscape, Utf8.Next, Utf8.CodePoint, EscapeText;
    assert StringSteps(t, ascii) + rest == [Step.Put([QUOTE])] + (TailSteps(t, ascii) + rest);
    ok := sink.Put([QUOTE], base, goal, TailSteps(t, ascii) + rest);
    if !ok {
      return;
    }
    var start := 0;
    assert t[0..] == t;
    while true
      invariant start <= |t| && sink.Due(base, goal, TailSteps(t[start..], ascii) + rest)
      decreases |t| - start
    {
      var valid, pos, end, cp := SkipPlain(t, ascii, start);
      if !valid {
        TailStopped(sink, t[start..], ascii, base, goal, rest);
        return false;
      }
      TailSplit(t[start..], ascii, rest);
      Slices(t, start, pos);
      ghost var more := AfterRun(t[pos..], ascii) + rest;
      if pos != start {
        ok := sink.Put(t[start..pos], base, goal, more);
        if !ok {
          return;
        }
      }
      if end == pos {
        break;
      }
      var text := EscapeOf(cp);
      Slices(t, pos, end);
      AfterEscape(t[pos..], ascii, rest);
      ok := sink.Put(text, base, goal, TailSteps(t[end..], ascii) + rest);
      if !ok {
        return;
      }
      start := end;
    }
    assert t[|t|..] == [] && AfterRun([], ascii) == [Step.Put([QUOTE])] by { AfterAll(ascii); }
    ok := sink.Put([QUOTE], base, goal, rest);
  }

  lemma TailSplit(t: bytes, ascii: bool, rest: seq<Step>)
    requires var n := PlainLen(t, ascii); n == |t| || Utf8.Next(t[n..]).Some?
    ensures var n := PlainLen(t, ascii);
            TailSteps(t, ascii) + rest == if n == 0 then AfterRun(t[n..], ascii) + rest
                                          else [Step.Put(t[..n])] + (AfterRun(t[n..], ascii) + rest)
  {
    hide Utf8.Next, PlainLen, AfterRun;
    var n := PlainLen(t, ascii);
    var run, after := RunSteps(t[..n]), AfterRun(t[n..], ascii);
    assert TailSteps(t, ascii) == run + after;
    hide TailSteps;
    assert (run + after) + rest == run + (after + rest);
    if n == 0 {
      assert run + (after + rest) == after + rest;
    }
  }

  lemma AfterAll(ascii: bool)
    ensures AfterRun([], ascii) == [Step.Put([QUOTE])]
  {
  }

  lemma AfterEscape(q: bytes, ascii: bool, rest: seq<Step>)
    requires q != [] && Utf8.Next(q).Some?
    ensures AfterRun(q, ascii) + rest
            == [Step.Put(EscapeText(Utf8.CodePoint(q)))] + (TailSteps(q[Utf8.Next(q).value..], ascii) + rest)
  {
    hide Utf8.CodePoint, EscapeText, TailSteps;
  }

  // -------------------------------------------------------------------- graphs

  class Node {
    var kind: Kind
    var visited: bool

    constructor (kind: Kind)
      ensures this.kind == kind && !visited
    {
      this.kind := kind;
      visited := false;
    }
  }

  /** A scalar, the slots of an array, or the pairs of an object in iteration order. */
  datatype Kind = Scalar(value: Value) | List(items: seq<Node>) | Table(fields: seq<Field>)

  datatype Field = Field(key: bytes, serial: nat, node: Node)

  /** The nodes of a graph and what they hold. */
  type Graph = map<Node, Kind>

  predicate DistinctFields(fields: seq<Field>) {
    forall i, j :: 0 <= i < j < |fields| ==> fields[i].key != fields[j].key
  }

  predicate KindOk(k: Kind) {
    match k
    case Scalar(v) => !v.Array? && !v.Object? && (v.String? ==> 0 !in v.text)
    case List(_) => true
    case Table(fields) => DistinctFields(fields) && forall i :: 0 <= i < |fields| ==> 0 !in fields[i].key
  }

  /** Every slot leads to a node of the set. */
  predicate Within(k: Kind, nodes: set<Node>) {
    match k
    case Scalar(_) => true
    case List(items) => forall i :: 0 <= i < |items| ==> items[i] in nodes
    case Table(fields) => forall i :: 0 <= i < |fields| ==> fields[i].node in nodes
  }

  ghost predicate Closed(g: Graph) {
    forall n <- g.Keys :: KindOk(g[n]) && Within(g[n], g.Keys)
  }

  ghost predicate Frozen(g: Graph)
    reads g.Keys`kind
  {
    forall n <- g.Keys :: n.kind == g[n]
  }

  /** Exactly the containers on the path from the root are marked. */
  ghost predicate Marked(g: Graph, path: set<Node>)
    reads g.Keys`visited
  {
    forall n <- g.Keys :: n.visited <==> n in path
  }

  ghost predicate Unmarked(g: Graph, path: set<Node>)
    reads g.Keys`visited
  {
    forall n <- g.Keys :: n.visited ==> n in path
  }

  /** All strings are valid and all numbers have a text. */
  ghost predicate Good(g: Graph) {
    forall n <- g.Keys :: GoodKind(g[n])
  }

  predicate GoodKind(k: Kind) {
    match k
    case Scalar(v) => Printable(v)
    case List(_) => true
    case Table(fields) => forall i :: 0 <= i < |fields| ==> M.GoodText(fields[i].key)
  }

  // --------------------------------------------------------------- key order

  /** The full keys do_dump collects and sorts. */
  function Keys(fields: seq<Field>): (r: seq<Entry>)
    ensures |r| == |fields|
  {
    seq(|fields|, i requires 0 <= i < |fields| => Entry(fields[i].key, fields[i].serial, Null))
  }

  function Lookup(fields: seq<Field>, key: bytes): (i: int)
    ensures -1 <= i < |fields|
    ensures i >= 0 ==> fields[i].key == key
    ensures i < 0 ==> forall j :: 0 <= j < |fields| ==> fields[j].key != key
  {
    assert forall j :: 0 <= j < |fields| ==> Keys(fields)[j].key == fields[j].key;
    Find(Keys(fields), key)
  }

  /** The pairs in the order in which they are dumped. */
  function FieldOrder(fields: seq<Field>, fl: Flags): (r: seq<Field>)
    ensures |r| == |fields| && forall i :: 0 <= i < |r| ==> r[i] in fields
  {
    if fl.sortKeys then Looked(fields, O.Sort(Keys(fields), O.KeyBefore))
    else if fl.preserveOrder then Looked(fields, O.Sort(Keys(fields), O.SerialBefore))
    else fields
  }

  /** json_object_get for each of the sorted keys. */
  function Looked(fields: seq<Field>, keys: seq<Entry>): (r: seq<Field>)
    requires multiset(keys) == multiset(Keys(fields))
    ensures |r| == |keys| == |fields| && forall i :: 0 <= i < |r| ==> r[i] in fields && r[i].key == keys[i].key
  {
    R.SameMembers(keys, Keys(fields));
    KeysFound(fields, keys);
    seq(|keys|, i requires 0 <= i < |keys| => fields[Lookup(fields, keys[i].key)])
  }

  lemma KeysFound(fields: seq<Field>, keys: seq<Entry>)
    requires forall e <- keys :: e in Keys(fields)
    ensures forall i :: 0 <= i < |keys| ==> Lookup(fields, keys[i].key) >= 0
  {
    forall i | 0 <= i < |keys|
      ensures Lookup(fields, keys[i].key) >= 0
    {
      assert keys[i] in Keys(fields);
      var j :| 0 <= j < |fields| && Keys(fields)[j] == keys[i];
      assert fields[j].key == keys[i].key;
    }
  }

  // ------------------------------------------------------------- the dump's calls

  function WordSteps(w: G.Word): seq<Step> { [Step.Put(G.WordText(w))] }

  function ScalarSteps(v: Value, fl: Flags): seq<Step>
    requires KindOk(Scalar(v))
  {
    match v
    case Null => WordSteps(G.Null)
    case True => WordSteps(G.True)
    case False => WordSteps(G.False)
    case Integer(n) => [Step.Put(G.NumText(NumOf(n)))]
    case Real(t) => [Step.Put(t)]
    case String(t) => StringSteps(t, fl.ascii)
  }

  lemma Smaller(g: Graph, path: set<Node>, n: Node)
    requires n in g.Keys && n !in path
    ensures |g.Keys - (path + {n})| < |g.Keys - path|
  {
    assert g.Keys - path == (g.Keys - (path + {n})) + {n};
  }

  /** What do_dump does for a node below a path of containers: it stops if it meets one of
      them again. */
  ghost function NodeSteps(g: Graph, n: Node, path: set<Node>, fl: Flags, depth: nat): seq<Step>
    requires Closed(g) && n in g.Keys && path <= g.Keys
    decreases |g.Keys - path|, 0, 0
  {
    match g[n]
    case Scalar(v) => ScalarSteps(v, fl)
    case List(items) =>
      if n in path then [Stop]
      else
        Smaller(g, path, n);
        ListSteps(g, items, path + {n}, fl, depth) + [Step.Put([RBRACKET])]
    case Table(fields) =>
      if n in path then [Stop]
      else
        Smaller(g, path, n);
        TableSteps(g, FieldOrder(fields, fl), path + {n}, fl, depth) + [Step.Put([RBRACE])]
  }

  /** An array, without its closing bracket. */
  ghost function ListSteps(g: Graph, items: seq<Node>, path: set<Node>, fl: Flags, depth: nat): seq<Step>
    requires Closed(g) && path <= g.Keys && forall i :: 0 <= i < |items| ==> items[i] in g.Keys
    decreases |g.Keys - path|, 2, 0
  {
    [Step.Put([LBRACKET])] + if items == [] then [] else IndentSteps(fl, depth + 1, false) + SlotsSteps(g, items, path, fl, depth)
  }

  ghost function SlotsSteps(g: Graph, items: seq<Node>, path: set<Node>, fl: Flags, depth: nat): seq<Step>
    requires Closed(g) && path <= g.Keys && forall i :: 0 <= i < |items| ==> items[i] in g.Keys
    decreases |g.Keys - path|, 1, |items|
  {
    if items == [] then []
    else
      NodeSteps(g, items[0], path, fl, depth + 1) + (BetweenSteps(fl, depth, |items| == 1) + SlotsSteps(g, items[1..], path, fl, depth))
  }

  /** What follows an element or a pair. */
  function BetweenSteps(fl: Flags, depth: nat, last: bool): seq<Step> {
    if last then IndentSteps(fl, depth, false) else [Step.Put([COMMA])] + IndentSteps(fl, depth + 1, true)
  }

  /** An object, without its closing brace, from its pairs in dumping order. */
  ghost function TableSteps(g: Graph, fields: seq<Field>, path: set<Node>, fl: Flags, depth: nat): seq<Step>
    requires Closed(g) && path <= g.Keys && forall i :: 0 <= i < |fields| ==> fields[i].node in g.Keys
    decreases |g.Keys - path|, 2, 0
  {
    [Step.Put([LBRACE])] + if fields == [] then [] else IndentSteps(fl, depth + 1, false) + PairsSteps(g, fields, path, fl, depth)
  }

  ghost function PairsSteps(g: Graph, fields: seq<Field>, path: set<Node>, fl: Flags, depth: nat): seq<Step>
    requires Closed(g) && path <= g.Keys && forall i :: 0 <= i < |fields| ==> fields[i].node in g.Keys
    decreases |g.Keys - path|, 1, |fields|
  {
    if fields == [] then []
    else
      PairSteps(g, fields[0], path, fl, depth) + (BetweenSteps(fl, depth, |fields| == 1) + PairsSteps(g, fields[1..], path, fl, depth))
  }

  /** A pair; whether its key could be written is not looked at. */
  ghost function PairSteps(g: Graph, field: Field, path: set<Node>, fl: Flags, depth: nat): seq<Step>
    requires Closed(g) && path <= g.Keys && field.node in g.Keys
    decreases |g.Keys - path|, 0, 1
  {
    [Unchecked(StringSteps(field.key, fl.ascii))] + ([Step.Put(Separator(fl))] + NodeSteps(g, field.node, path, fl, depth + 1))
  }

  // ---------------------------------------------------------------- the dump

  /** dump_indent; the indentation is at most the 32 spaces of its constant. */
  method WriteIndent(sink: Sink, fl: Flags, depth: nat, space: bool, ghost base: bytes, ghost goal: Played, ghost rest: seq<Step>)
      returns (ok: bool)
    requires fl.indent <= 31 && sink.Due(base, goal, IndentSteps(fl, depth, space) + rest)
    modifies sink
    ensures if ok then sink.Due(base, goal, rest) else !goal.ok && sink.Over(base, goal)
  {
    hide Sink.Due, Sink.Over;
    ok := true;
    if fl.indent > 0 {
      assert IndentSteps(fl, depth, space) + rest == [Step.Put([10])] + (Pads(fl.indent, depth) + rest);
      ok := sink.Put([10], base, goal, Pads(fl.indent, depth) + rest);
      if !ok {
        return;
      }
      hide Pads;
      for i := 0 to depth
        invariant ok && sink.Due(base, goal, Pads(fl.indent, depth - i) + rest)
      {
        PadsFirst(fl.indent, depth - i, rest);
        ok := sink.Put(Spaces(fl.indent), base, goal, Pads(fl.indent, depth - i - 1) + rest);
        if !ok {
          return;
        }
      }
      NoPads(fl.indent, rest);
    } else if space && !fl.compact {
      ok := sink.Put([32], base, goal, rest);
    } else {
      assert IndentSteps(fl, depth, space) + rest == rest;
    }
  }

  lemma {:induction false} PadsSame(n: nat, depth: nat)
    requires depth > 0
    ensures Pads(n, depth) == [Step.Put(Spaces(n))] + Pads(n, depth - 1)
  {
    if depth > 1 {
      PadsSame(n, depth - 1);
    }
  }

  lemma PadsFirst(n: nat, depth: nat, rest: seq<Step>)
    requires depth > 0
    ensures Pads(n, depth) + rest == [Step.Put(Spaces(n))] + (Pads(n, depth - 1) + rest)
  {
    PadsSame(n, depth);
  }

  lemma NoPads(n: nat, rest: seq<Step>)
    ensures Pads(n, 0) + rest == rest
  {
  }

  method WriteScalar(sink: Sink, v: Value, fl: Flags, ghost base: bytes, ghost goal: Played, ghost rest: seq<Step>) returns (ok: bool)
    requires KindOk(Scalar(v)) && sink.Due(base, goal, ScalarSteps(v, fl) + rest)
    modifies sink
    ensures if ok then sink.Due(base, goal, rest) else !goal.ok && sink.Over(base, goal)
  {
    hide Sink.Due, Sink.Over, StringSteps;
    match v {
      case Null => ok := sink.Put(G.WordText(G.Null), base, goal, rest);
      case True => ok := sink.Put(G.WordText(G.True), base, goal, rest);
      case False => ok := sink.Put(G.WordText(G.False), base, goal, rest);
      case Integer(n) => ok := sink.Put(G.NumText(NumOf(n)), base, goal, rest);
      case Real(t) => ok := sink.Put(t, base, goal, rest);
      case String(t) => ok := WriteString(sink, t, fl.ascii, base, goal, rest);
    }
  }

  /** What a call of do_dump, or of a part of it, does, if the steps after it are `rest`: the
      marks are as before if it succeeds, and none is set but those on the path if it fails. */
  ghost predicate Dumped(sink: Sink, g: Graph, path: set<Node>, base: bytes, goal: Played, rest: seq<Step>, ok: bool)
    reads sink, g.Keys`visited
  {
    if ok then Marked(g, path) && sink.Due(base, goal, rest)
    else Unmarked(g, path) && !goal.ok && sink.Over(base, goal)
  }

  method DumpNode(sink: Sink, n: Node, fl: Flags, depth: nat, ghost g: Graph, ghost path: set<Node>,
                  ghost base: bytes, ghost goal: Played, ghost rest: seq<Step>) returns (ok: bool)
    requires Closed(g) && n in g.Keys && path <= g.Keys && fl.indent <= 31
    requires Frozen(g) && Marked(g, path) && sink.Due(base, goal, NodeSteps(g, n, path, fl, depth) + rest)
    modifies sink, g.Keys`visited
    ensures Dumped(sink, g, path, base, goal, rest, ok)
    ensures !ok ==> n.kind.Scalar? || !n.visited
    decreases |g.Keys - path|, 0, 1
  {
    hide Sink.Due, Sink.Over, ListSteps, TableSteps, FieldOrder, ScalarSteps;
    NodeFacts(g, n, path, fl);
    match n.kind {
      case Scalar(v) =>
        ok := WriteScalar(sink, v, fl, base, goal, rest);
      case List(items) =>
        ok := DumpArray(sink, n, items, fl, depth, g, path, base, goal, rest);
      case Table(fields) =>
        ok := DumpObject(sink, n, FieldOrder(fields, fl), fl, depth, g, path, base, goal, rest);
    }
  }

  lemma NodeFacts(g: Graph, n: Node, path: set<Node>, fl: Flags)
    requires Closed(g) && n in g.Keys && path <= g.Keys
    ensures KindOk(g[n])
    ensures n !in path ==> |g.Keys - (path + {n})| < |g.Keys - path|
    ensures g[n].List? ==> forall i :: 0 <= i < |g[n].items| ==> g[n].items[i] in g.Keys
    ensures g[n].Table? ==> FieldsIn(FieldOrder(g[n].fields, fl), g)
  {
    hide FieldOrder;
    if n !in path {
      Smaller(g, path, n);
    }
    if g[n].Table? {
      var fields, os := g[n].fields, FieldOrder(g[n].fields, fl);
      forall i | 0 <= i < |os|
        ensures os[i].node in g.Keys && 0 !in os[i].key
      {
        assert os[i] in fields;
      }
    }
  }

  ghost predicate FieldsIn(fields: seq<Field>, g: Graph) {
    forall i :: 0 <= i < |fields| ==> fields[i].node in g.Keys && 0 !in fields[i].key
  }

  /** A container is met again: its mark goes, as in the source, and the dump fails. */
  method StopAt(sink: Sink, n: Node, ghost g: Graph, ghost path: set<Node>, ghost base: bytes, ghost goal: Played, ghost rest: seq<Step>)
    requires n in g.Keys && Marked(g, path) && sink.Due(base, goal, [Stop] + rest)
    modifies n`visited
    ensures Dumped(sink, g, path, base, goal, rest, false) && !n.visited
  {
    hide Sink.Due, Sink.Over;
    n.visited := false;
    sink.Stopped(base, goal, rest);
  }

  /** The end of a container: its mark goes before the closing bracket is written. */
  method Leave(sink: Sink, n: Node, close: byte, ghost g: Graph, ghost path: set<Node>, ghost base: bytes, ghost goal: Played,
               ghost rest: seq<Step>, contents: bool) returns (ok: bool)
    requires n in g.Keys && n !in path && Dumped(sink, g, path + {n}, base, goal, [Step.Put([close])] + rest, contents)
    modifies sink, n`visited
    ensures Dumped(sink, g, path, base, goal, rest, ok) && !n.visited
  {
    hide Sink.Due, Sink.Over;
    n.visited := false;
    ok := contents;
    if ok {
      ok := sink.Put([close], base, goal, rest);
    }
  }

  method DumpArray(sink: Sink, n: Node, items: seq<Node>, fl: Flags, depth: nat, ghost g: Graph, ghost path: set<Node>,
                   ghost base: bytes, ghost goal: Played, ghost rest: seq<Step>) returns (ok: bool)
    requires Closed(g) && n in g.Keys && path <= g.Keys && fl.indent <= 31
    requires Frozen(g) && Marked(g, path) && forall i :: 0 <= i < |items| ==> items[i] in g.Keys
    requires n !in path ==> |g.Keys - (path + {n})| < |g.Keys - path|
    requires sink.Due(base, goal, (if n in path then [Stop] else ListSteps(g, items, path + {n}, fl, depth) + [Step.Put([RBRACKET])]) + rest)
    modifies sink, g.Keys`visited
    ensures Dumped(sink, g, path, base, goal, rest, ok)
    ensures !ok ==> !n.visited
    decreases |g.Keys - path|, 0, 0
  {
    hide Sink.Due, Dumped, ListSteps, Closed;
    if n.visited {
      StopAt(sink, n, g, path, base, goal, rest);
      return false;
    }
    n.visited := true;
    ghost var close := [Step.Put([RBRACKET])] + rest;
    assert (ListSteps(g, items, path + {n}, fl, depth) + [Step.Put([RBRACKET])]) + rest == ListSteps(g, items, path + {n}, fl, depth) + close;
    ok := DumpList(sink, items, fl, depth, g, path + {n}, base, goal, close);
    ok := Leave(sink, n, RBRACKET, g, path, base, goal, rest, ok);
  }

  method DumpObject(sink: Sink, n: Node, fields: seq<Field>, fl: Flags, depth: nat, ghost g: Graph, ghost path: set<Node>,
                    ghost base: bytes, ghost goal: Played, ghost rest: seq<Step>) returns (ok: bool)
    requires Closed(g) && n in g.Keys && path <= g.Keys && fl.indent <= 31
    requires Frozen(g) && Marked(g, path) && FieldsIn(fields, g)
    requires n !in path ==> |g.Keys - (path + {n})| < |g.Keys - path|
    requires sink.Due(base, goal, (if n in path then [Stop] else TableSteps(g, fields, path + {n}, fl, depth) + [Step.Put([RBRACE])]) + rest)
    modifies sink, g.Keys`visited
    ensures Dumped(sink, g, path, base, goal, rest, ok)
    ensures !ok ==> !n.visited
    decreases |g.Keys - path|, 0, 0
  {
    hide Sink.Due, Dumped, TableSteps, Closed;
    if n.visited {
      StopAt(sink, n, g, path, base, goal, rest);
      return false;
    }
    n.visited := true;
    ghost var close := [Step.Put([RBRACE])] + rest;
    assert (TableSteps(g, fields, path + {n}, fl, depth) + [Step.Put([RBRACE])]) + rest == TableSteps(g, fields, path + {n}, fl, depth) + close;
    ok := DumpTable(sink, fields, fl, depth, g, path + {n}, base, goal, close);
    ok := Leave(sink, n, RBRACE, g, path, base, goal, rest, ok);
  }

  method DumpList(sink: Sink, items: seq<Node>, fl: Flags, depth: nat, ghost g: Graph, ghost path: set<Node>,
                  ghost base: bytes, ghost goal: Played, ghost rest: seq<Step>) returns (ok: bool)
    requires Closed(g) && path <= g.Keys && (forall i :: 0 <= i < |items| ==> items[i] in g.Keys) && fl.indent <= 31
    requires Frozen(g) && Marked(g, path) && sink.Due(base, goal, ListSteps(g, items, path, fl, depth) + rest)
    modifies sink, g.Keys`visited
    ensures Dumped(sink, g, path, base, goal, rest, ok)
    decreases |g.Keys - path|, 2, 0
  {
    hide Sink.Due, Sink.Over, IndentSteps, SlotsSteps, Closed;
    ghost var inner := if items == [] then [] else IndentSteps(fl, depth + 1, false) + SlotsSteps(g, items, path, fl, depth);
    assert ListSteps(g, items, path, fl, depth) + rest == [Step.Put([LBRACKET])] + (inner + rest);
    ok := sink.Put([LBRACKET], base, goal, inner + rest);
    if !ok || items == [] {
      assert [] + rest == rest;
      return;
    }
    ghost var slots := SlotsSteps(g, items, path, fl, depth) + rest;
    assert inner + rest == IndentSteps(fl, depth + 1, false) + slots;
    ok := WriteIndent(sink, fl, depth + 1, false, base, goal, slots);
    if !ok {
      return;
    }
    ok := DumpSlots(sink, items, fl, depth, g, path, base, goal, rest);
  }

  method DumpSlots(sink: Sink, items: seq<Node>, fl: Flags, depth: nat, ghost g: Graph, ghost path: set<Node>,
                   ghost base: bytes, ghost goal: Played, ghost rest: seq<Step>) returns (ok: bool)
    requires Closed(g) && path <= g.Keys && (forall i :: 0 <= i < |items| ==> items[i] in g.Keys) && fl.indent <= 31
    requires Frozen(g) && Marked(g, path) && sink.Due(base, goal, SlotsSteps(g, items, path, fl, depth) + rest)
    modifies sink, g.Keys`visited
    ensures Dumped(sink, g, path, base, goal, rest, ok)
    decreases |g.Keys - path|, 1, |items|
  {
    hide Sink.Due, Sink.Over, NodeSteps, SlotsSteps, BetweenSteps, Closed;
    var n := |items|;
    assert items[0..] == items;
    ok := true;
    for i := 0 to n
      invariant ok && Frozen(g) && Marked(g, path)
      invariant sink.Due(base, goal, SlotsSteps(g, items[i..], path, fl, depth) + rest)
    {
      SlotsSplit(g, items, i, path, fl, depth, rest);
      ghost var more := SlotsSteps(g, items[i+1..], path, fl, depth) + rest;
      ok := DumpNode(sink, items[i], fl, depth + 1, g, path, base, goal, BetweenSteps(fl, depth, i == n - 1) + more);
      if !ok {
        return;
      }
      ok := WriteBetween(sink, fl, depth, i < n - 1, base, goal, more);
      if !ok {
        return;
      }
    }
    assert items[n..] == [] && SlotsSteps(g, [], path, fl, depth) + rest == rest by { NoSteps(g, path, fl, depth, rest); }
  }

  /** What comes between two elements or pairs, or after the last one. */
  method WriteBetween(sink: Sink, fl: Flags, depth: nat, more: bool, ghost base: bytes, ghost goal: Played, ghost rest: seq<Step>)
      returns (ok: bool)
    requires fl.indent <= 31 && sink.Due(base, goal, BetweenSteps(fl, depth, !more) + rest)
    modifies sink
    ensures if ok then sink.Due(base, goal, rest) else !goal.ok && sink.Over(base, goal)
  {
    hide Sink.Due, Sink.Over, IndentSteps;
    if more {
      ghost var indent := IndentSteps(fl, depth + 1, true) + rest;
      assert BetweenSteps(fl, depth, false) + rest == [Step.Put([COMMA])] + indent;
      ok := sink.Put([COMMA], base, goal, indent);
      if !ok {
        return;
      }
      ok := WriteIndent(sink, fl, depth + 1, true, base, goal, rest);
    } else {
      ok := WriteIndent(sink, fl, depth, false, base, goal, rest);
    }
  }

  lemma NoSteps(g: Graph, path: set<Node>, fl: Flags, depth: nat, rest: seq<Step>)
    requires Closed(g) && path <= g.Keys
    ensures SlotsSteps(g, [], path, fl, depth) + rest == rest && PairsSteps(g, [], path, fl, depth) + rest == rest
  {
    assert [] + rest == rest;
  }

  lemma SlotsSplit(g: Graph, items: seq<Node>, i: nat, path: set<Node>, fl: Flags, depth: nat, rest: seq<Step>)
    requires Closed(g) && path <= g.Keys && (forall j :: 0 <= j < |items| ==> items[j] in g.Keys) && i < |items|
    ensures SlotsSteps(g, items[i..], path, fl, depth) + rest ==
            NodeSteps(g, items[i], path, fl, depth + 1)
            + (BetweenSteps(fl, depth, i == |items| - 1) + (SlotsSteps(g, items[i+1..], path, fl, depth) + rest))
  {
    hide NodeSteps, BetweenSteps, Closed;
    assert items[i..][1..] == items[i+1..];
  }

  lemma PairsSplit(g: Graph, fields: seq<Field>, i: nat, path: set<Node>, fl: Flags, depth: nat, rest: seq<Step>)
    requires Closed(g) && path <= g.Keys && FieldsIn(fields, g) && i < |fields|
    ensures FieldsIn([fields[i]], g) && FieldsIn(fields[i..], g) && FieldsIn(fields[i+1..], g)
    ensures PairsSteps(g, fields[i..], path, fl, depth) + rest ==
            PairSteps(g, fields[i], path, fl, depth)
            + (BetweenSteps(fl, depth, i == |fields| - 1) + (PairsSteps(g, fields[i+1..], path, fl, depth) + rest))
  {
    hide PairSteps, BetweenSteps, Closed;
    assert fields[i..][1..] == fields[i+1..];
  }

  method DumpTable(sink: Sink, fields: seq<Field>, fl: Flags, depth: nat, ghost g: Graph, ghost path: set<Node>,
                   ghost base: bytes, ghost goal: Played, ghost rest: seq<Step>) returns (ok: bool)
    requires Closed(g) && path <= g.Keys && FieldsIn(fields, g) && fl.indent <= 31
    requires Frozen(g) && Marked(g, path) && sink.Due(base, goal, TableSteps(g, fields, path, fl, depth) + rest)
    modifies sink, g.Keys`visited
    ensures Dumped(sink, g, path, base, goal, rest, ok)
    decreases |g.Keys - path|, 2, 0
  {
    hide Sink.Due, Sink.Over, IndentSteps, PairsSteps, Closed;
    ghost var inner := if fields == [] then [] else IndentSteps(fl, depth + 1, false) + PairsSteps(g, fields, path, fl, depth);
    assert TableSteps(g, fields, path, fl, depth) + rest == [Step.Put([LBRACE])] + (inner + rest);
    ok := sink.Put([LBRACE], base, goal, inner + rest);
    if !ok || fields == [] {
      assert [] + rest == rest;
      return;
    }
    ghost var pairs := PairsSteps(g, fields, path, fl, depth) + rest;
    assert inner + rest == IndentSteps(fl, depth + 1, false) + pairs;
    ok := WriteIndent(sink, fl, depth + 1, false, base, goal, pairs);
    if !ok {
      return;
    }
    ok := DumpPairs(sink, fields, fl, depth, g, path, base, goal, rest);
  }

  method DumpPairs(sink: Sink, fields: seq<Field>, fl: Flags, depth: nat, ghost g: Graph, ghost path: set<Node>,
                   ghost base: bytes, ghost goal: Played, ghost rest: seq<Step>) returns (ok: bool)
    requires Closed(g) && path <= g.Keys && FieldsIn(fields, g) && fl.indent <= 31
    requires Frozen(g) && Marked(g, path) && sink.Due(base, goal, PairsSteps(g, fields, path, fl, depth) + rest)
    modifies sink, g.Keys`visited
    ensures Dumped(sink, g, path, base, goal, rest, ok)
    decreases |g.Keys - path|, 1, |fields|
  {
    hide Sink.Due, Sink.Over, PairSteps, PairsSteps, BetweenSteps, Closed;
    var n := |fields|;
    assert fields[0..] == fields;
    ok := true;
    for i := 0 to n
      invariant ok && Frozen(g) && Marked(g, path) && FieldsIn(fields[i..], g)
      invariant sink.Due(base, goal, PairsSteps(g, fields[i..], path, fl, depth) + rest)
    {
      PairsSplit(g, fields, i, path, fl, depth, rest);
      ghost var more := PairsSteps(g, fields[i+1..], path, fl, depth) + rest;
      ok := DumpPair(sink, fields[i], fl, depth, g, path, base, goal, BetweenSteps(fl, depth, i == n - 1) + more);
      if !ok {
        return;
      }
      ok := WriteBetween(sink, fl, depth, i < n - 1, base, goal, more);
      if !ok {
        return;
      }
    }
    assert fields[n..] == [] && PairsSteps(g, [], path, fl, depth) + rest == rest by { NoSteps(g, path, fl, depth, rest); }
  }

  /** One key and value; whether the key could be written is not asked. */
  method DumpPair(sink: Sink, field: Field, fl: Flags, depth: nat, ghost g: Graph, ghost path: set<Node>,
                  ghost base: bytes, ghost goal: Played, ghost rest: seq<Step>) returns (ok: bool)
    requires Closed(g) && path <= g.Keys && FieldsIn([field], g) && fl.indent <= 31
    requires Frozen(g) && Marked(g, path) && field.node in g.Keys && sink.Due(base, goal, PairSteps(g, field, path, fl, depth) + rest)
    modifies sink, g.Keys`visited
    ensures Dumped(sink, g, path, base, goal, rest, ok)
    decreases |g.Keys - path|, 1, 0
  {
    hide Sink.Due, Sink.Over, StringSteps, NodeSteps, Closed;
    assert [field][0] == field;
    ghost var node := NodeSteps(g, field.node, path, fl, depth + 1) + rest;
    ghost var more := [Step.Put(Separator(fl))] + node;
    assert PairSteps(g, field, path, fl, depth) + rest == [Unchecked(StringSteps(field.key, fl.ascii))] + more;
    WriteKey(sink, field.key, fl.ascii, base, goal, more);
    ok := sink.Put(Separator(fl), base, goal, node);
    if !ok {
      return;
    }
    ok := DumpNode(sink, field.node, fl, depth + 1, g, path, base, goal, rest);
  }

  /** dump_string for a key, its result ignored. */
  method WriteKey(sink: Sink, key: bytes, ascii: bool, ghost base: bytes, ghost goal: Played, ghost rest: seq<Step>)
    requires 0 !in key && sink.Due(base, goal, [Unchecked(StringSteps(key, ascii))] + rest)
    modifies sink
    ensures sink.Due(base, goal, rest)
  {
    hide DueAt, Sink.Over, StringSteps, Play;
    ghost var inner := StringSteps(key, ascii);
    ghost var part := Play(inner, sink.refuses, sink.calls);
    ghost var before, k := sink.out, sink.calls;
    sink.Started(inner);
    assert inner + [] == inner;
    var ok := WriteString(sink, key, ascii, before, part, []);
    if ok {
      sink.Finished(before, part);
    }
    sink.Overlooked(base, goal, inner, rest, before, k);
  }
}
