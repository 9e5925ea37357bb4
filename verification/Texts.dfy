/**
  The text a dump consists of if the sink refuses nothing, and that it is what the calls of
  do_dump add up to.
 */
module Texts {
  import opened Bytes
  import opened Calls
  import opened Dumping
  import opened Printing
  import opened Values
  import G = Grammar
  import M = Meaning
  import R = RoundTrip
  import S = Scanning
  import Utf8

  // --------------------------------------------------- the text, or a cycle

  /** What do_dump writes for a node below a path of containers; None if it meets one of
      them again. */
  ghost function Text(g: Graph, n: Node, path: set<Node>, fl: Flags, depth: nat): Option<bytes>
    requires Closed(g) && Good(g) && n in g.Keys && path <= g.Keys
    decreases |g.Keys - path|, 0, 0
  {
    match g[n]
    case Scalar(v) => Some(RawText(v, fl, depth))
    case List(items) =>
      if n in path then None
      else
        Smaller(g, path, n);
        ListText(g, items, path + {n}, fl, depth)
    case Table(fields) =>
      if n in path then None
      else
        Smaller(g, path, n);
        TableText(g, FieldOrder(fields, fl), path + {n}, fl, depth)
  }

  /** An array, with its brackets. */
  ghost function ListText(g: Graph, items: seq<Node>, path: set<Node>, fl: Flags, depth: nat): Option<bytes>
    requires Closed(g) && Good(g) && path <= g.Keys && forall i :: 0 <= i < |items| ==> items[i] in g.Keys
    decreases |g.Keys - path|, 2, 0
  {
    if items == [] then Some([LBRACKET, RBRACKET])
    else
      match SlotsText(g, items, path, fl, depth)
      case None => None
      case Some(t) => Some([LBRACKET] + (Indent(fl, depth + 1, false) + (t + [RBRACKET])))
  }

  ghost function SlotsText(g: Graph, items: seq<Node>, path: set<Node>, fl: Flags, depth: nat): Option<bytes>
    requires Closed(g) && Good(g) && path <= g.Keys && forall i :: 0 <= i < |items| ==> items[i] in g.Keys
    requires items != []
    decreases |g.Keys - path|, 1, |items|
  {
    match Text(g, items[0], path, fl, depth + 1)
    case None => None
    case Some(t) =>
      if |items| == 1 then Some(t + Indent(fl, depth, false))
      else Glue(t + ([COMMA] + Indent(fl, depth + 1, true)), SlotsText(g, items[1..], path, fl, depth))
  }

  /** An object, with its braces, from its pairs in dumping order. */
  ghost function TableText(g: Graph, fields: seq<Field>, path: set<Node>, fl: Flags, depth: nat): Option<bytes>
    requires Closed(g) && Good(g) && path <= g.Keys
    requires forall i :: 0 <= i < |fields| ==> fields[i].node in g.Keys && M.GoodText(fields[i].key)
    decreases |g.Keys - path|, 2, 0
  {
    if fields == [] then Some([LBRACE, RBRACE])
    else
      match PairsText(g, fields, path, fl, depth)
      case None => None
      case Some(t) => Some([LBRACE] + (Indent(fl, depth + 1, false) + (t + [RBRACE])))
  }

  ghost function PairsText(g: Graph, fields: seq<Field>, path: set<Node>, fl: Flags, depth: nat): Option<bytes>
    requires Closed(g) && Good(g) && path <= g.Keys
    requires forall i :: 0 <= i < |fields| ==> fields[i].node in g.Keys && M.GoodText(fields[i].key)
    requires fields != []
    decreases |g.Keys - path|, 1, |fields|
  {
    match Text(g, fields[0].node, path, fl, depth + 1)
    case None => None
    case Some(t) =>
      assert M.GoodText(fields[0].key);
      var head := StringText(fields[0].key, fl.ascii) + (Separator(fl) + t);
      if |fields| == 1 then Some(head + Indent(fl, depth, false))
      else Glue(head + ([COMMA] + Indent(fl, depth + 1, true)), PairsText(g, fields[1..], path, fl, depth))
  }

  lemma TextFacts(g: Graph, n: Node, path: set<Node>, fl: Flags, depth: nat)
    requires Closed(g) && Good(g) && n in g.Keys && path <= g.Keys
    ensures n !in path ==> |g.Keys - (path + {n})| < |g.Keys - path|
    ensures g[n].List? ==> forall i :: 0 <= i < |g[n].items| ==> g[n].items[i] in g.Keys
    ensures g[n].Table? ==> var os := FieldOrder(g[n].fields, fl);
                            forall i :: 0 <= i < |os| ==> os[i].node in g.Keys && M.GoodText(os[i].key)
    ensures g[n].Scalar? ==> Printable(g[n].value) && Text(g, n, path, fl, depth) == Some(RawText(g[n].value, fl, depth))
    ensures n in path && !g[n].Scalar? ==> Text(g, n, path, fl, depth) == None
    ensures n !in path && g[n].List? ==>
              Text(g, n, path, fl, depth) == ListText(g, g[n].items, path + {n}, fl, depth)
    ensures n !in path && g[n].Table? ==>
              Text(g, n, path, fl, depth) == TableText(g, FieldOrder(g[n].fields, fl), path + {n}, fl, depth)
  {
    hide ListText, TableText, FieldOrder, RawText, Printable, M.GoodText;
    if n !in path {
      Smaller(g, path, n);
    }
    if g[n].Table? {
      var fields, os := g[n].fields, FieldOrder(g[n].fields, fl);
      assert GoodKind(g[n]);
      forall i | 0 <= i < |os|
        ensures os[i].node in g.Keys && M.GoodText(os[i].key)
      {
        assert os[i] in fields;
      }
    }
  }

  // ------------------------------------------------------------------ literals

  /** What is still to be written of a literal, from a sequence boundary on. */
  function Body(t: bytes, ascii: bool): bytes
    requires Utf8.ValidText(t)
  {
    G.UnitsText(PrintUnits(t, ascii))
  }

  lemma BodyStep(t: bytes, ascii: bool)
    requires Utf8.ValidText(t) && t != []
    ensures var n := Utf8.Next(t).value;
            var cp := Utf8.CodePoint(t);
            && Utf8.ValidText(t[n..])
            && Body(t, ascii) == (if NeedsEscape(cp, ascii) then G.UnitsText(EscapeUnits(cp)) else t[..n]) + Body(t[n..], ascii)
  {
    var n := Utf8.Next(t).value;
    var cp := Utf8.CodePoint(t);
    G.UnitsTextConcat(EscapeUnits(cp), PrintUnits(t[n..], ascii));
    G.UnitsTextConcat(RawUnits(t[..n]), PrintUnits(t[n..], ascii));
    R.RawUnitsText(t[..n]);
  }

  lemma {:induction false} PlainBody(t: bytes, ascii: bool)
    ensures var q := t[PlainLen(t, ascii)..];
            && (Utf8.ValidText(t) <==> Utf8.ValidText(q))
            && (Utf8.ValidText(t) ==> Body(t, ascii) == t[..PlainLen(t, ascii)] + Body(q, ascii))
    decreases |t|
  {
    hide Body, NeedsEscape, Utf8.CodePoint, Utf8.Next, Utf8.ValidText, PlainLen;
    PlainStep(t, ascii);
    var n := PlainLen(t, ascii);
    if n == 0 {
      assert t[0..] == t && t[..0] == [];
      if Utf8.ValidText(t) {
        assert [] + Body(t, ascii) == Body(t, ascii);
      }
    } else {
      var m := Utf8.Next(t).value;
      PlainBody(t[m..], ascii);
      Slices(t, m, n);
      assert t[..n] == t[..m] + t[m..n];
      OneMoreValid(t);
      if Utf8.ValidText(t) {
        BodyStep(t, ascii);
        Cat2(t[..m], t[m..][..n-m], Body(t[n..], ascii));
      }
    }
  }

  lemma OneMoreValid(t: bytes)
    requires Utf8.Next(t).Some?
    ensures Utf8.ValidText(t) <==> Utf8.ValidText(t[Utf8.Next(t).value..])
  {
    hide Utf8.Next, Utf8.CodePoint;
  }

  /** From a boundary on, dump_string writes what is left of the body and a quote, exactly if
      what is left is valid. */
  lemma {:induction false} TailFlat(t: bytes, ascii: bool)
    ensures Flat(TailSteps(t, ascii)) == if Utf8.ValidText(t) then Some(Body(t, ascii) + [QUOTE]) else None
    ensures Proper(TailSteps(t, ascii))
    decreases |t|, 1
  {
    hide Body, NeedsEscape, Utf8.CodePoint, Flat, Proper, AfterRun;
    var n := PlainLen(t, ascii);
    var q := t[n..];
    PlainBody(t, ascii);
    PlainStops(t, ascii);
    if q != [] && Utf8.Next(q).None? {
      StopFlat();
    } else {
      AfterFlat(q, ascii);
      var more := AfterRun(q, ascii);
      RunFlat(t[..n], more);
      if Utf8.ValidText(q) {
        Cat2(t[..n], Body(q, ascii), [QUOTE]);
      }
    }
  }

  lemma {:induction false} AfterFlat(q: bytes, ascii: bool)
    requires (q == [] || Utf8.Next(q).Some?) && PlainLen(q, ascii) == 0
    ensures Flat(AfterRun(q, ascii)) == if Utf8.ValidText(q) then Some(Body(q, ascii) + [QUOTE]) else None
    ensures Proper(AfterRun(q, ascii))
    decreases |q|, 0
  {
    hide Body, NeedsEscape, Utf8.CodePoint, EscapeText, Flat, Proper, TailSteps;
    if q == [] {
      FlatPut([QUOTE], []);
      PutProper([QUOTE]);
      BodyOfNothing(ascii);
      assert [] + [QUOTE] == [QUOTE];
    } else {
      var r := q[Utf8.Next(q).value..];
      var e := EscapeText(Utf8.CodePoint(q));
      TailFlat(r, ascii);
      FlatPut(e, TailSteps(r, ascii));
      EscapeProper(Utf8.CodePoint(q));
      PutProper(e);
      ProperConcat([Put(e)], TailSteps(r, ascii));
      if Utf8.ValidText(q) {
        EscapedBody(q, ascii);
        Cat2(e, Body(r, ascii), [QUOTE]);
      }
    }
  }

  lemma EscapedBody(q: bytes, ascii: bool)
    requires Utf8.ValidText(q) && q != [] && PlainLen(q, ascii) == 0
    ensures Body(q, ascii) == EscapeText(Utf8.CodePoint(q)) + Body(q[Utf8.Next(q).value..], ascii)
  {
    BodyStep(q, ascii);
  }

  lemma StopFlat()
    ensures Flat([Stop]).None? && Proper([Stop])
  {
    assert [Stop][1..] == [];
  }

  lemma PutProper(t: bytes)
    requires t != []
    ensures Proper([Put(t)])
  {
    assert [Put(t)][1..] == [];
  }

  lemma BodyOfNothing(ascii: bool)
    ensures Utf8.ValidText([]) && Body([], ascii) == []
  {
  }

  lemma EscapeProper(cp: int)
    requires Utf8.IsScalar(cp)
    ensures EscapeText(cp) != []
  {
    var us := EscapeUnits(cp);
    assert G.UnitsText(us) == G.UnitText(us[0]) + G.UnitsText(us[1..]);
  }

  lemma RunFlat(run: bytes, more: seq<Step>)
    requires Proper(more)
    ensures Flat(RunSteps(run) + more) == Glue(run, Flat(more)) && Proper(RunSteps(run) + more)
  {
    hide Flat, Proper;
    if run == [] {
      assert [] + more == more;
      GlueTwice([], [], Flat(more));
    } else {
      FlatPut(run, more);
      PutProper(run);
      ProperConcat([Put(run)], more);
    }
  }

  lemma StringFlat(t: bytes, ascii: bool)
    ensures Flat(StringSteps(t, ascii)) == if Utf8.ValidText(t) then Some(StringText(t, ascii)) else None
    ensures Proper(StringSteps(t, ascii))
  {
    hide Flat, Proper, TailSteps;
    TailFlat(t, ascii);
    FlatPut([QUOTE], TailSteps(t, ascii));
    PutProper([QUOTE]);
    ProperConcat([Put([QUOTE])], TailSteps(t, ascii));
  }

  // --------------------------------------------------------------- indentation

  lemma {:induction false} PadsFlat(n: nat, depth: nat)
    requires n > 0
    ensures Flat(Pads(n, depth)) == Some(Spaces(n * depth)) && Proper(Pads(n, depth))
  {
    if depth == 0 {
      assert n * depth == 0 && Spaces(0) == [];
    } else {
      PadsFlat(n, depth - 1);
      hide Flat, Proper;
      FlatConcat(Pads(n, depth - 1), [Put(Spaces(n))]);
      FlatPut(Spaces(n), []);
      PutProper(Spaces(n));
      ProperConcat(Pads(n, depth - 1), [Put(Spaces(n))]);
      assert n * depth == n * (depth - 1) + n;
      assert Spaces(n * (depth - 1)) + Spaces(n) == Spaces(n * depth);
    }
  }

  lemma IndentFlat(fl: Flags, depth: nat, space: bool)
    ensures Flat(IndentSteps(fl, depth, space)) == Some(Indent(fl, depth, space)) && Proper(IndentSteps(fl, depth, space))
  {
    if fl.indent > 0 {
      hide Flat, Proper;
      PadsFlat(fl.indent, depth);
      FlatPut([10], Pads(fl.indent, depth));
      PutProper([10]);
      ProperConcat([Put([10])], Pads(fl.indent, depth));
    } else if space && !fl.compact {
      FlatPut([32], []);
      PutProper([32]);
    }
  }

  /** One list of steps after another. */
  lemma Both(a: seq<Step>, b: seq<Step>)
    requires Proper(a) && Proper(b)
    ensures Proper(a + b) && Flat(a + b) == if Flat(a).None? then None else Glue(Flat(a).value, Flat(b))
  {
    FlatConcat(a, b);
    ProperConcat(a, b);
  }

  lemma PutBoth(t: bytes, b: seq<Step>)
    requires t != [] && Proper(b)
    ensures Proper([Put(t)] + b) && Flat([Put(t)] + b) == Glue(t, Flat(b))
    ensures Proper([Put(t)]) && Flat([Put(t)]) == Some(t)
  {
    FlatPut(t, b);
    PutProper(t);
    ProperConcat([Put(t)], b);
  }

  lemma BetweenFlat(fl: Flags, depth: nat, last: bool)
    ensures Proper(BetweenSteps(fl, depth, last))
    ensures Flat(BetweenSteps(fl, depth, last)) == Some(if last then Indent(fl, depth, false) else [COMMA] + Indent(fl, depth + 1, true))
  {
    hide Flat, Proper, IndentSteps;
    IndentFlat(fl, depth, false);
    IndentFlat(fl, depth + 1, true);
    PutBoth([COMMA], IndentSteps(fl, depth + 1, true));
  }

  // -------------------------------------------------------------------- nodes

  lemma ScalarFlat(v: Value, fl: Flags, depth: nat)
    requires KindOk(Scalar(v)) && Printable(v)
    ensures Flat(ScalarSteps(v, fl)) == Some(RawText(v, fl, depth)) && Proper(ScalarSteps(v, fl))
  {
    hide Flat, Proper, StringSteps, S.ScanNum;
    match v
    case String(t) => StringFlat(t, fl.ascii);
    case Integer(n) =>
      NumOfValue(n);
      S.NumTextNonempty(NumOf(n));
      PutBoth(G.NumText(NumOf(n)), []) by { NoneProper(); }
    case Real(t) =>
      S.ScanNumSound(t);
      S.NumTextNonempty(S.ScanNum(t).value.0);
      PutBoth(t, []) by { NoneProper(); }
    case Null => PutBoth(G.WordText(G.Null), []) by { NoneProper(); }
    case True => PutBoth(G.WordText(G.True), []) by { NoneProper(); }
    case False => PutBoth(G.WordText(G.False), []) by { NoneProper(); }
  }

  lemma NoneProper()
    ensures Proper([]) && Flat([]) == Some([])
  {
  }

  /** What the calls for a node come to. */
  ghost predicate Comes(steps: seq<Step>, text: Option<bytes>) {
    Flat(steps) == text && Proper(steps)
  }

  /** On good graphs the calls for a node come to its text. */
  lemma {:induction false} NodeFlat(g: Graph, n: Node, path: set<Node>, fl: Flags, depth: nat)
    requires Closed(g) && Good(g) && n in g.Keys && path <= g.Keys
    ensures Comes(NodeSteps(g, n, path, fl, depth), Text(g, n, path, fl, depth))
    decreases |g.Keys - path|, 0, 0
  {
    hide Flat, Proper, ListSteps, TableSteps, ListText, TableText, FieldOrder, ScalarSteps, RawText, Printable, Good, M.GoodText;
    TextFacts(g, n, path, fl, depth);
    NodeFacts(g, n, path, fl);
    match g[n]
    case Scalar(v) => ScalarFlat(v, fl, depth);
    case List(items) =>
      if n in path {
        StopFlat();
      } else {
        ListFlat(g, items, path + {n}, fl, depth);
      }
    case Table(fields) =>
      if n in path {
        StopFlat();
      } else {
        TableFlat(g, FieldOrder(fields, fl), path + {n}, fl, depth);
      }
  }

  lemma {:induction false} ListFlat(g: Graph, items: seq<Node>, path: set<Node>, fl: Flags, depth: nat)
    requires Closed(g) && Good(g) && path <= g.Keys && forall i :: 0 <= i < |items| ==> items[i] in g.Keys
    ensures Comes(ListSteps(g, items, path, fl, depth) + [Put([RBRACKET])], ListText(g, items, path, fl, depth))
    decreases |g.Keys - path|, 2, 0
  {
    hide Flat, Proper, SlotsSteps, SlotsText, IndentSteps, Good, Closed;
    NoneProper();
    PutBoth([RBRACKET], []);
    PutBoth([LBRACKET], []);
    if items == [] {
      Both([Put([LBRACKET])], [Put([RBRACKET])]);
      assert [Put([LBRACKET])] + [] == [Put([LBRACKET])] && [LBRACKET] + [RBRACKET] == [LBRACKET, RBRACKET];
    } else {
      SlotsFlat(g, items, path, fl, depth);
      Bracketed(LBRACKET, fl, depth, SlotsSteps(g, items, path, fl, depth), RBRACKET);
    }
  }

  lemma Bracketed(open: byte, fl: Flags, depth: nat, inner: seq<Step>, close: byte)
    requires Proper(inner)
    ensures var all := ([Put([open])] + (IndentSteps(fl, depth + 1, false) + inner)) + [Put([close])];
            Proper(all)
            && Flat(all) == if Flat(inner).None? then None else Some([open] + (Indent(fl, depth + 1, false) + (Flat(inner).value + [close])))
  {
    hide Flat, Proper, IndentSteps, Indent;
    var indent := IndentSteps(fl, depth + 1, false);
    IndentFlat(fl, depth + 1, false);
    Both(indent, inner);
    PutBoth([open], indent + inner);
    NoneProper();
    PutBoth([close], []);
    Both([Put([open])] + (indent + inner), [Put([close])]);
    if Flat(inner).Some? {
      var i, t := Indent(fl, depth + 1, false), Flat(inner).value;
      assert ([open] + (i + t)) + [close] == [open] + (i + (t + [close]));
    }
  }

  lemma {:induction false} SlotsFlat(g: Graph, items: seq<Node>, path: set<Node>, fl: Flags, depth: nat)
    requires Closed(g) && Good(g) && path <= g.Keys && forall i :: 0 <= i < |items| ==> items[i] in g.Keys
    requires items != []
    ensures Comes(SlotsSteps(g, items, path, fl, depth), SlotsText(g, items, path, fl, depth))
    decreases |g.Keys - path|, 1, |items|
  {
    hide Flat, Proper, NodeSteps, BetweenSteps, Text, Indent, Good, Closed;
    var last := |items| == 1;
    NodeFlat(g, items[0], path, fl, depth + 1);
    BetweenFlat(fl, depth, last);
    if last {
      NoneProper();
    } else {
      SlotsFlat(g, items[1..], path, fl, depth);
    }
    var a, b, c := NodeSteps(g, items[0], path, fl, depth + 1), BetweenSteps(fl, depth, last), SlotsSteps(g, items[1..], path, fl, depth);
    assert SlotsSteps(g, items, path, fl, depth) == a + (b + c);
    ThreeParts(a, b, c);
  }

  lemma ThreeParts(a: seq<Step>, b: seq<Step>, c: seq<Step>)
    requires Proper(a) && Proper(b) && Proper(c) && Flat(b).Some?
    ensures Proper(a + (b + c))
    ensures Flat(a + (b + c)) == if Flat(a).None? then None else Glue(Flat(a).value + Flat(b).value, Flat(c))
    ensures Flat(a).Some? && Flat(c) == Some([]) ==> Flat(a + (b + c)) == Some(Flat(a).value + Flat(b).value)
  {
    hide Flat, Proper;
    Both(b, c);
    Both(a, b + c);
    if Flat(a).Some? {
      GlueTwice(Flat(a).value, Flat(b).value, Flat(c));
      assert Flat(a).value + Flat(b).value + [] == Flat(a).value + Flat(b).value;
    }
  }

  lemma {:induction false} TableFlat(g: Graph, fields: seq<Field>, path: set<Node>, fl: Flags, depth: nat)
    requires Closed(g) && Good(g) && path <= g.Keys
    requires forall i :: 0 <= i < |fields| ==> fields[i].node in g.Keys && M.GoodText(fields[i].key)
    ensures Comes(TableSteps(g, fields, path, fl, depth) + [Put([RBRACE])], TableText(g, fields, path, fl, depth))
    decreases |g.Keys - path|, 2, 0
  {
    hide Flat, Proper, PairsSteps, PairsText, IndentSteps, Good, Closed, M.GoodText;
    NoneProper();
    PutBoth([RBRACE], []);
    PutBoth([LBRACE], []);
    if fields == [] {
      Both([Put([LBRACE])], [Put([RBRACE])]);
      assert [Put([LBRACE])] + [] == [Put([LBRACE])] && [LBRACE] + [RBRACE] == [LBRACE, RBRACE];
    } else {
      PairsFlat(g, fields, path, fl, depth);
      Bracketed(LBRACE, fl, depth, PairsSteps(g, fields, path, fl, depth), RBRACE);
    }
  }

  lemma {:induction false} PairsFlat(g: Graph, fields: seq<Field>, path: set<Node>, fl: Flags, depth: nat)
    requires Closed(g) && Good(g) && path <= g.Keys && fields != []
    requires forall i :: 0 <= i < |fields| ==> fields[i].node in g.Keys && M.GoodText(fields[i].key)
    ensures Comes(PairsSteps(g, fields, path, fl, depth), PairsText(g, fields, path, fl, depth))
    decreases |g.Keys - path|, 1, |fields|
  {
    hide Flat, Proper, PairSteps, BetweenSteps, NodeSteps, Text, Indent, Good, Closed, StringText, Separator, M.GoodText;
    var last := |fields| == 1;
    NodeFlat(g, fields[0].node, path, fl, depth + 1);
    assert M.GoodText(fields[0].key);
    PairComes(g, fields[0], path, fl, depth);
    BetweenFlat(fl, depth, last);
    if last {
      NoneProper();
    } else {
      PairsFlat(g, fields[1..], path, fl, depth);
    }
    var a, b, c := PairSteps(g, fields[0], path, fl, depth), BetweenSteps(fl, depth, last), PairsSteps(g, fields[1..], path, fl, depth);
    ThreeParts(a, b, c);
  }

  /** One pair's calls, given those of its value. */
  lemma PairComes(g: Graph, field: Field, path: set<Node>, fl: Flags, depth: nat)
    requires Closed(g) && Good(g) && path <= g.Keys && field.node in g.Keys && M.GoodText(field.key)
    requires Comes(NodeSteps(g, field.node, path, fl, depth + 1), Text(g, field.node, path, fl, depth + 1))
    ensures Comes(PairSteps(g, field, path, fl, depth),
                  var t := Text(g, field.node, path, fl, depth + 1);
                  if t.None? then None else Some(StringText(field.key, fl.ascii) + (Separator(fl) + t.value)))
  {
    hide Flat, Proper, NodeSteps, Text, Good, Closed, StringText, Separator;
    PairFlat(field.key, fl, NodeSteps(g, field.node, path, fl, depth + 1));
  }

  lemma PairFlat(key: bytes, fl: Flags, node: seq<Step>)
    requires Utf8.ValidText(key) && Proper(node)
    ensures var all := [Unchecked(StringSteps(key, fl.ascii))] + ([Put(Separator(fl))] + node);
            && Proper(all)
            && Flat(all) == if Flat(node).None? then None else Some(StringText(key, fl.ascii) + (Separator(fl) + Flat(node).value))
  {
    var inner := StringSteps(key, fl.ascii);
    StringFlat(key, fl.ascii);
    PutBoth(Separator(fl), node);
    var more := [Put(Separator(fl))] + node;
    assert ([Unchecked(inner)] + more)[1..] == more;
  }
}
