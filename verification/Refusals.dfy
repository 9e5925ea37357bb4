/**
  What a successful dump is worth when the sink refuses calls: do_dump does not look at the
  result of writing a key.
 */
module Refusals {
  import opened Bytes
  import opened Calls
  import opened Cycles
  import opened Dumping
  import opened Printing
  import opened Texts
  import opened Values
  import G = Grammar
  import R = RoundTrip
  import Utf8

  /** The calls of a dump whose result is not looked at, by their number when none before
      them is refused: those for the pieces of keys. */
  ghost predicate KeyCall(g: Graph, root: Node, fl: Flags, k: nat, i: nat)
    requires Closed(g) && root in g.Keys
  {
    UncheckedCall(NodeSteps(g, root, {}, fl, 0), k, i)
  }

  /** After a successful dump of good strings the text is there exactly if the sink refuses no
      call for a piece of a key; otherwise less has been written. */
  lemma LostIff(g: Graph, root: Node, fl: Flags, refuses: nat -> bool, k: nat)
    requires Closed(g) && Good(g) && root in g.Keys && Play(NodeSteps(g, root, {}, fl, 0), refuses, k).ok
    ensures Printable(Tree(g, root, {})) && WellFormed(Tree(g, root, {})) && !Cyclic(g, root)
    ensures var out, text := Play(NodeSteps(g, root, {}, fl, 0), refuses, k).out, R.DumpText(Tree(g, root, {}), fl, 0);
            && (out == text <==> forall i: nat :: KeyCall(g, root, fl, k, i) ==> !refuses(i))
            && (out != text ==> |out| < |text|)
  {
    hide Cyclic, Tree, Good, NodeSteps, Play, Flat, Proper, R.DumpText;
    DumpFlat(g, root, fl);
    var steps := NodeSteps(g, root, {}, fl, 0);
    if Flat(steps).None? {
      NotFlat(steps, refuses, k);
    } else {
      PlayAll(steps, refuses, k);
      PlayUnchecked(steps, refuses, k);
    }
  }

  /** A dump of good strings without a cycle writes its text and succeeds exactly if the sink
      refuses none of the calls that this takes. */
  lemma WrittenIff(g: Graph, root: Node, fl: Flags, refuses: nat -> bool, k: nat)
    requires Closed(g) && Good(g) && root in g.Keys && !Cyclic(g, root)
    ensures Printable(Tree(g, root, {})) && WellFormed(Tree(g, root, {}))
    ensures var p := Play(NodeSteps(g, root, {}, fl, 0), refuses, k);
            p.ok && p.out == R.DumpText(Tree(g, root, {}), fl, 0) <==> Accepts(refuses, k, Count(NodeSteps(g, root, {}, fl, 0)))
  {
    hide Cyclic, Tree, Good, NodeSteps, Play, Flat, Proper, R.DumpText;
    DumpFlat(g, root, fl);
    PlayAll(NodeSteps(g, root, {}, fl, 0), refuses, k);
  }

  // --------------------------------------------------------------- two examples

  const COMPACT := Flags(0, true, false, false, false)

  /** An object with one pair, whose value is null. */
  ghost function OnePair(root: Node, leaf: Node, key: bytes): Graph {
    map[root := Table([Field(key, 0, leaf)]), leaf := Scalar(Null)]
  }

  lemma OnePairSteps(root: Node, leaf: Node, key: bytes)
    requires root != leaf && 0 !in key
    ensures Closed(OnePair(root, leaf, key))
    ensures NodeSteps(OnePair(root, leaf, key), root, {}, COMPACT, 0)
            == [Put([LBRACE])] + ([Unchecked(StringSteps(key, false))] + ([Put([COLON])] + ([Put(G.WordText(G.Null))] + [Put([RBRACE])])))
  {
    hide StringSteps;
    var g := OnePair(root, leaf, key);
    var fields := [Field(key, 0, leaf)];
    assert FieldOrder(fields, COMPACT) == fields && fields[1..] == [];
    assert NodeSteps(g, leaf, {root}, COMPACT, 1) == [Put(G.WordText(G.Null))];
    assert PairSteps(g, fields[0], {root}, COMPACT, 0)
           == [Unchecked(StringSteps(key, false))] + ([Put([COLON])] + [Put(G.WordText(G.Null))]);
    assert PairsSteps(g, fields, {root}, COMPACT, 0) == PairSteps(g, fields[0], {root}, COMPACT, 0);
    assert TableSteps(g, fields, {root}, COMPACT, 0) == [Put([LBRACE])] + PairsSteps(g, fields, {root}, COMPACT, 0);
    assert {} + {root} == {root};
  }

  lemma PlayAround(inner: seq<Step>, lost: bytes, refuses: nat -> bool, k: nat)
    requires !refuses(0) && Play(inner, refuses, 1).out == lost && Play(inner, refuses, 1).calls == k
    requires !refuses(k) && !refuses(k + 1) && !refuses(k + 2)
    ensures var p := Play([Put([LBRACE])] + ([Unchecked(inner)] + ([Put([COLON])] + ([Put(G.WordText(G.Null))] + [Put([RBRACE])]))), refuses, 0);
            p.ok && p.out == [LBRACE] + (lost + [COLON, 110, 117, 108, 108, RBRACE])
  {
    var end := [Put([RBRACE])];
    var value := [Put(G.WordText(G.Null))] + end;
    var colon := [Put([COLON])] + value;
    assert end == [Put([RBRACE])] + [];
    PlayPut([RBRACE], [], refuses, k + 2);
    PlayPut(G.WordText(G.Null), end, refuses, k + 1);
    PlayPut([COLON], value, refuses, k);
    PlayOverlooked(inner, colon, refuses, 1);
    PlayPut([LBRACE], [Unchecked(inner)] + colon, refuses, 0);
  }

  /** A sink that refuses the first piece of the key a: the dump succeeds and has written
      {:null} for {"a":null}. */
  lemma KeyLost(root: Node, leaf: Node)
    requires root != leaf
    ensures var g := OnePair(root, leaf, [97]);
            && Closed(g) && Good(g)
            && var p := Play(NodeSteps(g, root, {}, COMPACT, 0), n => n == 1, 0);
               p.ok && p.out == [LBRACE] + ([] + [COLON, 110, 117, 108, 108, RBRACE])
  {
    var refuses: nat -> bool := n => n == 1;
    OnePairSteps(root, leaf, [97]);
    R.AsciiGood([97]);
    PlayPut([QUOTE], TailSteps([97], false), refuses, 1);
    PlayAround(StringSteps([97], false), [], refuses, 2);
  }

  /** A key that is no UTF-8, and a sink that refuses nothing: the dump succeeds and has
      written {":null}. */
  lemma KeyBroken(root: Node, leaf: Node)
    requires root != leaf
    ensures var g := OnePair(root, leaf, [0xFF]);
            && Closed(g)
            && var p := Play(NodeSteps(g, root, {}, COMPACT, 0), n => false, 0);
               p.ok && p.out == [LBRACE] + ([QUOTE] + [COLON, 110, 117, 108, 108, RBRACE])
  {
    var refuses: nat -> bool := n => false;
    OnePairSteps(root, leaf, [0xFF]);
    assert TailSteps([0xFF], false) == [Stop];
    assert Play([Stop], refuses, 2) == Played(false, [], 2);
    PlayPut([QUOTE], [Stop], refuses, 1);
    PlayAround(StringSteps([0xFF], false), [QUOTE], refuses, 2);
  }

  // --------------------------------------------------------- keys that are no UTF-8

  /** No step returns -1 by itself, calls that are not checked apart. */
  predicate Sure(steps: seq<Step>) {
    forall i :: 0 <= i < |steps| ==> !steps[i].Stop?
  }

  /** Somewhere a return of -1 is not noticed. */
  ghost predicate CutShort(steps: seq<Step>, refuses: nat -> bool, k: nat)
    decreases steps
  {
    steps != [] && match steps[0]
                   case Stop => false
                   case Put(_) => !refuses(k) && CutShort(steps[1..], refuses, k + 1)
                   case Unchecked(inner) =>
                     var p := Play(inner, refuses, k);
                     !p.ok || CutShort(inner, refuses, k) || CutShort(steps[1..], refuses, p.calls)
  }

  lemma SureConcat(a: seq<Step>, b: seq<Step>)
    ensures Sure(a + b) <==> Sure(a) && Sure(b)
  {
    assert forall i :: 0 <= i < |a| ==> (a + b)[i] == a[i];
    assert forall i :: 0 <= i < |b| ==> (a + b)[|a|+i] == b[i];
  }

  lemma {:induction false} FlatSure(steps: seq<Step>)
    requires Flat(steps).Some?
    ensures Sure(steps)
  {
    if steps != [] {
      FlatSure(steps[1..]);
      assert forall i :: 0 < i < |steps| ==> steps[i] == steps[1..][i-1];
    }
  }

  /** If nothing is refused, only a return of -1 keeps the dump from success, and it is cut
      short exactly if it would stop were the result of every call looked at. */
  lemma {:induction false} CutIff(steps: seq<Step>, refuses: nat -> bool, k: nat)
    requires forall i :: k <= i ==> !refuses(i)
    ensures Play(steps, refuses, k).ok <==> Sure(steps)
    ensures Play(steps, refuses, k).calls >= k
    ensures Sure(steps) ==> (CutShort(steps, refuses, k) <==> Flat(steps).None?)
    decreases steps
  {
    if steps != [] {
      assert Sure(steps) <==> !steps[0].Stop? && Sure(steps[1..]) by {
        SureConcat([steps[0]], steps[1..]);
        assert [steps[0]] + steps[1..] == steps;
        assert Sure([steps[0]]) <==> !steps[0].Stop? by {
          assert [steps[0]][0] == steps[0];
        }
      }
      hide Sure;
      match steps[0]
      case Stop =>
      case Put(_) =>
        CutIff(steps[1..], refuses, k + 1);
      case Unchecked(inner) =>
        CutIff(inner, refuses, k);
        CutIff(steps[1..], refuses, Play(inner, refuses, k).calls);
        if Flat(inner).Some? {
          FlatSure(inner);
        }
    }
  }

  /** Whether steps go through if their unchecked parts are not looked at, and if they are. */
  ghost predicate Told(steps: seq<Step>, sure: bool, whole: bool) {
    (Sure(steps) <==> sure) && (Flat(steps).Some? <==> whole)
  }

  lemma ToldBoth(a: seq<Step>, b: seq<Step>, sureA: bool, wholeA: bool, sureB: bool, wholeB: bool)
    requires Told(a, sureA, wholeA) && Told(b, sureB, wholeB)
    ensures Told(a + b, sureA && sureB, wholeA && wholeB)
  {
    hide Sure, Flat;
    SureConcat(a, b);
    FlatConcat(a, b);
  }

  lemma ToldFlat(a: seq<Step>)
    requires Flat(a).Some?
    ensures Told(a, true, true)
  {
    FlatSure(a);
  }

  lemma ToldPut(t: bytes)
    ensures Told([Step.Put(t)], true, true)
  {
    FlatPut(t, []);
    hide Flat;
    ToldFlat([Step.Put(t)]);
  }

  ghost predicate GoodScalars(g: Graph) {
    forall n <- g.Keys :: g[n].Scalar? ==> Printable(g[n].value)
  }

  /** Every key below a node is valid UTF-8, as far as containers are not met again. */
  ghost predicate KeysValid(g: Graph, n: Node, path: set<Node>)
    requires Closed(g) && n in g.Keys && path <= g.Keys
    decreases |g.Keys - path|
  {
    n in path ||
    match g[n]
    case Scalar(_) => true
    case List(items) => Smaller(g, path, n); forall i :: 0 <= i < |items| ==> KeysValid(g, items[i], path + {n})
    case Table(fields) =>
      Smaller(g, path, n);
      forall i :: 0 <= i < |fields| ==> Utf8.ValidText(fields[i].key) && KeysValid(g, fields[i].node, path + {n})
  }

  ghost predicate Fine(g: Graph, n: Node, path: set<Node>)
    requires Closed(g) && n in g.Keys && path <= g.Keys
  {
    Acyclic(g, n, path) && KeysValid(g, n, path)
  }

  ghost predicate AllFine(g: Graph, items: seq<Node>, path: set<Node>)
    requires Closed(g) && path <= g.Keys && forall i :: 0 <= i < |items| ==> items[i] in g.Keys
  {
    forall i :: 0 <= i < |items| ==> Fine(g, items[i], path)
  }

  ghost predicate FieldsFine(g: Graph, fields: seq<Field>, path: set<Node>)
    requires Closed(g) && path <= g.Keys && forall i :: 0 <= i < |fields| ==> fields[i].node in g.Keys
  {
    forall i :: 0 <= i < |fields| ==> Utf8.ValidText(fields[i].key) && Fine(g, fields[i].node, path)
  }

  lemma BelowNode(g: Graph, n: Node, path: set<Node>)
    requires Closed(g) && n in g.Keys && path <= g.Keys && !g[n].Scalar? && n !in path
    ensures |g.Keys - (path + {n})| < |g.Keys - path|
    ensures g[n].List? ==> (Acyclic(g, n, path) <==> AllAcyclic(g, g[n].items, path + {n}))
                           && (Fine(g, n, path) <==> AllFine(g, g[n].items, path + {n}))
    ensures g[n].Table? ==> (Acyclic(g, n, path) <==> FieldsAcyclic(g, g[n].fields, path + {n}))
                            && (Fine(g, n, path) <==> FieldsFine(g, g[n].fields, path + {n}))
  {
    hide Utf8.ValidText;
    Smaller(g, path, n);
  }

  lemma OrderFine(g: Graph, fields: seq<Field>, path: set<Node>, fl: Flags)
    requires Closed(g) && path <= g.Keys && (forall i :: 0 <= i < |fields| ==> fields[i].node in g.Keys) && DistinctFields(fields)
    ensures var fs := FieldOrder(fields, fl);
            (forall i :: 0 <= i < |fs| ==> fs[i].node in g.Keys) && (FieldsFine(g, fs, path) <==> FieldsFine(g, fields, path))
  {
    hide Fine, Closed, Utf8.ValidText;
    var fs := FieldOrder(fields, fl);
    AllFields(fields, fl);
    if FieldsFine(g, fields, path) {
      forall i | 0 <= i < |fs|
        ensures Utf8.ValidText(fs[i].key) && Fine(g, fs[i].node, path)
      {
        assert fs[i] in fields;
      }
    }
    if FieldsFine(g, fs, path) {
      forall i | 0 <= i < |fields|
        ensures Utf8.ValidText(fields[i].key) && Fine(g, fields[i].node, path)
      {
        assert fields[i] in fs;
      }
    }
  }

  /** The steps of a node go through exactly if there is no cycle below it, and with their
      unchecked parts if its keys are valid besides. */
  lemma {:induction false} NodeTold(g: Graph, n: Node, path: set<Node>, fl: Flags, depth: nat)
    requires Closed(g) && GoodScalars(g) && n in g.Keys && path <= g.Keys
    ensures Told(NodeSteps(g, n, path, fl, depth), Acyclic(g, n, path), Fine(g, n, path))
    decreases |g.Keys - path|, 0, 1
  {
    hide Told, ListSteps, TableSteps, FieldOrder, ScalarSteps, Printable, Utf8.ValidText;
    NodeFacts(g, n, path, fl);
    if g[n].Scalar? {
      ScalarFlat(g[n].value, fl, depth);
      ToldFlat(ScalarSteps(g[n].value, fl));
    } else if n in path {
      ToldStop();
    } else if g[n].List? {
      BelowNode(g, n, path);
      ListTold(g, g[n].items, path + {n}, fl, depth);
      ToldPut([RBRACKET]);
      hide Fine, Acyclic;
      ToldBoth(ListSteps(g, g[n].items, path + {n}, fl, depth), [Step.Put([RBRACKET])],
               Acyclic(g, n, path), Fine(g, n, path), true, true);
    } else {
      TableNodeTold(g, n, path, fl, depth);
    }
  }

  lemma ToldStop()
    ensures Told([Stop], false, false)
  {
    assert [Stop][0].Stop?;
  }

  lemma {:induction false} TableNodeTold(g: Graph, n: Node, path: set<Node>, fl: Flags, depth: nat)
    requires Closed(g) && GoodScalars(g) && n in g.Keys && path <= g.Keys && g[n].Table? && n !in path
    ensures Told(NodeSteps(g, n, path, fl, depth), Acyclic(g, n, path), Fine(g, n, path))
    decreases |g.Keys - path|, 0, 0
  {
    hide Told, TableSteps, FieldOrder, Printable, Utf8.ValidText;
    var fields := g[n].fields;
    NodeFacts(g, n, path, fl);
    BelowNode(g, n, path);
    assert KindOk(g[n]);
    OrderFine(g, fields, path + {n}, fl);
    OrderAcyclic(g, fields, path + {n}, fl);
    hide Fine, Acyclic, FieldsFine, FieldsAcyclic;
    TableTold(g, FieldOrder(fields, fl), path + {n}, fl, depth);
    ToldPut([RBRACE]);
    ToldBoth(TableSteps(g, FieldOrder(fields, fl), path + {n}, fl, depth), [Step.Put([RBRACE])],
             Acyclic(g, n, path), Fine(g, n, path), true, true);
  }

  lemma {:induction false} ListTold(g: Graph, items: seq<Node>, path: set<Node>, fl: Flags, depth: nat)
    requires Closed(g) && GoodScalars(g) && path <= g.Keys && forall i :: 0 <= i < |items| ==> items[i] in g.Keys
    ensures Told(ListSteps(g, items, path, fl, depth), AllAcyclic(g, items, path), AllFine(g, items, path))
    decreases |g.Keys - path|, 2, 0
  {
    hide Told, SlotsSteps, IndentSteps, Fine, Acyclic, GoodScalars, Closed;
    ToldPut([LBRACKET]);
    if items == [] {
      assert [Step.Put([LBRACKET])] + [] == [Step.Put([LBRACKET])];
    } else {
      SlotsTold(g, items, path, fl, depth);
      ToldOpen(LBRACKET, fl, depth, SlotsSteps(g, items, path, fl, depth), AllAcyclic(g, items, path), AllFine(g, items, path));
    }
  }

  lemma ToldOpen(open: byte, fl: Flags, depth: nat, inner: seq<Step>, sure: bool, whole: bool)
    requires Told(inner, sure, whole)
    ensures Told([Step.Put([open])] + (IndentSteps(fl, depth + 1, false) + inner), sure, whole)
  {
    var indent := IndentSteps(fl, depth + 1, false);
    IndentFlat(fl, depth + 1, false);
    hide Told, IndentSteps, Flat;
    ToldFlat(indent);
    ToldPut([open]);
    ToldBoth(indent, inner, true, true, sure, whole);
    ToldBoth([Step.Put([open])], indent + inner, true, true, sure, whole);
  }

  lemma ToldThree(a: seq<Step>, fl: Flags, depth: nat, last: bool, c: seq<Step>, sureA: bool, wholeA: bool, sureC: bool, wholeC: bool)
    requires Told(a, sureA, wholeA) && Told(c, sureC, wholeC)
    ensures Told(a + (BetweenSteps(fl, depth, last) + c), sureA && sureC, wholeA && wholeC)
  {
    var b := BetweenSteps(fl, depth, last);
    BetweenFlat(fl, depth, last);
    hide Told, BetweenSteps, Flat;
    ToldFlat(b);
    ToldBoth(b, c, true, true, sureC, wholeC);
    ToldBoth(a, b + c, sureA, wholeA, sureC, wholeC);
  }

  lemma ToldNothing()
    ensures Told([], true, true)
  {
  }

  lemma {:induction false} SlotsTold(g: Graph, items: seq<Node>, path: set<Node>, fl: Flags, depth: nat)
    requires Closed(g) && GoodScalars(g) && path <= g.Keys && forall i :: 0 <= i < |items| ==> items[i] in g.Keys
    ensures Told(SlotsSteps(g, items, path, fl, depth), AllAcyclic(g, items, path), AllFine(g, items, path))
    decreases |g.Keys - path|, 1, |items|
  {
    hide Told, NodeSteps, BetweenSteps, Fine, Acyclic, GoodScalars, Closed;
    if items == [] {
      ToldNothing();
    } else {
      var rest := items[1..];
      NodeTold(g, items[0], path, fl, depth + 1);
      SlotsTold(g, rest, path, fl, depth);
      assert AllAcyclic(g, items, path) <==> Acyclic(g, items[0], path) && AllAcyclic(g, rest, path) by {
        assert forall i :: 0 < i < |items| ==> items[i] == rest[i-1];
      }
      assert AllFine(g, items, path) <==> Fine(g, items[0], path) && AllFine(g, rest, path) by {
        assert forall i :: 0 < i < |items| ==> items[i] == rest[i-1];
      }
      hide AllFine, AllAcyclic;
      ToldThree(NodeSteps(g, items[0], path, fl, depth + 1), fl, depth, |items| == 1, SlotsSteps(g, rest, path, fl, depth),
                Acyclic(g, items[0], path), Fine(g, items[0], path), AllAcyclic(g, rest, path), AllFine(g, rest, path));
    }
  }

  lemma {:induction false} TableTold(g: Graph, fields: seq<Field>, path: set<Node>, fl: Flags, depth: nat)
    requires Closed(g) && GoodScalars(g) && path <= g.Keys && forall i :: 0 <= i < |fields| ==> fields[i].node in g.Keys
    ensures Told(TableSteps(g, fields, path, fl, depth), FieldsAcyclic(g, fields, path), FieldsFine(g, fields, path))
    decreases |g.Keys - path|, 2, 0
  {
    hide Told, PairsSteps, IndentSteps, Fine, Acyclic, GoodScalars, Closed;
    ToldPut([LBRACE]);
    if fields == [] {
      assert [Step.Put([LBRACE])] + [] == [Step.Put([LBRACE])];
    } else {
      PairsTold(g, fields, path, fl, depth);
      ToldOpen(LBRACE, fl, depth, PairsSteps(g, fields, path, fl, depth), FieldsAcyclic(g, fields, path), FieldsFine(g, fields, path));
    }
  }

  lemma {:induction false} PairsTold(g: Graph, fields: seq<Field>, path: set<Node>, fl: Flags, depth: nat)
    requires Closed(g) && GoodScalars(g) && path <= g.Keys && forall i :: 0 <= i < |fields| ==> fields[i].node in g.Keys
    ensures Told(PairsSteps(g, fields, path, fl, depth), FieldsAcyclic(g, fields, path), FieldsFine(g, fields, path))
    decreases |g.Keys - path|, 1, |fields|
  {
    hide Told, PairSteps, BetweenSteps, Fine, Acyclic, GoodScalars, Closed, Utf8.ValidText;
    if fields == [] {
      ToldNothing();
    } else {
      var f, rest := fields[0], fields[1..];
      NodeTold(g, f.node, path, fl, depth + 1);
      PairTold(g, f, path, fl, depth);
      PairsTold(g, rest, path, fl, depth);
      assert FieldsAcyclic(g, fields, path) <==> Acyclic(g, f.node, path) && FieldsAcyclic(g, rest, path) by {
        assert forall i :: 0 < i < |fields| ==> fields[i] == rest[i-1];
      }
      assert FieldsFine(g, fields, path) <==> Utf8.ValidText(f.key) && Fine(g, f.node, path) && FieldsFine(g, rest, path) by {
        assert forall i :: 0 < i < |fields| ==> fields[i] == rest[i-1];
      }
      hide FieldsFine, FieldsAcyclic;
      ToldThree(PairSteps(g, f, path, fl, depth), fl, depth, |fields| == 1, PairsSteps(g, rest, path, fl, depth),
                Acyclic(g, f.node, path), Utf8.ValidText(f.key) && Fine(g, f.node, path), FieldsAcyclic(g, rest, path), FieldsFine(g, rest, path));
    }
  }

  /** A pair, its value being told of. */
  lemma PairTold(g: Graph, f: Field, path: set<Node>, fl: Flags, depth: nat)
    requires Closed(g) && path <= g.Keys && f.node in g.Keys
    requires Told(NodeSteps(g, f.node, path, fl, depth + 1), Acyclic(g, f.node, path), Fine(g, f.node, path))
    ensures Told(PairSteps(g, f, path, fl, depth), Acyclic(g, f.node, path), Utf8.ValidText(f.key) && Fine(g, f.node, path))
  {
    hide Told, NodeSteps, Fine, Acyclic, Closed, Utf8.ValidText;
    var node := NodeSteps(g, f.node, path, fl, depth + 1);
    KeyTold(f.key, fl.ascii);
    ToldPut(Separator(fl));
    ToldBoth([Step.Put(Separator(fl))], node, true, true, Acyclic(g, f.node, path), Fine(g, f.node, path));
    ToldBoth([Unchecked(StringSteps(f.key, fl.ascii))], [Step.Put(Separator(fl))] + node,
             true, Utf8.ValidText(f.key), Acyclic(g, f.node, path), Fine(g, f.node, path));
  }

  lemma KeyTold(key: bytes, ascii: bool)
    ensures Told([Unchecked(StringSteps(key, ascii))], true, Utf8.ValidText(key))
  {
    hide StringSteps, Utf8.ValidText;
    var steps := [Unchecked(StringSteps(key, ascii))];
    StringFlat(key, ascii);
    assert steps[1..] == [] && Flat([]) == Some([]);
    assert Flat(steps).Some? <==> Flat(StringSteps(key, ascii)).Some?;
    assert Sure(steps);
  }

  // ------------------------------------------------------------- reachable keys

  /** A walk from a node ends at an object with a key that is no UTF-8. */
  ghost predicate BadKey(g: Graph, n: Node) {
    exists w, i :: IsWalk(g, w) && w[0] == n && HasBadKey(g, Last(w), i)
  }

  predicate HasBadKey(g: Graph, n: Node, i: nat) {
    n in g.Keys && g[n].Table? && i < |g[n].fields| && !Utf8.ValidText(g[n].fields[i].key)
  }

  lemma BadChild(g: Graph, n: Node, path: set<Node>) returns (c: Node)
    requires Closed(g) && n in g.Keys && path <= g.Keys && !KeysValid(g, n, path) && forall j :: !HasBadKey(g, n, j)
    ensures n !in path && c in g.Keys && path + {n} <= g.Keys && HasChild(g[n], c) && !KeysValid(g, c, path + {n})
  {
    hide Utf8.ValidText;
    Smaller(g, path, n);
    if g[n].List? {
      var j :| 0 <= j < |g[n].items| && !KeysValid(g, g[n].items[j], path + {n});
      c := g[n].items[j];
    } else {
      forall j | 0 <= j < |g[n].fields|
        ensures Utf8.ValidText(g[n].fields[j].key)
      {
        assert !HasBadKey(g, n, j);
      }
      var j :| 0 <= j < |g[n].fields| && !KeysValid(g, g[n].fields[j].node, path + {n});
      c := g[n].fields[j].node;
    }
  }

  lemma {:induction false} BadKeyFound(g: Graph, n: Node, path: set<Node>) returns (w: seq<Node>, i: nat)
    requires Closed(g) && n in g.Keys && path <= g.Keys && !KeysValid(g, n, path)
    ensures IsWalk(g, w) && w[0] == n && HasBadKey(g, Last(w), i)
    decreases |g.Keys - path|
  {
    hide Utf8.ValidText;
    Smaller(g, path, n);
    if j :| HasBadKey(g, n, j) {
      w, i := [n], j;
    } else {
      var c := BadChild(g, n, path);
      var v;
      v, i := BadKeyFound(g, c, path + {n});
      WalkCons(g, n, v);
      w := [n] + v;
    }
  }

  lemma {:induction false} NoBadKey(g: Graph, n: Node, path: set<Node>, w: seq<Node>, i: nat)
    requires Closed(g) && n in g.Keys && path <= g.Keys && Fine(g, n, path) && IsWalk(g, w) && w[0] == n
    ensures !HasBadKey(g, Last(w), i)
    decreases |w|
  {
    hide Utf8.ValidText;
    if |w| > 1 {
      WalkTail(g, w);
      Below(g, n, path, w[1]);
      NoBadKey(g, w[1], path + {n}, w[1..], i);
    } else if g[n].Table? {
      Smaller(g, path, n);
    }
  }

  /** Into a sink that refuses nothing, the dump of a graph whose values can be printed succeeds
      exactly when no cycle can be reached, whatever its keys are; and then something is cut
      short exactly when a key can be reached that is no UTF-8. */
  lemma CutShortIff(g: Graph, root: Node, fl: Flags, refuses: nat -> bool, k: nat)
    requires Closed(g) && GoodScalars(g) && root in g.Keys && forall i :: k <= i ==> !refuses(i)
    ensures var steps := NodeSteps(g, root, {}, fl, 0);
            && (Play(steps, refuses, k).ok <==> !Cyclic(g, root))
            && (!Cyclic(g, root) ==> (CutShort(steps, refuses, k) <==> BadKey(g, root)))
  {
    hide Cyclic, Acyclic, GoodScalars, NodeSteps, Play, CutShort, HasBadKey;
    var steps := NodeSteps(g, root, {}, fl, 0);
    NodeTold(g, root, {}, fl, 0);
    CutIff(steps, refuses, k);
    AcyclicIff(g, root);
    if Acyclic(g, root, {}) && !KeysValid(g, root, {}) {
      var w, i := BadKeyFound(g, root, {});
    }
    if w, i :| IsWalk(g, w) && w[0] == root && HasBadKey(g, Last(w), i) {
      if Fine(g, root, {}) {
        NoBadKey(g, root, {}, w, i);
      }
    }
  }
}
