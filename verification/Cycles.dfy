/**
  What do_dump's visited flags decide: the dump of a graph succeeds exactly when no walk
  from its root closes a cycle, and is then the dump of the tree the graph unfolds to.
 */
module Cycles {
  import opened Bytes
  import opened Calls
  import opened Dumping
  import opened Printing
  import opened Texts
  import opened Values
  import M = Meaning
  import O = Ordering
  import R = RoundTrip

  // --------------------------------------------------------------------- walks

  predicate IsContainer(k: Kind) { !k.Scalar? }

  predicate HasChild(k: Kind, m: Node) {
    match k
    case Scalar(_) => false
    case List(items) => m in items
    case Table(fields) => exists i :: 0 <= i < |fields| && fields[i].node == m
  }

  predicate IsWalk(g: Graph, older w: seq<Node>) {
    && w != [] && (forall i :: 0 <= i < |w| ==> w[i] in g.Keys)
    && forall i :: 0 <= i < |w| - 1 ==> HasChild(g[w[i]], w[i+1])
  }

  function Last(w: seq<Node>): Node
    requires w != []
  {
    w[|w|-1]
  }

  /** The walk comes back to where it has been. */
  predicate Closes(w: seq<Node>) {
    w != [] && exists i :: 0 <= i < |w| - 1 && w[i] == Last(w)
  }

  /** A cycle can be reached. */
  ghost predicate Cyclic(g: Graph, n: Node) {
    exists w :: IsWalk(g, w) && w[0] == n && Closes(w)
  }

  /** What the flags compute: no container is met below itself or below the path. */
  ghost predicate Acyclic(g: Graph, n: Node, path: set<Node>)
    requires Closed(g) && n in g.Keys && path <= g.Keys
    decreases |g.Keys - path|
  {
    match g[n]
    case Scalar(_) => true
    case List(items) =>
      n !in path && (Smaller(g, path, n); forall i :: 0 <= i < |items| ==> Acyclic(g, items[i], path + {n}))
    case Table(fields) =>
      n !in path && (Smaller(g, path, n); forall i :: 0 <= i < |fields| ==> Acyclic(g, fields[i].node, path + {n}))
  }

  lemma Below(g: Graph, n: Node, path: set<Node>, c: Node)
    requires Closed(g) && n in g.Keys && path <= g.Keys && HasChild(g[n], c) && Acyclic(g, n, path)
    ensures c in g.Keys && n !in path && |g.Keys - (path + {n})| < |g.Keys - path| && Acyclic(g, c, path + {n})
  {
    Smaller(g, path, n);
  }

  lemma WalkTail(g: Graph, w: seq<Node>)
    requires IsWalk(g, w) && |w| > 1
    ensures HasChild(g[w[0]], w[1]) && IsWalk(g, w[1..]) && Last(w[1..]) == Last(w)
    ensures Closes(w) ==> w[0] == Last(w) || Closes(w[1..])
  {
    var v := w[1..];
    assert forall i :: 0 <= i < |v| ==> v[i] == w[i+1];
    if i :| 0 <= i < |w| - 1 && w[i] == Last(w) {
      if i > 0 {
        assert v[i-1] == Last(v);
      }
    }
  }

  lemma WalkCons(g: Graph, n: Node, v: seq<Node>)
    requires n in g.Keys && IsWalk(g, v) && HasChild(g[n], v[0])
    ensures var w := [n] + v; IsWalk(g, w) && Last(w) == Last(v) && (Closes(v) || Last(v) == n ==> Closes(w))
  {
    var w := [n] + v;
    assert forall i :: 0 <= i < |v| ==> w[i+1] == v[i];
    if Closes(v) {
      var i :| 0 <= i < |v| - 1 && v[i] == Last(v);
      assert w[i+1] == Last(w);
    } else if Last(v) == n {
      assert w[0] == Last(w);
    }
  }

  lemma {:induction false} NoWalkCloses(g: Graph, n: Node, path: set<Node>, w: seq<Node>)
    requires Closed(g) && n in g.Keys && path <= g.Keys && Acyclic(g, n, path)
    requires IsWalk(g, w) && w[0] == n && IsContainer(g[Last(w)])
    ensures Last(w) !in path && !Closes(w)
    decreases |w|
  {
    if |w| > 1 {
      WalkTail(g, w);
      Below(g, n, path, w[1]);
      NoWalkCloses(g, w[1], path + {n}, w[1..]);
    }
  }

  lemma {:induction false} WalkFound(g: Graph, n: Node, path: set<Node>) returns (w: seq<Node>)
    requires Closed(g) && n in g.Keys && path <= g.Keys && !Acyclic(g, n, path)
    ensures IsWalk(g, w) && w[0] == n && IsContainer(g[Last(w)]) && (Last(w) in path || Closes(w))
    decreases |g.Keys - path|
  {
    if n in path {
      w := [n];
    } else {
      Smaller(g, path, n);
      var c :| c in g.Keys && HasChild(g[n], c) && !Acyclic(g, c, path + {n});
      var v := WalkFound(g, c, path + {n});
      WalkCons(g, n, v);
      w := [n] + v;
    }
  }

  /** The flags find exactly the cycles. */
  lemma AcyclicIff(g: Graph, n: Node)
    requires Closed(g) && n in g.Keys
    ensures Acyclic(g, n, {}) <==> !Cyclic(g, n)
  {
    if !Acyclic(g, n, {}) {
      var w := WalkFound(g, n, {});
    }
    if w :| IsWalk(g, w) && w[0] == n && Closes(w) {
      var i :| 0 <= i < |w| - 1 && w[i] == Last(w);
      assert HasChild(g[w[i]], w[i+1]);
      if Acyclic(g, n, {}) {
        NoWalkCloses(g, n, {}, w);
      }
    }
  }

  // ------------------------------------------------------- the unfolded tree

  /** The tree a graph unfolds to from a node; null where a cycle is met. */
  ghost function Tree(g: Graph, n: Node, path: set<Node>): Value
    requires Closed(g) && n in g.Keys && path <= g.Keys
    decreases |g.Keys - path|
  {
    match g[n]
    case Scalar(v) => v
    case List(items) =>
      if n in path then Null
      else
        Smaller(g, path, n);
        Array(seq(|items|, i requires 0 <= i < |items| => Tree(g, items[i], path + {n})))
    case Table(fields) =>
      if n in path then Null
      else
        Smaller(g, path, n);
        Object(seq(|fields|, i requires 0 <= i < |fields| =>
          Entry(fields[i].key, fields[i].serial, Tree(g, fields[i].node, path + {n}))))
  }

  ghost predicate TreeOk(g: Graph, n: Node, path: set<Node>)
    requires Closed(g) && n in g.Keys && path <= g.Keys
  {
    Printable(Tree(g, n, path)) && WellFormed(Tree(g, n, path))
  }

  lemma {:induction false} TreeGood(g: Graph, n: Node, path: set<Node>)
    requires Closed(g) && Good(g) && n in g.Keys && path <= g.Keys
    ensures Printable(Tree(g, n, path)) && WellFormed(Tree(g, n, path))
    decreases |g.Keys - path|
  {
    hide M.GoodText, Printable, WellFormed, Tree;
    TextFacts(g, n, path, Flags(0, false, false, false, false), 0);
    if n !in path {
      if g[n].List? {
        forall i | 0 <= i < |g[n].items|
          ensures TreeOk(g, g[n].items[i], path + {n})
        {
          TreeGood(g, g[n].items[i], path + {n});
        }
      } else if g[n].Table? {
        forall i | 0 <= i < |g[n].fields|
          ensures TreeOk(g, g[n].fields[i].node, path + {n})
        {
          TreeGood(g, g[n].fields[i].node, path + {n});
        }
      }
    }
    NodeGood(g, n, path);
  }

  lemma ScalarGood(v: Value)
    requires !v.Array? && !v.Object?
    ensures WellFormed(v) && Printable(Null)
  {
  }

  lemma ArrayGood(items: seq<Value>)
    requires forall i :: 0 <= i < |items| ==> Printable(items[i]) && WellFormed(items[i])
    ensures Printable(Array(items)) && WellFormed(Array(items))
  {
  }

  lemma ObjectGood(es: seq<Entry>)
    requires DistinctKeys(es)
    requires forall i :: 0 <= i < |es| ==> M.GoodText(es[i].key) && Printable(es[i].value) && WellFormed(es[i].value)
    ensures Printable(Object(es)) && WellFormed(Object(es))
  {
  }

  lemma NodeGood(g: Graph, n: Node, path: set<Node>)
    requires Closed(g) && n in g.Keys && path <= g.Keys && GoodKind(g[n]) && KindOk(g[n])
    requires n !in path && g[n].List? ==> forall i :: 0 <= i < |g[n].items| ==> TreeOk(g, g[n].items[i], path + {n})
    requires n !in path && g[n].Table? ==> forall i :: 0 <= i < |g[n].fields| ==> TreeOk(g, g[n].fields[i].node, path + {n})
    ensures TreeOk(g, n, path)
  {
    hide M.GoodText, Printable, WellFormed;
    if g[n].Scalar? {
      ScalarGood(g[n].value);
    } else if n in path {
      ScalarGood(Null);
    } else {
      Smaller(g, path, n);
      if g[n].List? {
        ArrayGood(Tree(g, n, path).items);
      } else {
        ObjectGood(Tree(g, n, path).entries);
      }
    }
  }

  /** The values below some slots, in dumping order throughout. */
  ghost function Arranged(g: Graph, items: seq<Node>, path: set<Node>, fl: Flags): (r: seq<Value>)
    requires Closed(g) && path <= g.Keys && forall i :: 0 <= i < |items| ==> items[i] in g.Keys
    ensures |r| == |items|
  {
    seq(|items|, i requires 0 <= i < |items| => R.Arrange(Tree(g, items[i], path), fl))
  }

  ghost function ArrangedFields(g: Graph, fields: seq<Field>, path: set<Node>, fl: Flags): (r: seq<Entry>)
    requires Closed(g) && path <= g.Keys && forall i :: 0 <= i < |fields| ==> fields[i].node in g.Keys
    ensures |r| == |fields|
  {
    seq(|fields|, i requires 0 <= i < |fields| =>
      Entry(fields[i].key, fields[i].serial, R.Arrange(Tree(g, fields[i].node, path), fl)))
  }

  lemma ArrangedGood(g: Graph, n: Node, path: set<Node>, fl: Flags)
    requires Closed(g) && Good(g) && n in g.Keys && path <= g.Keys
    ensures Printable(R.Arrange(Tree(g, n, path), fl))
  {
    TreeGood(g, n, path);
    R.ArrangeKeeps(Tree(g, n, path), fl);
  }

  ghost predicate AllAcyclic(g: Graph, items: seq<Node>, path: set<Node>)
    requires Closed(g) && path <= g.Keys && forall i :: 0 <= i < |items| ==> items[i] in g.Keys
  {
    forall i :: 0 <= i < |items| ==> Acyclic(g, items[i], path)
  }

  ghost predicate FieldsAcyclic(g: Graph, fields: seq<Field>, path: set<Node>)
    requires Closed(g) && path <= g.Keys && forall i :: 0 <= i < |fields| ==> fields[i].node in g.Keys
  {
    forall i :: 0 <= i < |fields| ==> Acyclic(g, fields[i].node, path)
  }

  /** The text of a node is the dump of its tree, if there is no cycle. */
  ghost predicate TextRight(g: Graph, n: Node, path: set<Node>, fl: Flags, depth: nat)
    requires Closed(g) && Good(g) && n in g.Keys && path <= g.Keys
  {
    Text(g, n, path, fl, depth) ==
    if Acyclic(g, n, path) then (ArrangedGood(g, n, path, fl); Some(RawText(R.Arrange(Tree(g, n, path), fl), fl, depth))) else None
  }

  lemma ArrangedAllGood(g: Graph, items: seq<Node>, path: set<Node>, fl: Flags)
    requires Closed(g) && Good(g) && path <= g.Keys && forall i :: 0 <= i < |items| ==> items[i] in g.Keys
    ensures forall v <- Arranged(g, items, path, fl) :: Printable(v)
  {
    forall i | 0 <= i < |items|
      ensures Printable(Arranged(g, items, path, fl)[i])
    {
      ArrangedGood(g, items[i], path, fl);
    }
  }

  lemma Regrouped(a: bytes, b: bytes, c: bytes, d: bytes)
    ensures (a + (b + c)) + d == a + (b + (c + d))
  {
  }

  lemma {:induction false} SlotsRight(g: Graph, items: seq<Node>, path: set<Node>, fl: Flags, depth: nat)
    requires Closed(g) && Good(g) && path <= g.Keys && items != [] && forall i :: 0 <= i < |items| ==> items[i] in g.Keys
    requires forall i :: 0 <= i < |items| ==> TextRight(g, items[i], path, fl, depth + 1)
    ensures SlotsText(g, items, path, fl, depth) ==
            if AllAcyclic(g, items, path) then
              (ArrangedAllGood(g, items, path, fl); Some(ItemsText(Arranged(g, items, path, fl), fl, depth)))
            else None
    decreases |items|
  {
    hide Text, Tree, Acyclic, RawText, Indent, Good, Closed;
    ArrangedAllGood(g, items, path, fl);
    var vs := Arranged(g, items, path, fl);
    assert TextRight(g, items[0], path, fl, depth + 1);
    if |items| > 1 {
      var rest := items[1..];
      ArrangedAllGood(g, rest, path, fl);
      SlotsRight(g, rest, path, fl, depth);
      assert vs[1..] == Arranged(g, rest, path, fl);
      assert AllAcyclic(g, items, path) <==> Acyclic(g, items[0], path) && AllAcyclic(g, rest, path) by {
        assert forall i :: 0 <= i < |rest| ==> rest[i] == items[i+1];
        assert forall i :: 1 <= i < |items| ==> items[i] == rest[i-1];
      }
      if AllAcyclic(g, items, path) {
        Regrouped(RawText(vs[0], fl, depth + 1), [COMMA], Indent(fl, depth + 1, true), ItemsText(vs[1..], fl, depth));
      }
    }
  }

  lemma ArrangedFieldsGood(g: Graph, fields: seq<Field>, path: set<Node>, fl: Flags)
    requires Closed(g) && Good(g) && path <= g.Keys
    requires forall i :: 0 <= i < |fields| ==> fields[i].node in g.Keys && M.GoodText(fields[i].key)
    ensures forall i :: 0 <= i < |fields| ==>
              M.GoodText(ArrangedFields(g, fields, path, fl)[i].key) && Printable(ArrangedFields(g, fields, path, fl)[i].value)
  {
    hide M.GoodText, Good, Closed, Printable;
    forall i | 0 <= i < |fields|
      ensures Printable(ArrangedFields(g, fields, path, fl)[i].value)
    {
      ArrangedGood(g, fields[i].node, path, fl);
    }
  }

  lemma {:induction false} PairsRight(g: Graph, fields: seq<Field>, path: set<Node>, fl: Flags, depth: nat)
    requires Closed(g) && Good(g) && path <= g.Keys && fields != []
    requires forall i :: 0 <= i < |fields| ==> fields[i].node in g.Keys && M.GoodText(fields[i].key)
    requires forall i :: 0 <= i < |fields| ==> TextRight(g, fields[i].node, path, fl, depth + 1)
    ensures PairsText(g, fields, path, fl, depth) ==
            if FieldsAcyclic(g, fields, path) then
              (ArrangedFieldsGood(g, fields, path, fl); Some(EntriesText(ArrangedFields(g, fields, path, fl), fl, depth)))
            else None
    decreases |fields|
  {
    hide Text, Tree, Acyclic, RawText, Indent, Good, Closed, Printable, StringText, Separator;
    ArrangedFieldsGood(g, fields, path, fl);
    var es := ArrangedFields(g, fields, path, fl);
    assert TextRight(g, fields[0].node, path, fl, depth + 1);
    assert M.GoodText(fields[0].key);
    hide M.GoodText;
    var key, sep := StringText(fields[0].key, fl.ascii), Separator(fl);
    if |fields| > 1 {
      var rest := fields[1..];
      ArrangedFieldsGood(g, rest, path, fl);
      PairsRight(g, rest, path, fl, depth);
      assert es[1..] == ArrangedFields(g, rest, path, fl);
      assert FieldsAcyclic(g, fields, path) <==> Acyclic(g, fields[0].node, path) && FieldsAcyclic(g, rest, path) by {
        assert forall i :: 0 <= i < |rest| ==> rest[i] == fields[i+1];
        assert forall i :: 1 <= i < |fields| ==> fields[i] == rest[i-1];
      }
      if FieldsAcyclic(g, fields, path) {
        Regrouped6(key, sep, RawText(es[0].value, fl, depth + 1), [COMMA], Indent(fl, depth + 1, true), EntriesText(es[1..], fl, depth));
      }
    } else if FieldsAcyclic(g, fields, path) {
      Regrouped6(key, sep, RawText(es[0].value, fl, depth + 1), [], [], Indent(fl, depth, false));
    }
  }

  lemma Regrouped6(a: bytes, b: bytes, c: bytes, d: bytes, e: bytes, f: bytes)
    ensures ((a + (b + c)) + (d + e)) + f == a + (b + (c + (d + (e + f))))
    ensures d == [] && e == [] ==> (a + (b + c)) + f == a + (b + (c + f))
  {
  }

  // ------------------------------------------------------------ sorting keys

  function Bare(e: Entry): Entry { Entry(e.key, e.serial, Null) }

  function BareAll(es: seq<Entry>): (r: seq<Entry>)
    ensures |r| == |es|
  {
    seq(|es|, i requires 0 <= i < |es| => Bare(es[i]))
  }

  /** The comparison looks at keys and serials only. */
  ghost predicate ValueBlind(before: (Entry, Entry) -> bool) {
    forall a, b :: before(a, b) == before(Bare(a), Bare(b))
  }

  lemma BareCons(e: Entry, es: seq<Entry>)
    ensures BareAll([e] + es) == [Bare(e)] + BareAll(es)
  {
  }

  lemma {:induction false} InsertBare(e: Entry, es: seq<Entry>, before: (Entry, Entry) -> bool)
    requires ValueBlind(before)
    ensures O.Insert(Bare(e), BareAll(es), before) == BareAll(O.Insert(e, es, before))
  {
    if es == [] {
    } else {
      assert BareAll(es)[1..] == BareAll(es[1..]) && BareAll(es)[0] == Bare(es[0]);
      assert before(es[0], e) == before(Bare(es[0]), Bare(e));
      if before(es[0], e) {
        InsertBare(e, es[1..], before);
        BareCons(es[0], O.Insert(e, es[1..], before));
      } else {
        BareCons(e, es);
      }
      hide BareAll, Bare;
    }
  }

  lemma {:induction false} SortBare(es: seq<Entry>, before: (Entry, Entry) -> bool)
    requires ValueBlind(before)
    ensures O.Sort(BareAll(es), before) == BareAll(O.Sort(es, before))
  {
    if es != [] {
      assert BareAll(es)[1..] == BareAll(es[1..]) && BareAll(es)[0] == Bare(es[0]);
      SortBare(es[1..], before);
      InsertBare(es[0], O.Sort(es[1..], before), before);
    }
  }

  /** An object's fields as entries of the tree. */
  ghost function Entries(g: Graph, fields: seq<Field>, path: set<Node>): (r: seq<Entry>)
    requires Closed(g) && path <= g.Keys && forall i :: 0 <= i < |fields| ==> fields[i].node in g.Keys
    ensures |r| == |fields|
  {
    seq(|fields|, i requires 0 <= i < |fields| => Entry(fields[i].key, fields[i].serial, Tree(g, fields[i].node, path)))
  }

  /** Looking the sorted keys up again puts the fields in the order of their entries. */
  lemma LookedUp(g: Graph, fields: seq<Field>, path: set<Node>, before: (Entry, Entry) -> bool)
    requires Closed(g) && path <= g.Keys && (forall i :: 0 <= i < |fields| ==> fields[i].node in g.Keys)
    requires DistinctFields(fields) && ValueBlind(before)
    ensures var fs := Looked(fields, O.Sort(Keys(fields), before));
            (forall i :: 0 <= i < |fs| ==> fs[i].node in g.Keys) && Entries(g, fs, path) == O.Sort(Entries(g, fields, path), before)
  {
    hide Tree, Closed, O.Sort;
    var es := Entries(g, fields, path);
    var os := O.Sort(es, before);
    assert Keys(fields) == BareAll(es);
    SortBare(es, before);
    var fs := Looked(fields, O.Sort(Keys(fields), before));
    R.SameMembers(os, es);
    forall i | 0 <= i < |fs|
      ensures fs[i] in fields && Entry(fs[i].key, fs[i].serial, Tree(g, fs[i].node, path)) == os[i]
    {
      assert os[i] in es;
      ByKey(g, fields, path, fs[i], os[i]);
    }
  }

  lemma ByKey(g: Graph, fields: seq<Field>, path: set<Node>, f: Field, e: Entry)
    requires Closed(g) && path <= g.Keys && (forall i :: 0 <= i < |fields| ==> fields[i].node in g.Keys)
    requires DistinctFields(fields) && f in fields && e in Entries(g, fields, path) && f.key == e.key
    ensures Entry(f.key, f.serial, Tree(g, f.node, path)) == e
  {
    hide Tree, Closed;
    var j :| 0 <= j < |fields| && Entries(g, fields, path)[j] == e;
    assert fields[j].key == f.key;
    assert fields[j] == f;
  }

  lemma OrderRight(g: Graph, fields: seq<Field>, path: set<Node>, fl: Flags)
    requires Closed(g) && path <= g.Keys && (forall i :: 0 <= i < |fields| ==> fields[i].node in g.Keys) && DistinctFields(fields)
    ensures var fs := FieldOrder(fields, fl);
            && (forall i :: 0 <= i < |fs| ==> fs[i].node in g.Keys)
            && Object(ArrangedFields(g, fs, path, fl)) == R.Arrange(Object(Entries(g, fields, path)), fl)
  {
    hide Tree, Closed;
    var fs := FieldOrder(fields, fl);
    var es := Entries(g, fields, path);
    if fl.sortKeys {
      LookedUp(g, fields, path, O.KeyBefore);
    } else if fl.preserveOrder {
      LookedUp(g, fields, path, O.SerialBefore);
    }
    var os := R.Order(es, fl);
    assert Entries(g, fs, path) == os;
    var r := R.Arrange(Object(es), fl).entries;
    forall i | 0 <= i < |fs|
      ensures ArrangedFields(g, fs, path, fl)[i] == r[i]
    {
      assert Entries(g, fs, path)[i] == os[i];
    }
    assert ArrangedFields(g, fs, path, fl) == r;
  }

  lemma OrderAcyclic(g: Graph, fields: seq<Field>, path: set<Node>, fl: Flags)
    requires Closed(g) && path <= g.Keys && (forall i :: 0 <= i < |fields| ==> fields[i].node in g.Keys) && DistinctFields(fields)
    ensures var fs := FieldOrder(fields, fl);
            (forall i :: 0 <= i < |fs| ==> fs[i].node in g.Keys) && (FieldsAcyclic(g, fs, path) <==> FieldsAcyclic(g, fields, path))
  {
    hide Acyclic, Closed;
    var fs := FieldOrder(fields, fl);
    AllFields(fields, fl);
    if FieldsAcyclic(g, fields, path) {
      forall i | 0 <= i < |fs|
        ensures Acyclic(g, fs[i].node, path)
      {
        assert fs[i] in fields;
      }
    }
    if FieldsAcyclic(g, fs, path) {
      forall i | 0 <= i < |fields|
        ensures Acyclic(g, fields[i].node, path)
      {
        assert fields[i] in fs;
      }
    }
  }

  lemma AllFields(fields: seq<Field>, fl: Flags)
    requires DistinctFields(fields)
    ensures forall f <- fields :: f in FieldOrder(fields, fl)
  {
    if fl.sortKeys {
      AllLooked(fields, O.Sort(Keys(fields), O.KeyBefore));
    } else if fl.preserveOrder {
      AllLooked(fields, O.Sort(Keys(fields), O.SerialBefore));
    }
  }

  lemma AllLooked(fields: seq<Field>, keys: seq<Entry>)
    requires DistinctFields(fields) && multiset(keys) == multiset(Keys(fields))
    ensures forall f <- fields :: f in Looked(fields, keys)
  {
    R.SameMembers(keys, Keys(fields));
    var fs := Looked(fields, keys);
    forall f <- fields
      ensures f in fs
    {
      var j :| 0 <= j < |fields| && fields[j] == f;
      assert Keys(fields)[j] in keys;
      var i :| 0 <= i < |keys| && keys[i] == Keys(fields)[j];
      assert fs[i].key == f.key && fs[i] in fields;
      assert fs[i] == f;
    }
  }

  // ------------------------------------------------------------- the theorem

  lemma {:induction false} NodeRight(g: Graph, n: Node, path: set<Node>, fl: Flags, depth: nat)
    requires Closed(g) && Good(g) && n in g.Keys && path <= g.Keys
    ensures TextRight(g, n, path, fl, depth)
    decreases |g.Keys - path|
  {
    TextFacts(g, n, path, fl, depth);
    if n !in path {
      match g[n]
      case Scalar(_) =>
      case List(items) =>
        forall i | 0 <= i < |items|
          ensures TextRight(g, items[i], path + {n}, fl, depth + 1)
        {
          NodeRight(g, items[i], path + {n}, fl, depth + 1);
        }
        ListRight(g, n, path, fl, depth);
      case Table(fields) =>
        forall i | 0 <= i < |fields|
          ensures TextRight(g, fields[i].node, path + {n}, fl, depth + 1)
        {
          NodeRight(g, fields[i].node, path + {n}, fl, depth + 1);
        }
        TableRight(g, n, path, fl, depth);
    }
  }

  lemma ListRight(g: Graph, n: Node, path: set<Node>, fl: Flags, depth: nat)
    requires Closed(g) && Good(g) && n in g.Keys && path <= g.Keys && n !in path && g[n].List?
    requires forall i :: 0 <= i < |g[n].items| ==> TextRight(g, g[n].items[i], path + {n}, fl, depth + 1)
    ensures TextRight(g, n, path, fl, depth)
  {
    hide Good, Closed, SlotsText, ItemsText;
    var items, inner := g[n].items, path + {n};
    TextFacts(g, n, path, fl, depth);
    ArrangedAllGood(g, items, inner, fl);
    ArrangedGood(g, n, path, fl);
    if items != [] {
      SlotsRight(g, items, inner, fl, depth);
    }
    TreeOfList(g, n, path, fl);
    hide Tree, Acyclic, Text;
  }

  lemma TreeOfList(g: Graph, n: Node, path: set<Node>, fl: Flags)
    requires Closed(g) && n in g.Keys && path <= g.Keys && n !in path && g[n].List?
    requires forall i :: 0 <= i < |g[n].items| ==> g[n].items[i] in g.Keys
    ensures R.Arrange(Tree(g, n, path), fl) == Array(Arranged(g, g[n].items, path + {n}, fl))
    ensures Acyclic(g, n, path) <==> AllAcyclic(g, g[n].items, path + {n})
  {
    Smaller(g, path, n);
    var items := g[n].items;
    var vs := Tree(g, n, path).items;
    assert forall i :: 0 <= i < |items| ==> vs[i] == Tree(g, items[i], path + {n});
    assert R.Arrange(Array(vs), fl).items == Arranged(g, items, path + {n}, fl);
  }

  lemma TableRight(g: Graph, n: Node, path: set<Node>, fl: Flags, depth: nat)
    requires Closed(g) && Good(g) && n in g.Keys && path <= g.Keys && n !in path && g[n].Table?
    requires forall i :: 0 <= i < |g[n].fields| ==>
               g[n].fields[i].node in g.Keys && TextRight(g, g[n].fields[i].node, path + {n}, fl, depth + 1)
    ensures TextRight(g, n, path, fl, depth)
  {
    hide Good, Closed, PairsText, EntriesText, FieldOrder;
    var fields, inner := g[n].fields, path + {n};
    var fs := FieldOrder(fields, fl);
    TextFacts(g, n, path, fl, depth);
    TreeOfTable(g, n, path, fl);
    ArrangedFieldsGood(g, fs, inner, fl);
    ArrangedGood(g, n, path, fl);
    forall i | 0 <= i < |fs|
      ensures TextRight(g, fs[i].node, inner, fl, depth + 1)
    {
      assert fs[i] in fields;
    }
    if fs != [] {
      PairsRight(g, fs, inner, fl, depth);
    }
    hide Tree, Acyclic, Text;
  }

  lemma TreeOfTable(g: Graph, n: Node, path: set<Node>, fl: Flags)
    requires Closed(g) && n in g.Keys && path <= g.Keys && n !in path && g[n].Table?
    requires forall i :: 0 <= i < |g[n].fields| ==> g[n].fields[i].node in g.Keys
    ensures var fs := FieldOrder(g[n].fields, fl);
            && (forall i :: 0 <= i < |fs| ==> fs[i].node in g.Keys)
            && R.Arrange(Tree(g, n, path), fl) == Object(ArrangedFields(g, fs, path + {n}, fl))
            && (Acyclic(g, n, path) <==> FieldsAcyclic(g, fs, path + {n}))
  {
    Smaller(g, path, n);
    var fields := g[n].fields;
    assert KindOk(g[n]);
    assert Tree(g, n, path).entries == Entries(g, fields, path + {n});
    OrderRight(g, fields, path + {n}, fl);
    OrderAcyclic(g, fields, path + {n}, fl);
  }

  /** json_dump_callback. Whatever the sink does, no mark is left behind, and the calls are
      those of the graph's steps, up to the first that is refused and checked. */
  method Dump(sink: Sink, root: Node, fl: Flags, encodeAny: bool, ghost g: Graph) returns (ok: bool)
    requires Closed(g) && root in g.Keys && Frozen(g) && Marked(g, {}) && fl.indent <= 31
    modifies sink, g.Keys`visited
    ensures Marked(g, {})
    ensures if encodeAny || IsContainer(g[root]) then
              var p := Play(NodeSteps(g, root, {}, fl, 0), sink.refuses, old(sink.calls));
              ok == p.ok && sink.Over(old(sink.out), p)
            else !ok && sink.out == old(sink.out) && sink.calls == old(sink.calls)
  {
    hide Sink.Due, Sink.Over, NodeSteps, Play;
    if !encodeAny && root.kind.Scalar? {
      return false;
    }
    ghost var steps := NodeSteps(g, root, {}, fl, 0);
    ghost var goal := Play(steps, sink.refuses, sink.calls);
    ghost var base := sink.out;
    sink.Started(steps);
    assert steps + [] == steps;
    ok := DumpNode(sink, root, fl, 0, g, {}, base, goal, []);
    if ok {
      sink.Finished(base, goal);
    }
  }

  /** Into a sink that refuses nothing, the dump of a graph with good strings succeeds exactly
      when no cycle can be reached, and is then the dump of the tree the graph unfolds to. */
  lemma ReliableDump(g: Graph, root: Node, fl: Flags, refuses: nat -> bool, k: nat)
    requires Closed(g) && Good(g) && root in g.Keys && forall i :: k <= i ==> !refuses(i)
    ensures var p := Play(NodeSteps(g, root, {}, fl, 0), refuses, k);
            && (p.ok <==> !Cyclic(g, root))
            && (p.ok ==> (TreeGood(g, root, {}); p.out == R.DumpText(Tree(g, root, {}), fl, 0)))
  {
    hide Cyclic, Acyclic, Tree, Text, Good, RawText, NodeSteps, Play, Flat, Proper;
    DumpFlat(g, root, fl);
    var steps := NodeSteps(g, root, {}, fl, 0);
    if Flat(steps).Some? {
      PlayAll(steps, refuses, k);
    } else {
      NotFlat(steps, refuses, k);
    }
  }

  /** The calls for a graph with good strings come to the dump of its tree, if there is no cycle. */
  lemma DumpFlat(g: Graph, root: Node, fl: Flags)
    requires Closed(g) && Good(g) && root in g.Keys
    ensures Printable(Tree(g, root, {})) && WellFormed(Tree(g, root, {}))
    ensures Comes(NodeSteps(g, root, {}, fl, 0), if Cyclic(g, root) then None else Some(R.DumpText(Tree(g, root, {}), fl, 0)))
  {
    hide Cyclic, Acyclic, Tree, Text, Good, RawText, NodeSteps, Comes;
    NodeFlat(g, root, {}, fl, 0);
    AcyclicIff(g, root);
    TreeGood(g, root, {});
    NodeRight(g, root, {}, fl, 0);
  }

  /** Steps that stop by themselves are not a success. */
  lemma {:induction false} NotFlat(steps: seq<Step>, refuses: nat -> bool, k: nat)
    requires Flat(steps).None? && Proper(steps)
    ensures !Play(steps, refuses, k).ok
    decreases steps
  {
    if steps[0].Put? && !refuses(k) {
      NotFlat(steps[1..], refuses, k + 1);
    } else if steps[0].Unchecked? {
      NotFlat(steps[1..], refuses, Play(steps[0].inner, refuses, k).calls);
    }
  }

  /** json_dumps */
  method DumpString(root: Node, fl: Flags, encodeAny: bool, ghost g: Graph) returns (r: Option<bytes>)
    requires Closed(g) && root in g.Keys && Frozen(g) && Marked(g, {}) && fl.indent <= 31
    modifies g.Keys`visited
    ensures Marked(g, {})
    ensures Good(g) ==> (r.Some? <==> (encodeAny || IsContainer(g[root])) && !Cyclic(g, root))
    ensures Good(g) && r.Some? ==> (TreeGood(g, root, {}); r.value == R.DumpText(Tree(g, root, {}), fl, 0))
  {
    hide Cyclic, Tree, Good, R.DumpText, NodeSteps, Play;
    var sink := new Sink(_ => false);
    var ok := Dump(sink, root, fl, encodeAny, g);
    r := if ok then Some(sink.out) else None;
    if Good(g) {
      ReliableDump(g, root, fl, sink.refuses, 0);
      ghost var p := Play(NodeSteps(g, root, {}, fl, 0), sink.refuses, 0);
      assert [] + p.out == p.out;
    }
  }
}
