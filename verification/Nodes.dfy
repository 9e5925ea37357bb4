/**
  What nodes of the reference-counted heap stand for, and what building some of them and
  throwing them away again does to the heap: the steps by which load.c makes a value.
 */
module Nodes {
  import opened Bytes
  import opened References
  import V = Values

  /** The node stands for a value, serials apart. */
  ghost predicate Stands(c: Cells, q: Ref, v: V.Value)
    decreases v
  {
    && q in c
    && match v
       case Null => q == NULL_REF
       case True => q == TRUE_REF
       case False => q == FALSE_REF
       case Array(items) =>
         && c[q].kind.ArrayNode? && |c[q].slots| == |items|
         && forall i :: 0 <= i < |items| ==> Stands(c, c[q].slots[i].ref, items[i])
       case Object(es) =>
         && c[q].kind.ObjectNode? && |c[q].slots| == |es|
         && forall i :: 0 <= i < |es| ==> c[q].slots[i].key == es[i].key && Stands(c, c[q].slots[i].ref, es[i].value)
       case _ => c[q].kind == Scalar(v)
  }

  /** A node stands for one value only, up to the serials of its keys. */
  lemma {:induction false} StandsForOne(c: Cells, q: Ref, v: V.Value, w: V.Value)
    requires forall k <- c.Keys :: k < 3 ==> c[k].kind.Singleton?
    requires Stands(c, q, v) && Stands(c, q, w) && V.WellFormed(v) && V.WellFormed(w)
    ensures V.SameValue(v, w)
    decreases v
  {
    if v.Array? {
      forall i | 0 <= i < |v.items|
        ensures V.SameValue(v.items[i], w.items[i])
      {
        StandsForOne(c, c[q].slots[i].ref, v.items[i], w.items[i]);
      }
    } else if v.Object? {
      var es, fs := v.entries, w.entries;
      forall i | 0 <= i < |es|
        ensures es[i].key == fs[i].key && V.SameValue(es[i].value, fs[i].value)
      {
        StandsForOne(c, c[q].slots[i].ref, es[i].value, fs[i].value);
      }
      EntriesAlike(es, fs);
    }
  }

  lemma EntriesAlike(es: seq<V.Entry>, fs: seq<V.Entry>)
    requires V.DistinctKeys(fs) && |es| == |fs|
    requires forall i :: 0 <= i < |es| ==> es[i].key == fs[i].key && V.SameValue(es[i].value, fs[i].value)
    ensures V.SameValue(V.Object(es), V.Object(fs))
  {
    hide V.SameValue;
    forall k
      ensures k in V.KeySet(es) <==> k in V.KeySet(fs)
    {
      if k in V.KeySet(es) {
        var i :| 0 <= i < |es| && es[i].key == k;
        assert fs[i] in fs;
      }
      if k in V.KeySet(fs) {
        var i :| 0 <= i < |fs| && fs[i].key == k;
        assert es[i] in es;
      }
    }
    forall e <- es, f <- fs | e.key == f.key
      ensures V.SameValue(e.value, f.value)
    {
      var i :| 0 <= i < |es| && es[i] == e;
      var j :| 0 <= j < |fs| && fs[j] == f;
      assert i == j;
    }
    ObjectsAlike(es, fs);
  }

  lemma ObjectsAlike(es: seq<V.Entry>, fs: seq<V.Entry>)
    requires V.KeySet(es) == V.KeySet(fs) && forall e <- es, f <- fs :: e.key == f.key ==> V.SameValue(e.value, f.value)
    ensures V.SameValue(V.Object(es), V.Object(fs))
  {
  }

  /** A reference from lo on, or to a singleton. */
  predicate New(lo: Ref, r: Ref) { r >= lo || r < 3 }

  /** Cells from lo on lead only to cells from lo on and singletons. */
  ghost predicate Apart(d: Cells, lo: Ref) {
    forall k <- d.Keys, i :: k >= lo && 0 <= i < |d[k].slots| ==> New(lo, d[k].slots[i].ref)
  }

  /** Everything in `was` is still there. */
  ghost predicate Kept(was: Cells, now: Cells) {
    forall k <- was.Keys :: k in now && now[k] == was[k]
  }

  lemma {:induction false} StandsKept(c: Cells, d: Cells, q: Ref, v: V.Value)
    requires Stands(c, q, v) && Kept(c, d)
    ensures Stands(d, q, v)
    decreases v
  {
    match v
    case Array(items) =>
      forall i | 0 <= i < |items|
        ensures Stands(d, d[q].slots[i].ref, items[i])
      {
        StandsKept(c, d, c[q].slots[i].ref, items[i]);
      }
    case Object(es) =>
      forall i | 0 <= i < |es|
        ensures Stands(d, d[q].slots[i].ref, es[i].value)
      {
        StandsKept(c, d, c[q].slots[i].ref, es[i].value);
      }
    case _ =>
  }

  /** Slots and kinds are as before but for one cell, and nodes may have gone. */
  ghost predicate Else(c: Cells, d: Cells, a: Ref) {
    forall k <- d.Keys :: k != a ==> k in c && d[k].kind == c[k].kind && d[k].slots == c[k].slots
  }

  ghost predicate SingletonsBare(d: Cells) {
    forall k <- d.Keys :: k < 3 ==> d[k].slots == []
  }

  /** A node that is still there, above which the cell does not lie, stands for what it did. */
  lemma {:induction false} StandsRest(c: Cells, d: Cells, a: Ref, q: Ref, v: V.Value)
    requires Stands(c, q, v) && q in d && New(a + 1, q) && Apart(c, a + 1) && Else(c, d, a) && Inward(d) && SingletonsBare(c) && a >= 3
    ensures Stands(d, q, v)
    decreases v
  {
    match v
    case Array(items) =>
      forall i | 0 <= i < |items|
        ensures Stands(d, d[q].slots[i].ref, items[i])
      {
        StandsBelow(c, d, a, q, i);
        StandsRest(c, d, a, c[q].slots[i].ref, items[i]);
      }
    case Object(es) =>
      forall i | 0 <= i < |es|
        ensures Stands(d, d[q].slots[i].ref, es[i].value)
      {
        StandsBelow(c, d, a, q, i);
        StandsRest(c, d, a, c[q].slots[i].ref, es[i].value);
      }
    case _ =>
  }

  lemma StandsBelow(c: Cells, d: Cells, a: Ref, q: Ref, i: nat)
    requires q in c && q in d && New(a + 1, q) && Apart(c, a + 1) && Else(c, d, a) && Inward(d) && SingletonsBare(c) && a >= 3
    requires i < |c[q].slots|
    ensures d[q].slots == c[q].slots && d[q].slots[i].ref in d && New(a + 1, c[q].slots[i].ref)
  {
  }

  // -------------------------------------------------------------- growing heaps

  /** All there is to a heap. */
  datatype Heap = Heap(cells: Cells, handles: multiset<Ref>, freed: seq<Ref>, next: Ref)

  ghost predicate Right(h: Heap) { State(h.cells, h.handles, h.freed, h.next) }

  ghost function Now(m: Memory): Heap
    reads m
  {
    Heap(m.cells, m.handles, m.freed, m.next)
  }

  /** Everything is still there as it was, and what is new forms trees: each new node has a
      count of one, and leads to newer ones and to singletons only. */
  ghost predicate Forest(was: Cells, lo: Ref, now: Cells) {
    && Kept(was, now)
    && forall k <- now.Keys :: k in was || (k >= lo && now[k].count == 1 && LeadsOn(now[k].slots, k))
  }

  ghost predicate LeadsOn(slots: seq<Slot>, k: Ref) {
    forall s <- slots :: New(k + 1, s.ref)
  }

  /** The caller holds one node more. */
  ghost predicate Grown(was: Heap, now: Heap, q: Ref) {
    && Right(now) && was.next <= now.next && now.handles == was.handles + multiset{q}
    && q in now.cells && New(was.next, q) && Forest(was.cells, was.next, now.cells)
  }

  /** And that stands for a value. */
  ghost predicate Made(was: Heap, now: Heap, q: Ref, v: V.Value) {
    Grown(was, now, q) && Stands(now.cells, q, v)
  }

  /** Nothing is left of what was made since. */
  ghost predicate Restored(was: Heap, now: Heap) {
    Right(now) && was.next <= now.next && now.cells == was.cells && now.handles == was.handles
  }

  lemma OldBelow(h: Heap, k: Ref)
    requires Right(h) && (k in h.cells || k in h.handles)
    ensures k < h.next && h.next >= 3
  {
  }

  lemma BareHeap(h: Heap)
    requires Right(h)
    ensures SingletonsBare(h.cells) && Inward(h.cells)
    ensures forall k <- h.cells.Keys :: h.cells[k].kind.Singleton? <==> k < 3
    ensures h.next >= 3 && forall k <- h.cells.Keys :: k < h.next
    ensures forall r <- h.handles :: r in h.cells
    ensures Sound(h.cells, h.handles)
    ensures forall k <- h.cells.Keys :: SlotsOk(h.cells[k].kind, h.cells[k].slots)
  {
    hide Counted;
  }

  lemma ForestApart(was: Heap, now: Heap, a: Ref)
    requires Right(was) && Forest(was.cells, was.next, now.cells) && a >= was.next
    ensures Apart(now.cells, a)
  {
    BareHeap(was);
  }

  lemma ForestTwice(was: Heap, mid: Heap, now: Heap)
    requires Forest(was.cells, was.next, mid.cells) && Forest(mid.cells, mid.next, now.cells) && was.next <= mid.next
    ensures Forest(was.cells, was.next, now.cells)
  {
  }

  // --------------------------------------------------------------- what hangs

  /** With the root dropped, everything new hangs. */
  lemma NewFalls(was: Heap, now: Heap, x: Ref)
    requires Right(was) && Right(now) && Forest(was.cells, was.next, now.cells) && x in now.cells && x !in was.cells
    ensures Falls(now.cells, was.handles, x)
  {
    BareHeap(was);
    BareHeap(now);
    hide Sound, State;
    var rank := map k | k in now.cells && k !in was.cells :: now.next - k;
    assert x in rank && Hangs(now.cells, was.handles, rank);
  }

  /** Nothing that was there before hangs. */
  lemma OldStands(was: Heap, c: Cells, h: multiset<Ref>, x: Ref)
    requires Right(was) && Part(c, was.cells) && was.handles <= h && x in was.cells
    ensures !Falls(c, h, x)
  {
    BareHeap(was);
    hide Counted;
    if Falls(c, h, x) {
      FallsPart(c, was.cells, h, x);
      FallsLess(was.cells, h, was.handles, x);
      NothingFalls(was.cells, was.handles, x);
    }
  }

  lemma FallsLess(c: Cells, h: multiset<Ref>, less: multiset<Ref>, x: Ref)
    requires Falls(c, h, x) && less <= h
    ensures Falls(c, less, x)
  {
    var rank: map<Ref, nat> :| x in rank && Hangs(c, h, rank);
    assert Hangs(c, less, rank);
  }

  // ---------------------------------------------------------------- the counts

  /** Cells that lead to singletons and to each other add nothing to the counts of others. */
  lemma {:induction false} RefsOver(was: Cells, now: Cells, keys: set<Ref>, k: Ref)
    requires Part(now, was) && keys <= now.Keys && k in was && k >= 3
    requires forall x <- now.Keys :: x !in was ==> Clear(now[x].slots, was.Keys)
    ensures RefsIn(now, keys)[k] == RefsIn(was, keys * was.Keys)[k]
    decreases keys
  {
    if keys == {} {
      assert keys * was.Keys == {};
    } else {
      hide RefsIn, Targets, Clear, Part;
      var x :| x in keys;
      RefsPick(now, keys, x);
      RefsOver(was, now, keys - {x}, k);
      var both := keys * was.Keys;
      if x in was {
        RefsPick(was, both, x);
        PartSlots(now, was, x);
        assert both - {x} == (keys - {x}) * was.Keys;
      } else {
        assert both == (keys - {x}) * was.Keys;
        NoneThere(now[x].slots, was.Keys, k);
      }
    }
  }

  /** Slots that lead to none of these nodes but singletons. */
  ghost predicate Clear(slots: seq<Slot>, keys: set<Ref>) {
    forall s <- slots :: s.ref !in keys || s.ref < 3
  }

  lemma PartSlots(c: Cells, d: Cells, x: Ref)
    requires Part(c, d) && x in d
    ensures x in c && d[x].slots == c[x].slots
  {
  }

  lemma NoneThere(slots: seq<Slot>, keys: set<Ref>, k: Ref)
    requires Clear(slots, keys) && k in keys && k >= 3
    ensures Targets(slots)[k] == 0
  {
    if k in Targets(slots) {
      TargetIsSlot(slots, k);
    }
  }

  /** Fewer cells hold fewer references. */
  lemma {:induction false} RefsLess(c: Cells, d: Cells, keys: set<Ref>, k: Ref)
    requires Part(c, d) && keys <= d.Keys
    ensures RefsIn(d, keys)[k] <= RefsIn(c, c.Keys)[k]
    decreases keys
  {
    RefsAmong(c, keys, c.Keys, k);
    RefsSame(c, d, keys);
  }

  lemma {:induction false} RefsAmong(c: Cells, few: set<Ref>, keys: set<Ref>, k: Ref)
    requires few <= keys <= c.Keys
    ensures RefsIn(c, few)[k] <= RefsIn(c, keys)[k]
    decreases few
  {
    if few != {} {
      var x :| x in few;
      RefsPick(c, few, x);
      RefsPick(c, keys, x);
      RefsAmong(c, few - {x}, keys - {x}, k);
    }
  }

  /** Counts that are right on both heaps are the same. */
  lemma SameCounts(was: Heap, now: Heap)
    requires Right(was) && Right(now) && Part(now.cells, was.cells) && forall r <- was.cells.Keys :: r >= 3 ==> now.handles[r] == was.handles[r]
    requires forall x <- now.cells.Keys :: x !in was.cells ==> Clear(now.cells[x].slots, was.cells.Keys)
    ensures Kept(was.cells, now.cells)
  {
    hide Right;
    forall k <- was.cells.Keys
      ensures k in now.cells && now.cells[k] == was.cells[k]
    {
      CountOf(was, k);
      CountOf(now, k);
      if k >= 3 {
        RefsOver(was.cells, now.cells, now.cells.Keys, k);
        assert now.cells.Keys * was.cells.Keys == was.cells.Keys;
      }
    }
  }

  lemma CountOf(h: Heap, k: Ref)
    requires Right(h) && k in h.cells
    ensures if k < 3 then h.cells[k] == SINGLETON
            else !h.cells[k].kind.Singleton? && h.cells[k].count == h.handles[k] + Refs(h.cells)[k] > 0
  {
    hide Refs;
  }

  // ------------------------------------------------------------------ the steps

  /** json_decref of what was made: everything is as if it had never been. */
  method Undo(m: Memory, q: Ref, ghost was: Heap)
    requires Right(was) && Grown(was, Now(m), q) && q >= 3
    modifies m
    ensures Restored(was, Now(m))
  {
    hide State, InOrder, GoneIsFreed, Shrunk, Sheds, Forest;
    ghost var before := Now(m);
    BareHeap(before);
    m.Decref(q);
    UndoneAll(was, before, Now(m));
  }

  lemma UndoneAll(was: Heap, before: Heap, now: Heap)
    requires Right(was) && Right(before) && Right(now) && Forest(was.cells, was.next, before.cells) && was.next <= before.next == now.next
    requires now.handles == was.handles && Shrunk(before.cells, now.cells)
    requires InOrder(before.cells, before.freed, now.freed) && GoneIsFreed(before.cells, now.cells, before.freed, now.freed)
    ensures Restored(was, now)
  {
    hide InOrder, GoneIsFreed, Sheds, Falls, State;
    GoneIsFree(before, now);
    ReleasedSheds(before.cells, now.cells, now.handles, before.freed, now.freed, now.next);
    SameKeys(was, before, now);
    hide Right, Forest, Shrunk;
    OldKept(was, before, now);
  }

  /** What has gone was neither a singleton nor is it held. */
  lemma GoneIsFree(before: Heap, now: Heap)
    requires Right(before) && Right(now)
    ensures forall x <- before.cells.Keys :: x !in now.cells ==> !before.cells[x].kind.Singleton? && now.handles[x] == 0
  {
    hide Counted;
  }

  lemma OldKept(was: Heap, before: Heap, now: Heap)
    requires Right(was) && Right(now) && now.cells.Keys == was.cells.Keys && Kept(was.cells, before.cells) && Shrunk(before.cells, now.cells)
    requires now.handles == was.handles
    ensures now.cells == was.cells
  {
    hide Right;
    SameCounts(was, now);
  }

  lemma SameKeys(was: Heap, before: Heap, now: Heap)
    requires Right(was) && Right(before) && Right(now) && Forest(was.cells, was.next, before.cells)
    requires now.handles == was.handles && Shrunk(before.cells, now.cells) && Sheds(before.cells, now.handles, now.cells.Keys)
    ensures now.cells.Keys == was.cells.Keys
  {
    hide Sheds, Falls, Right;
    forall x <- before.cells.Keys
      ensures x in now.cells <==> x in was.cells
    {
      ShedsIff(before.cells, now.handles, now.cells.Keys, x);
      if x in was.cells {
        OldStands(was, before.cells, now.handles, x);
      } else {
        NewFalls(was, before, x);
      }
    }
    assert now.cells.Keys == was.cells.Keys;
  }

  /** A container that was made, and a node made after it. */
  lemma TwoHeld(was: Heap, mid: Heap, now: Heap, a: Ref, e: Ref)
    requires Right(was) && Grown(was, mid, a) && Grown(mid, now, e) && a >= 3
    ensures now.handles == was.handles + multiset{a} + multiset{e} && was.next <= now.next && was.next <= a
    ensures a in now.cells && now.cells[a] == mid.cells[a] && e in now.cells && New(a + 1, e) && a != e
    ensures Forest(was.cells, was.next, now.cells) && a !in was.cells
  {
    OldBelow(mid, a);
    if a in was.cells {
      OldBelow(was, a);
    }
    ForestTwice(was, mid, now);
  }

  /** A container gets other slots, at most one reference more than before in all, and the
      caller holds one less. */
  ghost predicate Refitted(was: Heap, before: Heap, now: Heap, a: Ref, e: Ref, slots: seq<Slot>) {
    && Forest(was.cells, was.next, before.cells) && a >= was.next && a in before.cells && a !in was.cells
    && was.cells.Keys <= now.cells.Keys
    && before.handles == was.handles + multiset{a} + multiset{e} && now.handles == was.handles + multiset{a}
    && Only(before.cells, now.cells, a, slots) && LeadsOn(slots, a) && Targets(slots) <= Targets(before.cells[a].slots) + multiset{e}
  }

  /** What is new still forms trees. */
  lemma Refit(was: Heap, before: Heap, now: Heap, a: Ref, e: Ref, slots: seq<Slot>)
    requires Right(was) && Right(before) && Right(now) && Refitted(was, before, now, a, e, slots)
    ensures Forest(was.cells, was.next, now.cells)
  {
    hide Right, Refitted, LeadsOn, Kept;
    RefitKept(was, before, now, a, e, slots);
    forall x <- now.cells.Keys | x !in was.cells
      ensures x >= was.next && now.cells[x].count == 1 && LeadsOn(now.cells[x].slots, x)
    {
      RefitNew(was, before, now, a, e, slots, x);
    }
  }

  lemma RefitKept(was: Heap, before: Heap, now: Heap, a: Ref, e: Ref, slots: seq<Slot>)
    requires Right(was) && Right(now) && Refitted(was, before, now, a, e, slots)
    ensures Kept(was.cells, now.cells)
  {
    hide Right, Targets, LeadsOn, Clear;
    forall x <- now.cells.Keys | x !in was.cells
      ensures Clear(now.cells[x].slots, was.cells.Keys)
    {
      NewLeadsOn(was, before, now, a, slots, x);
    }
    SameCounts(was, now);
  }

  lemma RefitNew(was: Heap, before: Heap, now: Heap, a: Ref, e: Ref, slots: seq<Slot>, x: Ref)
    requires Right(was) && Right(before) && Right(now) && Refitted(was, before, now, a, e, slots) && x in now.cells && x !in was.cells
    ensures x >= was.next && now.cells[x].count == 1 && LeadsOn(now.cells[x].slots, x)
  {
    BareHeap(was);
    hide Right, Targets, Clear;
    NewLeadsOn(was, before, now, a, slots, x);
    hide LeadsOn;
    assert before.cells[x].count == 1;
    StillOne(was, before, now, a, e, slots, x);
  }

  lemma NewLeadsOn(was: Heap, before: Heap, now: Heap, a: Ref, slots: seq<Slot>, x: Ref)
    requires Right(was) && Forest(was.cells, was.next, before.cells) && Only(before.cells, now.cells, a, slots) && LeadsOn(slots, a)
    requires x in now.cells && x !in was.cells
    ensures x >= was.next && LeadsOn(now.cells[x].slots, x) && Clear(now.cells[x].slots, was.cells.Keys)
  {
    BareHeap(was);
  }

  lemma StillOne(was: Heap, before: Heap, now: Heap, a: Ref, e: Ref, slots: seq<Slot>, x: Ref)
    requires Right(before) && Right(now) && a in before.cells && Only(before.cells, now.cells, a, slots)
    requires before.handles == now.handles + multiset{e} && Targets(slots) <= Targets(before.cells[a].slots) + multiset{e}
    requires x in now.cells && x >= 3 && before.cells[x].count == 1
    ensures now.cells[x].count == 1
  {
    CountOf(before, x);
    CountOf(now, x);
    FewerRefs(before.cells, now.cells, a, slots, x);
    hide Right, Refs, Targets, Only;
    assert (Targets(before.cells[a].slots) + multiset{e})[x] >= Targets(slots)[x];
  }

  lemma FewerRefs(c: Cells, d: Cells, a: Ref, slots: seq<Slot>, x: Ref)
    requires a in c && Only(c, d, a, slots)
    ensures Refs(d)[x] + Targets(c[a].slots)[x] <= Refs(c)[x] + Targets(slots)[x]
  {
    var all := WithSlots(c, a, slots);
    RefsUpdate(c, a, all[a]);
    RefsLess(all, d, d.Keys, x);
    hide RefsIn, Targets;
    assert (Refs(all) + Targets(c[a].slots))[x] == (Refs(c) + Targets(slots))[x];
  }

  /** What a new node stands for. */
  predicate Fresh(kind: Kind, v: V.Value) {
    match kind
    case Singleton => false
    case Scalar(x) => v == x && (x.Integer? || x.Real? || x.String?)
    case ArrayNode => v == V.Array([])
    case ObjectNode => v == V.Object([])
  }

  /** json_array, json_object, json_integer and their likes. */
  method Make(m: Memory, kind: Kind, ghost v: V.Value) returns (q: Ref)
    requires m.Valid() && Fresh(kind, v)
    modifies m
    ensures Made(old(Now(m)), Now(m), q, v) && q >= 3
  {
    hide State;
    BareHeap(Now(m));
    q := m.New(kind);
  }

  /** json_null, json_true and json_false. */
  method Share(m: Memory, q: Ref, ghost v: V.Value)
    requires m.Valid() && match v
                          case Null => q == NULL_REF
                          case True => q == TRUE_REF
                          case False => q == FALSE_REF
                          case _ => false
    modifies m
    ensures Made(old(Now(m)), Now(m), q, v)
  {
    ShareState(Now(m), q);
    hide State;
    m.Incref(q);
    assert m.cells == old(m.cells);
  }

  lemma ShareState(h: Heap, q: Ref)
    requires Right(h) && q < 3
    ensures q in h.cells && h.cells[q].kind.Singleton? && h.cells[q := h.cells[q].(count := h.cells[q].count + 0)] == h.cells
  {
    hide Sound;
  }

  /** A heap that was restored is as good as untouched. */
  lemma GrownStill(was: Heap, mid: Heap, now: Heap, q: Ref)
    requires Grown(was, mid, q) && Restored(mid, now)
    ensures Grown(was, now, q)
  {
    hide Right, Forest;
  }

  // ------------------------------------------------------------------- arrays

  /** json_array_append and json_decref of a value made since the array. */
  method AppendMade(m: Memory, a: Ref, e: Ref, ghost was: Heap, ghost mid: Heap, ghost items: seq<V.Value>, ghost v: V.Value)
    requires Right(was) && Made(was, mid, a, V.Array(items)) && Made(mid, Now(m), e, v)
    modifies m
    ensures Made(was, Now(m), a, V.Array(items + [v]))
  {
    hide State, Stands, Forest, Kept, New;
    ghost var before := Now(m);
    ArrayIs(mid, a, items);
    TwoHeld(was, mid, before, a, e);
    ghost var slots := before.cells[a].slots + [Slot([], e)];
    var ok := m.ArrayAppend(a, e);
    StaysHeld(Now(m), a, e, |before.cells[a].slots|);
    m.Decref(e);
    SameAfter(before.cells, m.cells, a, e, slots);
    Appended(was, mid, before, Now(m), a, e, items, v);
  }

  lemma ArrayIs(h: Heap, a: Ref, items: seq<V.Value>)
    requires Right(h) && Stands(h.cells, a, V.Array(items))
    ensures a in h.cells && h.cells[a].kind.ArrayNode? && a >= 3 && |h.cells[a].slots| == |items|
  {
    BareHeap(h);
  }

  /** A node that a slot leads to and that is held besides has a count of two at least. */
  lemma StaysHeld(h: Heap, a: Ref, e: Ref, i: nat)
    requires Right(h) && a in h.cells && i < |h.cells[a].slots| && h.cells[a].slots[i].ref == e && e in h.handles
    ensures e in h.cells && (h.cells[e].kind.Singleton? || h.cells[e].count >= 2)
  {
    HandleThere(h, e);
    hide Right, Refs;
    RefsMember(h.cells, a, i);
    CountOf(h, e);
  }

  lemma HandleThere(h: Heap, e: Ref)
    requires Right(h) && e in h.handles
    ensures e in h.cells
  {
  }

  lemma SameAfter(c: Cells, d: Cells, a: Ref, e: Ref, slots: seq<Slot>)
    requires a in c && e in c && a != e && e in d && Bump(d, e) == WithSlots(Bump(c, e), a, slots)
    ensures d == WithSlots(c, a, slots)
  {
    assert d.Keys == Bump(d, e).Keys == c.Keys;
    forall k <- c.Keys
      ensures d[k] == WithSlots(c, a, slots)[k]
    {
      assert Bump(d, e)[k] == WithSlots(Bump(c, e), a, slots)[k];
    }
  }

  /** The slots of a container and what else was made since stand in its way no more than before:
      whatever a slot of it led to when the other node was made, or that node itself, is what it was. */
  lemma StillStands(was: Heap, mid: Heap, before: Heap, now: Heap, a: Ref, e: Ref, q: Ref, x: V.Value)
    requires Right(was) && Right(mid) && Right(before) && Right(now) && Grown(was, mid, a) && Grown(mid, before, e) && a >= 3
    requires Else(before.cells, now.cells, a) && q in now.cells && New(a + 1, q)
    requires Stands(mid.cells, q, x) || Stands(before.cells, q, x)
    ensures Stands(now.cells, q, x)
  {
    hide Right;
    TwoHeld(was, mid, before, a, e);
    if Stands(mid.cells, q, x) {
      StandsKept(mid.cells, before.cells, q, x);
    }
    hide Stands;
    BareHeap(before);
    BareHeap(now);
    ForestApart(was, before, a + 1);
    StandsRest(before.cells, now.cells, a, q, x);
  }

  lemma Appended(was: Heap, mid: Heap, before: Heap, now: Heap, a: Ref, e: Ref, items: seq<V.Value>, v: V.Value)
    requires Right(was) && Right(now) && Made(was, mid, a, V.Array(items)) && Made(mid, before, e, v)
    requires now.cells == WithSlots(before.cells, a, before.cells[a].slots + [Slot([], e)]) && now.next == before.next
    requires now.handles == was.handles + multiset{a}
    ensures Made(was, now, a, V.Array(items + [v]))
  {
    hide Right;
    ArrayIs(mid, a, items);
    TwoHeld(was, mid, before, a, e);
    var slots := now.cells[a].slots;
    InwardHeap(now);
    forall i | 0 <= i < |slots|
      ensures Stands(now.cells, slots[i].ref, (items + [v])[i])
    {
      assert slots[i] in slots;
      StillStands(was, mid, before, now, a, e, slots[i].ref, (items + [v])[i]);
    }
  }

  lemma InwardHeap(h: Heap)
    requires Right(h)
    ensures forall k <- h.cells.Keys :: forall s <- h.cells[k].slots :: s.ref in h.cells
  {
  }

  // ------------------------------------------------------------------ objects

  /** json_object_set_nocheck and json_decref of a value made since the object. A value that was
      there under the key goes, and everything that was made for it. */
  method SetMade(m: Memory, a: Ref, key: bytes, e: Ref, ghost was: Heap, ghost mid: Heap, ghost es: seq<V.Entry>, ghost serial: nat, ghost v: V.Value)
    requires Right(was) && Made(was, mid, a, V.Object(es)) && Made(mid, Now(m), e, v)
    modifies m
    ensures Made(was, Now(m), a, V.Object(V.Set(es, serial, key, v)))
  {
    hide State, Stands, Forest, Kept, New, Only, Sheds, Doomed, DelSlot, SetSlot;
    ghost var before := Now(m);
    ObjectIs(mid, a, es);
    TwoHeld(was, mid, before, a, e);
    HeldIsSafe(before.cells, before.handles + multiset{e}, a, DelSlot(before.cells[a].slots, key));
    var ok, dangling := m.ObjectSet(a, key, e);
    ghost var middle := Now(m);
    HeldIsLive(m.cells, m.handles, m.freed, m.next, a);
    OldStay(was, before, middle, a, key, e);
    ghost var i := SlotOf(before, middle, a, key, e);
    StaysHeld(middle, a, e, i);
    m.Decref(e);
    OnlyCount(before.cells, middle.cells, m.cells, a, e, SetSlot(before.cells[a].slots, key, e));
    PairSet(was, mid, before, Now(m), a, key, e, es, serial, v);
  }

  lemma ObjectIs(h: Heap, a: Ref, es: seq<V.Entry>)
    requires Right(h) && Stands(h.cells, a, V.Object(es))
    ensures a in h.cells && h.cells[a].kind.ObjectNode? && a >= 3 && |h.cells[a].slots| == |es| && DistinctSlots(h.cells[a].slots)
    ensures forall i :: 0 <= i < |es| ==> h.cells[a].slots[i].key == es[i].key
  {
    BareHeap(h);
  }

  lemma OnlyCount(c: Cells, d: Cells, e: Cells, a: Ref, r: Ref, slots: seq<Slot>)
    requires Only(c, d, a, slots) && r in e && d == Bump(e, r)
    ensures Only(c, e, a, slots) && e.Keys == d.Keys
  {
  }

  /** Nothing that was there at the start goes. */
  lemma OldStay(was: Heap, before: Heap, middle: Heap, a: Ref, key: bytes, e: Ref)
    requires Right(was) && Right(before) && Forest(was.cells, was.next, before.cells) && a in before.cells && a !in was.cells
    requires was.handles <= before.handles
    requires if FindSlot(before.cells[a].slots, key) >= 0
             then Sheds(WithSlots(before.cells, a, DelSlot(before.cells[a].slots, key)), before.handles + multiset{e}, middle.cells.Keys)
             else middle.cells.Keys == before.cells.Keys
    ensures was.cells.Keys <= middle.cells.Keys
  {
    hide Sheds, Falls, Right, DelSlot;
    var c := WithSlots(before.cells, a, DelSlot(before.cells[a].slots, key));
    if FindSlot(before.cells[a].slots, key) >= 0 {
      forall x <- was.cells.Keys
        ensures x in middle.cells
      {
        ShedsIff(c, before.handles + multiset{e}, middle.cells.Keys, x);
        OldStands(was, c, before.handles + multiset{e}, x);
      }
    }
  }

  lemma SlotOf(before: Heap, middle: Heap, a: Ref, key: bytes, e: Ref) returns (i: nat)
    requires a in before.cells && a in middle.cells && Only(before.cells, middle.cells, a, SetSlot(before.cells[a].slots, key, e))
    ensures i < |middle.cells[a].slots| && middle.cells[a].slots[i].ref == e
  {
    var k := FindSlot(before.cells[a].slots, key);
    i := if k >= 0 then k else |before.cells[a].slots|;
  }

  lemma SetTargets(slots: seq<Slot>, key: bytes, e: Ref)
    ensures Targets(SetSlot(slots, key, e)) <= Targets(slots) + multiset{e}
  {
    hide Targets;
    var i := FindSlot(slots, key);
    if i >= 0 {
      TakeOne(slots, i);
      PutOne(slots, i, Slot(key, e));
      assert forall x :: Targets(slots[i := Slot(key, e)])[x] <= (Targets(slots) + multiset{e})[x] by {
        forall x
          ensures Targets(slots[i := Slot(key, e)])[x] <= (Targets(slots) + multiset{e})[x]
        {
          assert (Targets(slots[i := Slot(key, e)]) + Targets([]))[x] == (Targets(Without(slots, i)) + multiset{e})[x];
          assert (Targets(Without(slots, i)) + Targets([slots[i]]))[x] == (Targets(slots) + multiset{})[x];
        }
      }
    } else {
      TargetsConcat(slots, [Slot(key, e)]);
      TargetsOne(Slot(key, e));
    }
  }

  /** Setting a pair does the same to slots and to entries. */
  lemma SetAlike(slots: seq<Slot>, es: seq<V.Entry>, key: bytes, e: Ref, serial: nat, v: V.Value)
    requires |slots| == |es| && DistinctSlots(slots) && forall i :: 0 <= i < |es| ==> slots[i].key == es[i].key
    ensures var ss, fs := SetSlot(slots, key, e), V.Set(es, serial, key, v);
            && |ss| == |fs|
            && forall i :: 0 <= i < |ss| ==>
                 ss[i].key == fs[i].key && ((ss[i].ref == e && fs[i].value == v) || (i < |slots| && ss[i] == slots[i] && fs[i] == es[i]))
  {
    SetIndex(slots, es, key);
  }

  lemma SetIndex(slots: seq<Slot>, es: seq<V.Entry>, key: bytes)
    requires |slots| == |es| && DistinctSlots(slots) && forall i :: 0 <= i < |es| ==> slots[i].key == es[i].key
    ensures FindSlot(slots, key) == V.Find(es, key)
  {
  }

  lemma PairSet(was: Heap, mid: Heap, before: Heap, now: Heap, a: Ref, key: bytes, e: Ref, es: seq<V.Entry>, serial: nat, v: V.Value)
    requires Right(was) && Right(now) && Made(was, mid, a, V.Object(es)) && Made(mid, before, e, v) && now.next == before.next
    requires a in before.cells && Only(before.cells, now.cells, a, SetSlot(before.cells[a].slots, key, e))
    requires a in now.cells && e in now.cells && was.cells.Keys <= now.cells.Keys && now.handles == was.handles + multiset{a}
    ensures Made(was, now, a, V.Object(V.Set(es, serial, key, v)))
  {
    hide Right, Only, Forest, Stands;
    ObjectIs(mid, a, es);
    TwoHeld(was, mid, before, a, e);
    var slots := SetSlot(before.cells[a].slots, key, e);
    SetTargets(before.cells[a].slots, key, e);
    SlotsLeadOn(was, before, a);
    SetLeadsOn(before.cells[a].slots, key, e, a);
    hide SetSlot, Targets, LeadsOn;
    Refit(was, before, now, a, e, slots);
    PairsStand(was, mid, before, now, a, key, e, es, serial, v);
  }

  lemma PairsStand(was: Heap, mid: Heap, before: Heap, now: Heap, a: Ref, key: bytes, e: Ref, es: seq<V.Entry>, serial: nat, v: V.Value)
    requires Right(was) && Right(now) && Made(was, mid, a, V.Object(es)) && Made(mid, before, e, v)
    requires a in before.cells && Only(before.cells, now.cells, a, SetSlot(before.cells[a].slots, key, e)) && a in now.cells
    requires LeadsOn(SetSlot(before.cells[a].slots, key, e), a)
    ensures Stands(now.cells, a, V.Object(V.Set(es, serial, key, v)))
  {
    hide Right, Only, Forest;
    ObjectIs(mid, a, es);
    TwoHeld(was, mid, before, a, e);
    var slots := SetSlot(before.cells[a].slots, key, e);
    OnlyElse(before.cells, now.cells, a, slots);
    SetAlike(before.cells[a].slots, es, key, e, serial, v);
    var fs := V.Set(es, serial, key, v);
    InwardHeap(now);
    hide Else, SetSlot, V.Set;
    forall i | 0 <= i < |slots|
      ensures slots[i].key == fs[i].key && Stands(now.cells, slots[i].ref, fs[i].value)
    {
      assert slots[i] in slots;
      StillStands(was, mid, before, now, a, e, slots[i].ref, fs[i].value);
    }
  }

  lemma OnlyElse(c: Cells, d: Cells, a: Ref, slots: seq<Slot>)
    requires Only(c, d, a, slots) && a in d
    ensures Else(c, d, a) && d[a].slots == slots && a in c && d[a].kind == c[a].kind
  {
  }

  lemma SlotsLeadOn(was: Heap, now: Heap, a: Ref)
    requires Forest(was.cells, was.next, now.cells) && a in now.cells && a !in was.cells
    ensures LeadsOn(now.cells[a].slots, a)
  {
  }

  lemma SetLeadsOn(slots: seq<Slot>, key: bytes, e: Ref, a: Ref)
    requires LeadsOn(slots, a) && New(a + 1, e)
    ensures LeadsOn(SetSlot(slots, key, e), a)
  {
    var r := SetSlot(slots, key, e);
    forall s <- r
      ensures New(a + 1, s.ref)
    {
      var i :| 0 <= i < |r| && r[i] == s;
      assert i < |slots| ==> slots[i] in slots;
    }
  }
}
