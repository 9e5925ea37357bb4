/**
  json_deep_copy (value.c) on the reference-counted heap.
 */
module Copying {
  import opened Bytes
  import opened Nodes
  import opened References
  import V = Values

  /** Down to depth n, q is built in d as r is in c: same kinds, keys and scalars. */
  ghost predicate Same(c: Cells, r: Ref, d: Cells, q: Ref, n: nat)
    decreases n, 1
  {
    && r in c && q in d && c[r].kind == d[q].kind && (c[r].kind.Singleton? ==> r == q)
    && |c[r].slots| == |d[q].slots|
    && forall i :: 0 <= i < |c[r].slots| ==> SameSlot(c, c[r].slots[i], d, d[q].slots[i], n)
  }

  ghost predicate SameSlot(c: Cells, s: Slot, d: Cells, t: Slot, n: nat)
    decreases n, 0
  {
    s.key == t.key && (n == 0 || Same(c, s.ref, d, t.ref, n - 1))
  }

  /** Slots lead to cells of smaller rank: there are no cycles. */
  ghost predicate Ranked(c: Cells, rank: map<Ref, nat>) {
    && c.Keys <= rank.Keys
    && forall k <- c.Keys, i :: 0 <= i < |c[k].slots| ==> c[k].slots[i].ref in c && rank[c[k].slots[i].ref] < rank[k]
  }

  lemma {:induction false} SameLater(c: Cells, r: Ref, d: Cells, e: Cells, q: Ref, n: nat, lo: Ref)
    requires Same(c, r, d, q, n) && Apart(d, lo) && SingletonsBare(d) && New(lo, q)
    requires forall k <- d.Keys :: New(lo, k) ==> k in e && e[k].kind == d[k].kind && e[k].slots == d[k].slots
    ensures Same(c, r, e, q, n)
    decreases n
  {
    forall i | 0 <= i < |c[r].slots|
      ensures SameSlot(c, c[r].slots[i], e, e[q].slots[i], n)
    {
      assert SameSlot(c, c[r].slots[i], d, d[q].slots[i], n);
      if n > 0 {
        SameLater(c, c[r].slots[i].ref, d, e, d[q].slots[i].ref, n - 1, lo);
      }
    }
  }

  /** The slots copied so far are built as those of the source. */
  ghost predicate CopiedSlots(c: Cells, slots: seq<Slot>, d: Cells, copies: seq<Slot>, lo: Ref) {
    && |copies| <= |slots|
    && forall i :: 0 <= i < |copies| ==> copies[i].key == slots[i].key && New(lo, copies[i].ref) && forall n :: Same(c, slots[i].ref, d, copies[i].ref, n)
  }

  lemma CopiedLater(c: Cells, slots: seq<Slot>, d: Cells, e: Cells, copies: seq<Slot>, lo: Ref)
    requires CopiedSlots(c, slots, d, copies, lo) && Apart(d, lo) && SingletonsBare(d)
    requires forall k <- d.Keys :: New(lo, k) ==> k in e && e[k].kind == d[k].kind && e[k].slots == d[k].slots
    ensures CopiedSlots(c, slots, e, copies, lo)
  {
    forall i, n: nat | 0 <= i < |copies|
      ensures Same(c, slots[i].ref, e, copies[i].ref, n)
    {
      SameLater(c, slots[i].ref, d, e, copies[i].ref, n, lo);
    }
  }

  lemma AllCopied(c: Cells, r: Ref, d: Cells, q: Ref, lo: Ref)
    requires r in c && q in d && c[r].kind == d[q].kind && !c[r].kind.Singleton?
    requires |d[q].slots| == |c[r].slots| && CopiedSlots(c, c[r].slots, d, d[q].slots, lo)
    ensures forall n :: Same(c, r, d, q, n)
  {
    forall n: nat
      ensures Same(c, r, d, q, n)
    {
      forall i | 0 <= i < |c[r].slots|
        ensures SameSlot(c, c[r].slots[i], d, d[q].slots[i], n)
      {
        if n > 0 {
          assert Same(c, c[r].slots[i].ref, d, d[q].slots[i].ref, n - 1);
        }
      }
    }
  }

  lemma NoSlots(c: Cells, r: Ref, d: Cells, q: Ref)
    requires r in c && q in d && c[r].kind == d[q].kind && (c[r].kind.Singleton? ==> r == q)
    requires c[r].slots == [] == d[q].slots
    ensures forall n :: Same(c, r, d, q, n)
  {
  }

  lemma Bare(m: Memory)
    requires m.Valid()
    ensures SingletonsBare(m.cells) && forall k <- m.cells.Keys :: k < m.next
    ensures forall k <- m.cells.Keys :: SlotsOk(m.cells[k].kind, m.cells[k].slots)
    ensures forall k <- m.cells.Keys :: m.cells[k].kind.Singleton? <==> k < 3
    ensures m.next >= 3
  {
    hide Sound;
  }

  /** What a copy of r is: built like it, apart from everything that was there, and held. */
  ghost predicate Copied(src: Cells, r: Ref, was: Cells, base: Ref, m: Memory, q: Ref)
    reads m
  {
    && m.Valid() && Kept(was, m.cells) && q in m.cells && New(base, q) && base <= m.next
    && (forall k <- m.cells.Keys :: k in was || k >= base)
    && Apart(m.cells, base) && forall n :: Same(src, r, m.cells, q, n)
  }

  /** json_deep_copy of r as it stands in an acyclic heap `src`, which is kept: an equal
      structure that shares no node with it except singletons. */
  method DeepCopy(m: Memory, r: Ref, ghost src: Cells, ghost rank: map<Ref, nat>) returns (q: Ref)
    requires m.Valid() && r in src && Kept(src, m.cells) && Ranked(src, rank)
    modifies m
    ensures Copied(src, r, old(m.cells), old(m.next), m, q)
    ensures m.handles == old(m.handles) + multiset{q} && m.freed == old(m.freed)
    decreases rank[r], 1
  {
    hide State;
    Bare(m);
    var kind := m.cells[r].kind;
    match kind {
      case Singleton =>
        m.Incref(r);
        q := r;
        NoSlots(src, r, m.cells, q);
      case Scalar(_) =>
        q := m.New(kind);
        NoSlots(src, r, m.cells, q);
      case ArrayNode =>
        q := CopyContainer(m, r, src, rank);
      case ObjectNode =>
        q := CopyContainer(m, r, src, rank);
    }
  }

  lemma Child(src: Cells, rank: map<Ref, nat>, r: Ref, i: nat)
    requires Ranked(src, rank) && r in src && i < |src[r].slots|
    ensures r in rank && src[r].slots[i].ref in src && src[r].slots[i].ref in rank && rank[src[r].slots[i].ref] < rank[r]
  {
  }

  /** Everything new leads to what is new. */
  lemma ApartLater(was: Cells, now: Cells, lo: Ref, base: Ref)
    requires Kept(was, now) && Apart(was, lo) && Apart(now, base) && lo <= base
    requires forall k <- now.Keys :: k in was || k >= base
    ensures Apart(now, lo)
  {
  }

  lemma OneMoreCopied(c: Cells, slots: seq<Slot>, d: Cells, e: Cells, q: Ref, i: nat, s: Slot, lo: Ref)
    requires q in d && 3 <= q < lo && i < |slots| && |d[q].slots| == i && e == d[q := d[q].(slots := d[q].slots + [s])]
    requires CopiedSlots(c, slots, d, d[q].slots, lo) && Apart(d, lo) && SingletonsBare(d)
    requires s.key == slots[i].key && New(lo, s.ref) && forall n :: Same(c, slots[i].ref, d, s.ref, n)
    ensures CopiedSlots(c, slots, e, e[q].slots, lo) && Apart(e, lo)
  {
    CopiedLater(c, slots, d, e, d[q].slots, lo);
    forall n: nat
      ensures Same(c, slots[i].ref, e, s.ref, n)
    {
      SameLater(c, slots[i].ref, d, e, s.ref, n, lo);
    }
    hide Same;
  }

  lemma Absent(slots: seq<Slot>, copies: seq<Slot>, i: nat)
    requires DistinctSlots(slots) && i < |slots| && |copies| == i
    requires forall j :: 0 <= j < i ==> copies[j].key == slots[j].key
    ensures FindSlot(copies, slots[i].key) < 0
  {
  }

  /** Hands a copied element over to the copied container. */
  method Attach(m: Memory, q: Ref, key: bytes, c: Ref)
    requires m.Valid() && q in m.cells && c in m.handles && c != q && SlotsOk(m.cells[q].kind, m.cells[q].slots)
    requires (m.cells[q].kind.ArrayNode? && key == []) || (m.cells[q].kind.ObjectNode? && FindSlot(m.cells[q].slots, key) < 0)
    modifies m
    ensures m.Valid() && m.freed == old(m.freed) && m.next == old(m.next) && m.handles == old(m.handles) - multiset{c}
    ensures m.cells == old(m.cells)[q := old(m.cells)[q].(slots := old(m.cells)[q].slots + [Slot(key, c)])]
  {
    hide State;
    var ok;
    if m.cells[q].kind.ArrayNode? {
      ok := m.ArrayAppendNew(q, c);
    } else {
      var dangling;
      ok, dangling := m.ObjectSetNew(q, key, c);
    }
  }

  /** A container q, made when the heap was `was`, holds copies of the first i slots of r. */
  ghost predicate Building(src: Cells, r: Ref, was: Cells, m: Memory, q: Ref, i: nat)
    requires r in src
    reads m
  {
    && m.Valid() && Kept(was, m.cells) && 3 <= q < m.next && q !in was && q in m.cells && m.cells[q].kind == src[r].kind
    && |m.cells[q].slots| == i && (forall k <- m.cells.Keys :: k in was || k >= q)
    && Apart(m.cells, q + 1) && CopiedSlots(src, src[r].slots, m.cells, m.cells[q].slots, q + 1)
  }

  /** json_array_deep_copy and json_object_deep_copy. */
  method CopyContainer(m: Memory, r: Ref, ghost src: Cells, ghost rank: map<Ref, nat>) returns (q: Ref)
    requires m.Valid() && r in src && Kept(src, m.cells) && Ranked(src, rank)
    requires src[r].kind.ArrayNode? || src[r].kind.ObjectNode?
    modifies m
    ensures Copied(src, r, old(m.cells), old(m.next), m, q)
    ensures m.handles == old(m.handles) + multiset{q} && m.freed == old(m.freed)
    decreases rank[r], 0
  {
    hide State, Same, Ranked;
    Bare(m);
    var kind := m.cells[r].kind;
    var slots := m.cells[r].slots;
    ghost var was := m.cells;
    q := m.New(kind);
    for i := 0 to |slots|
      invariant Building(src, r, was, m, q, i) && Kept(src, was) && q == old(m.next)
      invariant m.freed == old(m.freed) && m.handles == old(m.handles) + multiset{q}
    {
      CopySlot(m, r, i, slots[i], q, src, rank, was);
    }
    AllCopied(src, r, m.cells, q, q + 1);
  }

  lemma KeptTwice(a: Cells, b: Cells, c: Cells)
    requires Kept(a, b) && Kept(b, c)
    ensures Kept(a, c)
  {
  }

  method CopySlot(m: Memory, r: Ref, i: nat, slot: Slot, q: Ref, ghost src: Cells, ghost rank: map<Ref, nat>, ghost was: Cells)
    requires r in src && Kept(src, was) && Ranked(src, rank) && Building(src, r, was, m, q, i)
    requires i < |src[r].slots| && slot == src[r].slots[i] && (src[r].kind.ArrayNode? || src[r].kind.ObjectNode?)
    requires SlotsOk(src[r].kind, src[r].slots)
    modifies m
    ensures Building(src, r, was, m, q, i + 1) && m.freed == old(m.freed) && m.handles == old(m.handles)
    decreases rank[r], 0, 0
  {
    hide State, Same, Ranked, Apart, CopiedSlots;
    Child(src, rank, r, i);
    ghost var before, lo := m.cells, m.next;
    Bare(m);
    KeptTwice(src, was, before);
    var c := DeepCopy(m, slot.ref, src, rank);
    KeptTwice(was, before, m.cells);
    CopiedLater(src, src[r].slots, before, m.cells, before[q].slots, q + 1);
    ApartLater(before, m.cells, q + 1, lo);
    ghost var middle := m.cells;
    Bare(m);
    if m.cells[q].kind.ObjectNode? {
      Absent(src[r].slots, middle[q].slots, i);
    }
    Attach(m, q, slot.key, c);
    OneMoreCopied(src, src[r].slots, middle, m.cells, q, i, Slot(slot.key, c), q + 1);
  }

  // ---------------------------------------------------------------- as values

  /** The value that a node of an acyclic heap stands for; serials are not kept on this heap. */
  ghost function Unfold(c: Cells, rank: map<Ref, nat>, r: Ref): V.Value
    requires Ranked(c, rank) && r in c
    decreases rank[r], 1
  {
    match c[r].kind
    case Singleton => if r == TRUE_REF then V.True else if r == FALSE_REF then V.False else V.Null
    case Scalar(v) => v
    case ArrayNode => V.Array(Below(c, rank, r))
    case ObjectNode => V.Object(Fields(c[r].slots, Below(c, rank, r)))
  }

  ghost function Below(c: Cells, rank: map<Ref, nat>, r: Ref): (vs: seq<V.Value>)
    requires Ranked(c, rank) && r in c
    ensures |vs| == |c[r].slots|
    decreases rank[r], 0
  {
    seq(|c[r].slots|, i requires 0 <= i < |c[r].slots| => Child(c, rank, r, i); Unfold(c, rank, c[r].slots[i].ref))
  }

  ghost function Fields(slots: seq<Slot>, vs: seq<V.Value>): seq<V.Entry>
    requires |vs| == |slots|
  {
    seq(|slots|, i requires 0 <= i < |slots| => V.Entry(slots[i].key, 0, vs[i]))
  }

  /** Scalars are numbers and strings, and the singletons have their places. */
  ghost predicate Proper(c: Cells) {
    forall k <- c.Keys ::
      && (c[k].kind.Singleton? <==> k < 3)
      && (c[k].kind.Scalar? ==> var v := c[k].kind.value; v.Integer? || v.Real? || v.String?)
  }

  lemma {:induction false} Unfolded(c: Cells, rank: map<Ref, nat>, r: Ref)
    requires Ranked(c, rank) && r in c && Proper(c)
    ensures Stands(c, r, Unfold(c, rank, r))
    decreases rank[r]
  {
    forall i | 0 <= i < |c[r].slots|
      ensures Stands(c, c[r].slots[i].ref, Below(c, rank, r)[i])
    {
      Child(c, rank, r, i);
      Unfolded(c, rank, c[r].slots[i].ref);
    }
  }

  /** Nodes built alike stand for the same values. */
  lemma {:induction false} SameStands(c: Cells, r: Ref, d: Cells, q: Ref, v: V.Value)
    requires Stands(c, r, v) && Proper(c) && forall n :: Same(c, r, d, q, n)
    ensures Stands(d, q, v)
    decreases v
  {
    assert Same(c, r, d, q, 0);
    forall i | 0 <= i < |c[r].slots|
      ensures c[r].slots[i].key == d[q].slots[i].key && forall n: nat :: Same(c, c[r].slots[i].ref, d, d[q].slots[i].ref, n)
    {
      SlotsSame(c, r, d, q, i);
    }
    match v
    case Array(items) =>
      forall i | 0 <= i < |items|
        ensures Stands(d, d[q].slots[i].ref, items[i])
      {
        SameStands(c, c[r].slots[i].ref, d, d[q].slots[i].ref, items[i]);
      }
    case Object(es) =>
      forall i | 0 <= i < |es|
        ensures Stands(d, d[q].slots[i].ref, es[i].value)
      {
        SameStands(c, c[r].slots[i].ref, d, d[q].slots[i].ref, es[i].value);
      }
    case _ =>
  }

  lemma SlotsSame(c: Cells, r: Ref, d: Cells, q: Ref, i: nat)
    requires (forall n :: Same(c, r, d, q, n)) && r in c && q in d && i < |c[r].slots| == |d[q].slots|
    ensures c[r].slots[i].key == d[q].slots[i].key && forall n: nat :: Same(c, c[r].slots[i].ref, d, d[q].slots[i].ref, n)
  {
    assert Same(c, r, d, q, 0);
    forall n: nat
      ensures Same(c, c[r].slots[i].ref, d, d[q].slots[i].ref, n)
    {
      assert Same(c, r, d, q, n + 1);
      assert SameSlot(c, c[r].slots[i], d, d[q].slots[i], n + 1);
    }
  }

  /** What DeepCopy returns is json_equal to the original: both stand for the same value. */
  lemma CopyIsEqual(src: Cells, rank: map<Ref, nat>, r: Ref, d: Cells, q: Ref)
    requires Ranked(src, rank) && r in src && Proper(src) && forall n :: Same(src, r, d, q, n)
    ensures Stands(src, r, Unfold(src, rank, r)) && Stands(d, q, Unfold(src, rank, r))
  {
    hide Same, Stands, Proper;
    Unfolded(src, rank, r);
    SameStands(src, r, d, q, Unfold(src, rank, r));
  }
}
