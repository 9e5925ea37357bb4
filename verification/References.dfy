/**
  Reference counting of value.c and jansson.h: the heap as a map from references to
  cells, and the proof that counts are conserved and nodes released exactly once, up to
  the one way in which that goes wrong: a node is released in the middle of a call that goes
  on to use it. That is a container whose own value is being replaced or removed, if a cycle
  through that value was all that kept it, or the object an update reads from, if it was a
  value that the update replaces. When that happens is said exactly.
 */
module References {
  import opened Bytes
  import A = Arrays
  import V = Values

  /** The identity of a node; never used twice. */
  type Ref = nat

  /** A place in a container: an element of an array (whose key is empty) or a pair of an object. */
  datatype Slot = Slot(key: bytes, ref: Ref)

  /** Singletons are the nodes whose count is (size_t)-1. */
  datatype Kind = Singleton | Scalar(value: V.Value) | ArrayNode | ObjectNode

  datatype Cell = Cell(kind: Kind, count: nat, slots: seq<Slot>)

  type Cells = map<Ref, Cell>

  const NULL_REF: Ref := 0
  const TRUE_REF: Ref := 1
  const FALSE_REF: Ref := 2

  // ------------------------------------------------------- counting references

  /** What some slots refer to. */
  function Targets(slots: seq<Slot>): multiset<Ref> {
    if slots == [] then multiset{} else Targets(slots[..|slots|-1]) + multiset{slots[|slots|-1].ref}
  }

  lemma {:induction false} TargetsConcat(s: seq<Slot>, t: seq<Slot>)
    ensures Targets(s + t) == Targets(s) + Targets(t)
  {
    if t == [] {
      assert s + t == s;
    } else {
      var u := t[..|t|-1];
      assert (s + t)[..|s+t|-1] == s + u && (s + t)[|s+t|-1] == t[|t|-1];
      TargetsConcat(s, u);
    }
  }

  lemma TargetsOne(s: Slot)
    ensures Targets([s]) == multiset{s.ref}
  {
    assert [s][..0] == [];
  }

  /** Exchanging the slots between i and j. */
  lemma TargetsReplace(s: seq<Slot>, i: nat, j: nat, mid: seq<Slot>)
    requires i <= j <= |s|
    ensures Targets(s[..i] + mid + s[j..]) + Targets(s[i..j]) == Targets(s) + Targets(mid)
  {
    assert s == s[..i] + s[i..j] + s[j..];
    TargetsConcat(s[..i] + s[i..j], s[j..]);
    TargetsConcat(s[..i], s[i..j]);
    TargetsConcat(s[..i] + mid, s[j..]);
    TargetsConcat(s[..i], mid);
  }

  lemma {:induction false} TargetsMember(s: seq<Slot>, i: nat)
    requires i < |s|
    ensures s[i].ref in Targets(s)
  {
    if i < |s| - 1 {
      TargetsMember(s[..|s|-1], i);
    }
  }

  /** All references held by the slots of some cells. */
  ghost function RefsIn(cells: Cells, keys: set<Ref>): multiset<Ref>
    requires keys <= cells.Keys
  {
    if keys == {} then multiset{}
    else
      var k :| k in keys;
      Targets(cells[k].slots) + RefsIn(cells, keys - {k})
  }

  ghost function Refs(cells: Cells): multiset<Ref> { RefsIn(cells, cells.Keys) }

  lemma {:induction false} RefsPick(cells: Cells, keys: set<Ref>, k: Ref)
    requires keys <= cells.Keys && k in keys
    ensures RefsIn(cells, keys) == Targets(cells[k].slots) + RefsIn(cells, keys - {k})
    decreases |keys|
  {
    var j :| j in keys && RefsIn(cells, keys) == Targets(cells[j].slots) + RefsIn(cells, keys - {j});
    if j != k {
      RefsPick(cells, keys - {j}, k);
      RefsPick(cells, keys - {k}, j);
      assert keys - {j} - {k} == keys - {k} - {j};
    }
  }

  lemma {:induction false} RefsSame(c: Cells, d: Cells, keys: set<Ref>)
    requires keys <= c.Keys && keys <= d.Keys && forall k <- keys :: c[k].slots == d[k].slots
    ensures RefsIn(c, keys) == RefsIn(d, keys)
    decreases |keys|
  {
    if keys != {} {
      var k :| k in keys;
      RefsPick(c, keys, k);
      RefsPick(d, keys, k);
      RefsSame(c, d, keys - {k});
    }
  }

  /** Giving one cell other slots. */
  lemma RefsUpdate(c: Cells, k: Ref, cell: Cell)
    requires k in c
    ensures Refs(c[k := cell]) + Targets(c[k].slots) == Refs(c) + Targets(cell.slots)
  {
    var d := c[k := cell];
    RefsPick(c, c.Keys, k);
    RefsPick(d, d.Keys, k);
    assert d.Keys == c.Keys;
    RefsSame(c, d, c.Keys - {k});
  }

  lemma RefsAdd(c: Cells, k: Ref, cell: Cell)
    requires k !in c
    ensures Refs(c[k := cell]) == Refs(c) + Targets(cell.slots)
  {
    var d := c[k := cell];
    RefsPick(d, d.Keys, k);
    assert d.Keys - {k} == c.Keys;
    RefsSame(c, d, c.Keys);
  }

  lemma RefsRemove(c: Cells, k: Ref)
    requires k in c
    ensures Refs(c) == Targets(c[k].slots) + Refs(c - {k})
  {
    var d := c - {k};
    RefsPick(c, c.Keys, k);
    assert d.Keys == c.Keys - {k};
    RefsSame(c, d, d.Keys);
  }

  lemma RefsMember(c: Cells, k: Ref, i: nat)
    requires k in c && i < |c[k].slots|
    ensures c[k].slots[i].ref in Refs(c)
  {
    RefsPick(c, c.Keys, k);
    TargetsMember(c[k].slots, i);
  }

  // -------------------------------------------------------------- conservation

  /** Every slot and every reference the caller holds leads to a live cell. */
  ghost predicate Closed(cells: Cells, handles: multiset<Ref>) {
    && (forall k <- cells.Keys, i :: 0 <= i < |cells[k].slots| ==> cells[k].slots[i].ref in cells)
    && (forall r <- handles :: r in cells)
  }

  /** A count is the number of slots and caller-held references that lead to the cell. */
  ghost predicate Counted(cells: Cells, handles: multiset<Ref>) {
    forall k <- cells.Keys :: !cells[k].kind.Singleton? ==> cells[k].count == handles[k] + Refs(cells)[k] > 0
  }

  ghost predicate Sound(cells: Cells, handles: multiset<Ref>) {
    Closed(cells, handles) && Counted(cells, handles)
  }

  /** Only a count changes. */
  lemma Recounted(c: Cells, r: Ref, n: nat)
    requires r in c
    ensures Refs(c[r := c[r].(count := n)]) == Refs(c)
  {
    var d := c[r := c[r].(count := n)];
    assert d.Keys == c.Keys;
    RefsSame(c, d, c.Keys);
  }

  /** Dropping one of several references. */
  lemma CountDown(c: Cells, h: multiset<Ref>, r: Ref)
    requires Sound(c, h) && r in h && !c[r].kind.Singleton? && c[r].count > 1
    ensures Sound(c[r := c[r].(count := c[r].count - 1)], h - multiset{r})
  {
    hide Refs;
    var d, h' := c[r := c[r].(count := c[r].count - 1)], h - multiset{r};
    Recounted(c, r, c[r].count - 1);
    assert Closed(d, h');
    assert Counted(d, h');
  }

  lemma CountUp(c: Cells, h: multiset<Ref>, r: Ref)
    requires Sound(c, h) && r in c && !c[r].kind.Singleton?
    ensures Sound(c[r := c[r].(count := c[r].count + 1)], h + multiset{r})
  {
    hide Refs;
    var d, h' := c[r := c[r].(count := c[r].count + 1)], h + multiset{r};
    Recounted(c, r, c[r].count + 1);
    assert Closed(d, h');
    assert Counted(d, h');
  }

  /** Dropping the last reference: the cell goes, and its slots become references to drop. */
  lemma Released(c: Cells, h: multiset<Ref>, r: Ref)
    requires Sound(c, h) && r in h && !c[r].kind.Singleton? && c[r].count == 1
    ensures Refs(c)[r] == 0 && h[r] == 1
    ensures Sound(c - {r}, h - multiset{r} + Targets(c[r].slots))
  {
    hide Refs, Targets;
    RefsRemove(c, r);
    ReleasedClosed(c, h, r);
    ReleasedCounted(c, h, r);
  }

  lemma ReleasedCounted(c: Cells, h: multiset<Ref>, r: Ref)
    requires Counted(c, h) && r in c && Refs(c) == Refs(c - {r}) + Targets(c[r].slots)
    ensures Counted(c - {r}, h - multiset{r} + Targets(c[r].slots))
  {
    hide Refs, Targets;
  }

  lemma ReleasedClosed(c: Cells, h: multiset<Ref>, r: Ref)
    requires Closed(c, h) && r in c && Refs(c)[r] == 0 && h[r] == 1 && Refs(c) == Refs(c - {r}) + Targets(c[r].slots)
    ensures Closed(c - {r}, h - multiset{r} + Targets(c[r].slots))
  {
    hide Refs, Targets;
    var d := c - {r};
    forall k <- d.Keys, i | 0 <= i < |d[k].slots|
      ensures d[k].slots[i].ref in d
    {
      RefsMember(c, k, i);
    }
    forall x <- Targets(c[r].slots)
      ensures x in d
    {
      assert x in Refs(c);
      TargetIsSlot(c[r].slots, x);
    }
  }

  lemma {:induction false} TargetIsSlot(s: seq<Slot>, x: Ref)
    requires x in Targets(s)
    ensures exists i :: 0 <= i < |s| && s[i].ref == x
  {
    if s[|s|-1].ref != x {
      TargetIsSlot(s[..|s|-1], x);
      var i :| 0 <= i < |s| - 1 && s[..|s|-1][i].ref == x;
      assert s[i].ref == x;
    }
  }

  /** A new cell with one reference to it and no slots. */
  lemma Allocated(c: Cells, h: multiset<Ref>, r: Ref, kind: Kind)
    requires Sound(c, h) && r !in c
    ensures Sound(c[r := Cell(kind, 1, [])], h + multiset{r})
  {
    hide Refs;
    var d, h' := c[r := Cell(kind, 1, [])], h + multiset{r};
    RefsAdd(c, r, d[r]);
    assert Refs(d) == Refs(c);
    assert r !in h;
    if r in Refs(c) {
      RefsLive(c, h, r);
    }
    assert Closed(d, h');
    assert Counted(d, h');
  }

  lemma RefsLive(c: Cells, h: multiset<Ref>, r: Ref)
    requires Closed(c, h) && r in Refs(c)
    ensures r in c
  {
    RefIsSlot(c, c.Keys, r);
  }

  lemma {:induction false} RefIsSlot(c: Cells, keys: set<Ref>, r: Ref)
    requires keys <= c.Keys && r in RefsIn(c, keys)
    ensures exists k, i :: k in keys && 0 <= i < |c[k].slots| && c[k].slots[i].ref == r
    decreases |keys|
  {
    var k :| k in keys;
    RefsPick(c, keys, k);
    if r in Targets(c[k].slots) {
      TargetIsSlot(c[k].slots, r);
    } else {
      RefIsSlot(c, keys - {k}, r);
    }
  }

  /** Other slots for one cell: what the new ones lead to is paid for with references held,
      and what the old ones led to becomes held. */
  lemma Exchanged(c: Cells, h: multiset<Ref>, a: Ref, slots: seq<Slot>)
    requires Sound(c, h) && a in c && !c[a].kind.Singleton?
    requires Targets(slots) <= h + Targets(c[a].slots)
    ensures Sound(c[a := c[a].(slots := slots)], h + Targets(c[a].slots) - Targets(slots))
  {
    hide Targets, Refs;
    var d := c[a := c[a].(slots := slots)];
    RefsUpdate(c, a, d[a]);
    ExchangedClosed(c, h, a, slots);
    forall k <- d.Keys | !d[k].kind.Singleton?
      ensures d[k].count == (h + Targets(c[a].slots) - Targets(slots))[k] + Refs(d)[k]
    {
      assert (Refs(d) + Targets(c[a].slots))[k] == (Refs(c) + Targets(slots))[k];
    }
  }

  lemma ExchangedClosed(c: Cells, h: multiset<Ref>, a: Ref, slots: seq<Slot>)
    requires Closed(c, h) && a in c && Targets(slots) <= h + Targets(c[a].slots)
    ensures Closed(c[a := c[a].(slots := slots)], h + Targets(c[a].slots) - Targets(slots))
  {
    forall x <- Targets(c[a].slots)
      ensures x in c
    {
      TargetIsSlot(c[a].slots, x);
    }
    hide Targets;
    forall i | 0 <= i < |slots|
      ensures slots[i].ref in c
    {
      TargetsMember(slots, i);
      assert slots[i].ref in h + Targets(c[a].slots);
    }
  }

  // ------------------------------------------------------- what hangs by a slot

  /** These nodes are not held by the caller, and what refers to one of them is one of them,
      of a higher rank. */
  ghost predicate Hangs(c: Cells, h: multiset<Ref>, rank: map<Ref, nat>) {
    && (forall x <- rank.Keys :: x in c && !c[x].kind.Singleton? && h[x] == 0)
    && (forall k <- c.Keys, i :: 0 <= i < |c[k].slots| && c[k].slots[i].ref in rank ==>
          k in rank && rank[k] > rank[c[k].slots[i].ref])
  }

  /** The node hangs by references that are not slots of these cells: it belongs to some nodes
      that, but for those references, nothing else refers to. */
  ghost predicate Falls(c: Cells, h: multiset<Ref>, x: Ref) {
    exists rank: map<Ref, nat> :: x in rank && Hangs(c, h, rank)
  }

  /** With only these slots left to it, the container hangs by the slots taken from it. */
  ghost predicate Doomed(c: Cells, h: multiset<Ref>, a: Ref, kept: seq<Slot>)
    requires a in c
  {
    Falls(c[a := c[a].(slots := kept)], h, a)
  }

  /** The nodes that are not live hang. */
  ghost predicate Lost(c: Cells, h: multiset<Ref>, live: set<Ref>) {
    exists rank: map<Ref, nat> :: rank.Keys == c.Keys - live && Hangs(c, h, rank)
  }

  /** The nodes that are not live are those that hang. */
  ghost predicate Sheds(c: Cells, h: multiset<Ref>, live: set<Ref>) {
    Lost(c, h, live) && forall x <- c.Keys :: Falls(c, h, x) ==> x !in live
  }

  /** Nodes that hang by references which have all been dropped are gone. */
  lemma {:induction false} AllGone(c: Cells, d: Cells, h: multiset<Ref>, rank: map<Ref, nat>, x: Ref)
    requires Hangs(c, h, rank) && x in rank && Shrunk(c, d) && Counted(d, h)
    ensures x !in d
    decreases |Above(rank, x)|
  {
    if x in d {
      RefIsSlot(d, d.Keys, x);
      var k, i :| k in d.Keys && 0 <= i < |d[k].slots| && d[k].slots[i].ref == x;
      assert c[k].slots[i].ref == x;
      AboveLess(rank, x, k);
      AllGone(c, d, h, rank, k);
    }
  }

  ghost function Above(rank: map<Ref, nat>, x: Ref): set<Ref>
    requires x in rank
  {
    set k | k in rank && rank[k] > rank[x]
  }

  lemma AboveLess(rank: map<Ref, nat>, x: Ref, k: Ref)
    requires x in rank && k in rank && rank[k] > rank[x]
    ensures |Above(rank, k)| < |Above(rank, x)|
  {
    assert k in Above(rank, x) && k !in Above(rank, k) && Above(rank, k) <= Above(rank, x);
    Proper(Above(rank, k), Above(rank, x), k);
  }

  lemma Proper(s: set<Ref>, t: set<Ref>, k: Ref)
    requires s <= t && k in t && k !in s
    ensures |s| < |t|
  {
    assert s <= t - {k};
    Fewer(s, t - {k});
  }

  lemma {:induction false} Fewer(s: set<Ref>, t: set<Ref>)
    requires s <= t
    ensures |s| <= |t|
    decreases |s|
  {
    if s != {} {
      var x :| x in s;
      Fewer(s - {x}, t - {x});
    }
  }

  /** Nodes are released after whatever refers to them: from f0 on, in the order of f1. */
  ghost predicate InOrder(c: Cells, f0: seq<Ref>, f1: seq<Ref>) {
    && f0 <= f1
    && forall p, k, i :: |f0| <= p < |f1| && k in c && 0 <= i < |c[k].slots| && c[k].slots[i].ref == f1[p] ==> k in f1[|f0|..p]
  }

  /** What has gone is what was released. */
  ghost predicate GoneIsFreed(c: Cells, d: Cells, f0: seq<Ref>, f1: seq<Ref>) {
    f0 <= f1 && forall k :: k in c && k !in d <==> k in f1[|f0|..]
  }

  lemma Position(f: seq<Ref>, a: nat, b: nat, x: Ref) returns (p: nat)
    requires a <= b <= |f| && x in f[a..b]
    ensures a <= p < b && f[p] == x
  {
    var i :| 0 <= i < |f[a..b]| && f[a..b][i] == x;
    p := a + i;
  }

  lemma InOrderTwice(c: Cells, d: Cells, f0: seq<Ref>, f1: seq<Ref>, f2: seq<Ref>)
    requires InOrder(c, f0, f1) && InOrder(d, f1, f2) && GoneIsFreed(c, d, f0, f1) && Shrunk(c, d)
    ensures InOrder(c, f0, f2)
  {
    forall p, k, i | |f0| <= p < |f2| && k in c && 0 <= i < |c[k].slots| && c[k].slots[i].ref == f2[p]
      ensures k in f2[|f0|..p]
    {
      if p < |f1| {
        assert f2[p] == f1[p];
        assert f2[|f0|..p] == f1[|f0|..p];
      } else {
        assert k in d ==> k in f2[|f1|..p];
        assert k !in d ==> k in f1[|f0|..];
        LaterPart(f1, f2, |f0|, p, k);
      }
    }
  }

  lemma LaterPart(f1: seq<Ref>, f2: seq<Ref>, a: nat, p: nat, k: Ref)
    requires f1 <= f2 && a <= |f1| <= p <= |f2| && (k in f1[a..] || k in f2[|f1|..p])
    ensures k in f2[a..p]
  {
    assert f2[a..p] == f1[a..] + f2[|f1|..p];
  }

  lemma GoneTwice(c: Cells, d: Cells, e: Cells, f0: seq<Ref>, f1: seq<Ref>, f2: seq<Ref>)
    requires GoneIsFreed(c, d, f0, f1) && GoneIsFreed(d, e, f1, f2) && Shrunk(c, d) && Shrunk(d, e)
    ensures GoneIsFreed(c, e, f0, f2)
  {
    assert f2[|f0|..] == f1[|f0|..] + f2[|f1|..];
  }

  /** The rank of a released node is how many were released after it. */
  lemma ReleasedHang(c: Cells, d: Cells, h: multiset<Ref>, f0: seq<Ref>, f1: seq<Ref>) returns (rank: map<Ref, nat>)
    requires InOrder(c, f0, f1) && GoneIsFreed(c, d, f0, f1) && Distinct(f1)
    requires forall x <- c.Keys :: x !in d ==> !c[x].kind.Singleton? && h[x] == 0
    ensures rank.Keys == c.Keys - d.Keys && Hangs(c, h, rank)
  {
    rank := map x | x in c && x !in d :: |f1| - PositionOf(f1, x);
    forall k <- c.Keys, i | 0 <= i < |c[k].slots| && c[k].slots[i].ref in rank
      ensures k in rank && rank[k] > rank[c[k].slots[i].ref]
    {
      Earlier(c, d, f0, f1, k, i);
    }
  }

  lemma Earlier(c: Cells, d: Cells, f0: seq<Ref>, f1: seq<Ref>, k: Ref, i: nat)
    requires InOrder(c, f0, f1) && GoneIsFreed(c, d, f0, f1) && Distinct(f1)
    requires k in c && i < |c[k].slots| && c[k].slots[i].ref in c && c[k].slots[i].ref !in d
    ensures k !in d && PositionOf(f1, k) < PositionOf(f1, c[k].slots[i].ref)
  {
    hide PositionOf;
    var x := c[k].slots[i].ref;
    assert f1[|f0|..] == f1[|f0|..|f1|];
    var p := Position(f1, |f0|, |f1|, x);
    assert k in f1[|f0|..p];
    var q := Position(f1, |f0|, p, k);
    assert f1[|f0|..][q-|f0|] == k;
    PositionIs(f1, p);
    PositionIs(f1, q);
  }

  function PositionOf(f: seq<Ref>, x: Ref): (p: nat)
    ensures p <= |f| && (x in f ==> p < |f| && f[p] == x)
  {
    if f == [] then 0 else if f[0] == x then 0 else 1 + PositionOf(f[1..], x)
  }

  lemma PositionIs(f: seq<Ref>, p: nat)
    requires p < |f| && Distinct(f)
    ensures PositionOf(f, f[p]) == p
  {
    assert f[p] in f;
  }

  // ------------------------------------------------------------------ the heap

  ghost predicate Distinct(s: seq<Ref>) {
    forall i, j :: 0 <= i < j < |s| ==> s[i] != s[j]
  }

  const SINGLETON := Cell(Singleton, 0, [])

  predicate DistinctSlots(slots: seq<Slot>) {
    forall i, j :: 0 <= i < j < |slots| ==> slots[i].key != slots[j].key
  }

  /** Scalars have no slots, an array's slots no keys, and an object's keys are distinct. */
  predicate SlotsOk(kind: Kind, slots: seq<Slot>) {
    match kind
    case Singleton => slots == []
    case Scalar(_) => slots == []
    case ArrayNode => forall i :: 0 <= i < |slots| ==> slots[i].key == []
    case ObjectNode => DistinctSlots(slots)
  }

  /** The singletons are live and never change. */
  ghost predicate Kinds(cells: Cells) {
    && NULL_REF in cells && TRUE_REF in cells && FALSE_REF in cells
    && (forall k <- cells.Keys :: cells[k].kind.Singleton? <==> k < 3)
    && (forall k <- cells.Keys :: cells[k].kind.Singleton? ==> cells[k] == SINGLETON)
    && (forall k <- cells.Keys :: SlotsOk(cells[k].kind, cells[k].slots))
  }

  /** Every node ever made is live or was released, once. */
  ghost predicate Accounted(cells: Cells, freed: seq<Ref>, next: Ref) {
    && (forall k: Ref :: k < next <==> k in cells || k in freed)
    && (forall f <- freed :: f !in cells)
    && Distinct(freed)
  }

  /** Slots and kinds are as before, except for the slots of one cell. */
  ghost predicate Only(before: Cells, after: Cells, a: Ref, slots: seq<Slot>) {
    forall k <- after.Keys :: k in before && after[k].kind == before[k].kind
                              && after[k].slots == if k == a then slots else before[k].slots
  }

  /** Nothing but counts has changed, and cells may have gone. */
  ghost predicate Shrunk(before: Cells, after: Cells) {
    && (forall k <- after.Keys :: k in before && after[k].kind == before[k].kind && after[k].slots == before[k].slots)
    && |after| <= |before|
  }

  /** What holds between calls. */
  ghost predicate State(cells: Cells, handles: multiset<Ref>, freed: seq<Ref>, next: Ref) {
    Sound(cells, handles) && Kinds(cells) && Accounted(cells, freed, next)
  }

  lemma HeldIsLive(c: Cells, h: multiset<Ref>, f: seq<Ref>, n: Ref, r: Ref)
    requires State(c, h, f, n) && r in h
    ensures r in c && (c[r].kind.Singleton? || c[r].count > 0)
  {
  }

  lemma NewState(c: Cells, h: multiset<Ref>, f: seq<Ref>, n: Ref, kind: Kind)
    requires State(c, h, f, n) && !kind.Singleton?
    ensures n !in c && n !in f && State(c[n := Cell(kind, 1, [])], h + multiset{n}, f, n + 1)
  {
    hide Sound, Kinds, Accounted;
    NewRef(c, f, n);
    Allocated(c, h, n, kind);
    NewKinds(c, n, kind);
    NewAccounts(c, f, n, kind);
  }

  lemma NewRef(c: Cells, f: seq<Ref>, n: Ref)
    requires Kinds(c) && Accounted(c, f, n)
    ensures n !in c && n !in f && 3 <= n
  {
    assert FALSE_REF in c;
  }

  lemma NewKinds(c: Cells, n: Ref, kind: Kind)
    requires Kinds(c) && 3 <= n && n !in c && !kind.Singleton?
    ensures Kinds(c[n := Cell(kind, 1, [])])
  {
  }

  lemma NewAccounts(c: Cells, f: seq<Ref>, n: Ref, kind: Kind)
    requires Accounted(c, f, n) && n !in f
    ensures Accounted(c[n := Cell(kind, 1, [])], f, n + 1)
  {
  }

  lemma StartState()
    ensures State(map[NULL_REF := SINGLETON, TRUE_REF := SINGLETON, FALSE_REF := SINGLETON], multiset{}, [], 3)
  {
    var c: Cells := map[NULL_REF := SINGLETON, TRUE_REF := SINGLETON, FALSE_REF := SINGLETON];
    assert forall k: Ref :: k < 3 <==> k in c;
    hide Refs;
    assert Kinds(c) && Accounted(c, [], 3) && Sound(c, multiset{});
  }

  lemma UpState(c: Cells, h: multiset<Ref>, f: seq<Ref>, n: Ref, r: Ref)
    requires State(c, h, f, n) && r in c
    ensures c[r].kind.Singleton? ==> State(c, h + multiset{r}, f, n)
    ensures !c[r].kind.Singleton? ==> State(c[r := c[r].(count := c[r].count + 1)], h + multiset{r}, f, n)
  {
    hide Refs;
    if c[r].kind.Singleton? {
      assert Counted(c, h + multiset{r});
    } else {
      CountUp(c, h, r);
      hide Sound;
    }
  }

  lemma DownState(c: Cells, h: multiset<Ref>, f: seq<Ref>, n: Ref, r: Ref)
    requires State(c, h, f, n) && r in h && (c[r].kind.Singleton? || c[r].count > 1)
    ensures c[r].kind.Singleton? ==> State(c, h - multiset{r}, f, n)
    ensures !c[r].kind.Singleton? ==> var d := c[r := c[r].(count := c[r].count - 1)]; State(d, h - multiset{r}, f, n) && Shrunk(c, d)
  {
    hide Refs;
    if c[r].kind.Singleton? {
      assert Counted(c, h - multiset{r});
    } else {
      CountDown(c, h, r);
      hide Sound;
      assert c[r := c[r].(count := c[r].count - 1)].Keys == c.Keys;
    }
  }

  lemma ReleaseState(c: Cells, h: multiset<Ref>, f: seq<Ref>, n: Ref, r: Ref)
    requires State(c, h, f, n) && r in h && !c[r].kind.Singleton? && c[r].count == 1
    ensures State(c - {r}, h - multiset{r} + Targets(c[r].slots), f + [r], n) && Shrunk(c, c - {r}) && |c - {r}| < |c|
    ensures h - multiset{r} + Targets(c[r].slots) - Targets(c[r].slots) == h - multiset{r}
  {
    hide Refs, Targets;
    Released(c, h, r);
    PlusMinus(h - multiset{r}, Targets(c[r].slots));
    ReleaseAccounts(c, f, n, r);
    hide Sound;
    assert c.Keys == (c - {r}).Keys + {r};
  }

  lemma NothingGone(c: Cells, d: Cells, f: seq<Ref>)
    requires c.Keys == d.Keys
    ensures InOrder(c, f, f) && GoneIsFreed(c, d, f, f)
  {
  }

  /** Releasing one node, to which nothing refers any more. */
  lemma ReleaseOrder(c: Cells, h: multiset<Ref>, f: seq<Ref>, n: Ref, r: Ref)
    requires State(c, h, f, n) && r in h && !c[r].kind.Singleton? && c[r].count == 1
    ensures InOrder(c, f, f + [r]) && GoneIsFreed(c, c - {r}, f, f + [r])
  {
    Released(c, h, r);
    forall k, i | k in c && 0 <= i < |c[k].slots|
      ensures c[k].slots[i].ref != r
    {
      RefsMember(c, k, i);
    }
    assert (f + [r])[|f|..] == [r];
  }

  lemma ReleaseAccounts(c: Cells, f: seq<Ref>, n: Ref, r: Ref)
    requires Accounted(c, f, n) && r in c
    ensures Accounted(c - {r}, f + [r], n)
  {
    assert forall i :: 0 <= i < |f| ==> f[i] in f;
  }

  lemma PlusMinus(a: multiset<Ref>, b: multiset<Ref>)
    ensures a + b - b == a
  {
  }

  lemma MinusOne(h: multiset<Ref>, a: multiset<Ref>, r: Ref)
    requires a + multiset{r} <= h
    ensures r in h - a && h - a - multiset{r} == h - (a + multiset{r})
  {
    assert (a + multiset{r})[r] <= h[r];
  }

  lemma ShrunkTwice(a: Cells, b: Cells, c: Cells)
    requires Shrunk(a, b) && Shrunk(b, c)
    ensures Shrunk(a, c)
  {
  }

  /** Dropping one more of a list of references. */
  lemma DropStep(h: multiset<Ref>, slots: seq<Slot>, i: nat)
    requires i < |slots| && Targets(slots) <= h
    ensures slots[i].ref in h - Targets(slots[..i])
    ensures h - Targets(slots[..i]) - multiset{slots[i].ref} == h - Targets(slots[..i+1])
  {
    hide Targets;
    TargetsConcat(slots[..i+1], slots[i+1..]);
    assert slots == slots[..i+1] + slots[i+1..];
    TargetsSnoc(slots, i);
    MinusOne(h, Targets(slots[..i]), slots[i].ref);
  }

  lemma TargetsSnoc(slots: seq<Slot>, i: nat)
    requires i < |slots|
    ensures Targets(slots[..i+1]) == Targets(slots[..i]) + multiset{slots[i].ref}
  {
    assert slots[..i+1][..i] == slots[..i];
  }

  /** One reference more. */
  function Bump(c: Cells, r: Ref): Cells
    requires r in c
  {
    c[r := c[r].(count := c[r].count + if c[r].kind.Singleton? then 0 else 1)]
  }

  function WithSlots(c: Cells, a: Ref, slots: seq<Slot>): Cells
    requires a in c
  {
    c[a := c[a].(slots := slots)]
  }

  class Memory {
    var cells: Cells
    var next: Ref

    /** The references the caller holds, and the nodes released so far, in order. */
    ghost var handles: multiset<Ref>
    ghost var freed: seq<Ref>

    ghost predicate Valid()
      reads this
    {
      State(cells, handles, freed, next)
    }

    constructor ()
      ensures Valid() && handles == multiset{} && freed == []
      ensures cells == map[NULL_REF := SINGLETON, TRUE_REF := SINGLETON, FALSE_REF := SINGLETON]
    {
      cells := map[NULL_REF := SINGLETON, TRUE_REF := SINGLETON, FALSE_REF := SINGLETON];
      next := 3;
      handles := multiset{};
      freed := [];
      StartState();
      hide State;
    }

    /** json_object, json_array and the scalar constructors. */
    method New(kind: Kind) returns (r: Ref)
      requires Valid() && !kind.Singleton?
      modifies this
      ensures Valid() && handles == old(handles) + multiset{r} && freed == old(freed)
      ensures r == old(next) && next == r + 1 && r !in old(cells) && r !in old(freed)
      ensures cells == old(cells)[r := Cell(kind, 1, [])]
    {
      hide State;
      r := next;
      NewState(cells, handles, freed, next, kind);
      cells := cells[r := Cell(kind, 1, [])];
      next := next + 1;
      handles := handles + multiset{r};
    }

    /** json_incref: the count of a singleton stays. */
    method Incref(r: Ref)
      requires Valid() && r in cells
      modifies this`cells, this`handles
      ensures Valid() && handles == old(handles) + multiset{r}
      ensures cells == Bump(old(cells), r)
    {
      hide State;
      UpState(cells, handles, freed, next, r);
      var c := cells[r];
      if !c.kind.Singleton? {
        cells := cells[r := c.(count := c.count + 1)];
      }
      handles := handles + multiset{r};
    }

    /** json_decref: the node is released, once, when nothing else refers to it, and then
        what it referred to is dropped in turn. */
    method Decref(r: Ref)
      requires Valid() && r in handles
      modifies this`cells, this`handles, this`freed
      ensures Valid() && handles == old(handles) - multiset{r} && Shrunk(old(cells), cells)
      ensures old(freed) <= freed
      ensures r in old(cells) && (r !in cells <==> !old(cells)[r].kind.Singleton? && old(cells)[r].count == 1)
      ensures r in cells ==> freed == old(freed) && old(cells) == Bump(cells, r)
      ensures r !in cells ==> old(freed) + [r] <= freed
      ensures InOrder(old(cells), old(freed), freed) && GoneIsFreed(old(cells), cells, old(freed), freed)
      decreases |cells|, 0
    {
      hide State, InOrder, GoneIsFreed;
      HeldIsLive(cells, handles, freed, next, r);
      var c := cells[r];
      if c.kind.Singleton? {
        DownState(cells, handles, freed, next, r);
        handles := handles - multiset{r};
        NothingGone(old(cells), cells, freed);
      } else if c.count > 1 {
        DownState(cells, handles, freed, next, r);
        cells := cells[r := c.(count := c.count - 1)];
        handles := handles - multiset{r};
        NothingGone(old(cells), cells, freed);
      } else {
        Release(r);
      }
    }

    /** json_delete, when the last reference goes. */
    method Release(r: Ref)
      requires Valid() && r in handles && r in cells && !cells[r].kind.Singleton? && cells[r].count == 1
      modifies this`cells, this`handles, this`freed
      ensures Valid() && handles == old(handles) - multiset{r} && Shrunk(old(cells), cells)
      ensures r !in cells && old(freed) + [r] <= freed
      ensures InOrder(old(cells), old(freed), freed) && GoneIsFreed(old(cells), cells, old(freed), freed)
      decreases |cells|, 0, 0
    {
      hide State, InOrder, GoneIsFreed, Targets;
      var slots := cells[r].slots;
      ReleaseState(cells, handles, freed, next, r);
      ReleaseOrder(cells, handles, freed, next, r);
      cells := cells - {r};
      freed := freed + [r];
      handles := handles - multiset{r} + Targets(slots);
      ghost var between, f := cells, freed;
      DropAll(slots);
      ShrunkTwice(old(cells), between, cells);
      InOrderTwice(old(cells), between, old(freed), f, freed);
      GoneTwice(old(cells), between, cells, old(freed), f, freed);
    }

    /** json_delete_array and hashtable_close: drops what each slot refers to. */
    method DropAll(slots: seq<Slot>)
      requires Valid() && Targets(slots) <= handles
      modifies this`cells, this`handles, this`freed
      ensures Valid() && handles == old(handles) - Targets(slots) && Shrunk(old(cells), cells)
      ensures old(freed) <= freed
      ensures slots == [] ==> cells == old(cells) && freed == old(freed)
      ensures InOrder(old(cells), old(freed), freed) && GoneIsFreed(old(cells), cells, old(freed), freed)
      decreases |cells|, 1
    {
      hide State, Shrunk, Targets, InOrder, GoneIsFreed;
      StartDrop(cells, handles, slots);
      NothingGone(cells, cells, freed);
      for i := 0 to |slots|
        invariant Valid() && handles == old(handles) - Targets(slots[..i]) && Shrunk(old(cells), cells) && |cells| <= old(|cells|)
        invariant old(freed) <= freed && (i == 0 ==> cells == old(cells) && freed == old(freed))
        invariant InOrder(old(cells), old(freed), freed) && GoneIsFreed(old(cells), cells, old(freed), freed)
      {
        DropStep(old(handles), slots, i);
        ghost var before, f := cells, freed;
        Decref(slots[i].ref);
        ShrunkTwice(old(cells), before, cells);
        ShrunkSize(before, cells);
        InOrderTwice(old(cells), before, old(freed), f, freed);
        GoneTwice(old(cells), before, cells, old(freed), f, freed);
      }
      assert slots[..|slots|] == slots;
    }

    /** Gives a container other slots, in the order of the source: first some of its slots are
        dropped, then the new slots are stored, for which the references `paid` are handed over.
        The source leaves a pointer that is being dropped in its place meanwhile, but reads it
        only if the container itself is released by the drop. It then goes on in freed memory;
        this method stops and reports `dangling`. */
    method Replace(a: Ref, kept: seq<Slot>, slots: seq<Slot>, drop: seq<Slot>, ghost paid: multiset<Ref>) returns (dangling: bool)
      requires Valid() && a in cells && (cells[a].kind.ArrayNode? || cells[a].kind.ObjectNode?)
      requires Targets(kept) + Targets(drop) == Targets(cells[a].slots) + multiset{}
      requires Targets(slots) + Targets([]) == Targets(kept) + paid && paid <= handles
      requires SlotsOk(cells[a].kind, kept) && SlotsOk(cells[a].kind, slots)
      modifies this`cells, this`handles, this`freed
      ensures Valid() && old(freed) <= freed
      ensures dangling <==> Doomed(old(cells), old(handles), a, kept)
      ensures dangling ==> a !in cells && handles == old(handles) && Shrunk(old(cells), cells)
      ensures !dangling ==> handles == old(handles) - paid && Only(old(cells), cells, a, slots)
      ensures Sheds(old(cells)[a := old(cells)[a].(slots := kept)], old(handles), cells.Keys)
      ensures drop == [] && kept == old(cells)[a].slots ==>
                !dangling && cells == old(cells)[a := old(cells)[a].(slots := slots)] && freed == old(freed)
    {
      hide State, Targets, Only, Shrunk, Doomed, Sheds;
      TakeOut(a, kept, drop);
      if a !in cells {
        DanglingShrunk(old(cells), a, kept, cells);
        return true;
      }
      ghost var after := cells;
      StillThere(old(cells)[a := old(cells)[a].(slots := kept)], cells, a);
      assert Sheds(old(cells)[a := old(cells)[a].(slots := kept)], old(handles), cells.Keys);
      Store(a, slots, paid);
      assert cells.Keys == after.Keys;
      StoredOnly(old(cells), a, kept, after, slots);
      dangling := false;
    }

    /** Takes slots out of a container and drops what they refer to. */
    method TakeOut(a: Ref, kept: seq<Slot>, drop: seq<Slot>)
      requires Valid() && a in cells && (cells[a].kind.ArrayNode? || cells[a].kind.ObjectNode?)
      requires Targets(kept) + Targets(drop) == Targets(cells[a].slots) + multiset{} && SlotsOk(cells[a].kind, kept)
      modifies this`cells, this`handles, this`freed
      ensures Valid() && old(freed) <= freed && handles == old(handles)
      ensures Shrunk(old(cells)[a := old(cells)[a].(slots := kept)], cells)
      ensures a !in cells <==> Doomed(old(cells), old(handles), a, kept)
      ensures Sheds(old(cells)[a := old(cells)[a].(slots := kept)], handles, cells.Keys)
      ensures drop == [] && kept == old(cells)[a].slots ==> cells == old(cells) && freed == old(freed)
    {
      hide State, Targets, Shrunk, InOrder, GoneIsFreed, Doomed, SlotsOk, Sheds;
      ghost var h := handles;
      ReplaceState(cells, handles, freed, next, a, kept, drop, multiset{});
      ghost var was := Targets(cells[a].slots);
      cells := cells[a := cells[a].(slots := kept)];
      handles := handles + was - Targets(kept);
      DropAll(drop);
      assert handles == h - multiset{} == h;
      DoomIff(old(cells), h, a, kept, cells, old(freed), freed, next);
    }

    /** Stores new slots in a container, for references that are handed over. */
    method Store(a: Ref, slots: seq<Slot>, ghost paid: multiset<Ref>)
      requires Valid() && a in cells && (cells[a].kind.ArrayNode? || cells[a].kind.ObjectNode?)
      requires Targets(slots) + Targets([]) == Targets(cells[a].slots) + paid && paid <= handles && SlotsOk(cells[a].kind, slots)
      modifies this`cells, this`handles
      ensures Valid() && handles == old(handles) - paid && cells == old(cells)[a := old(cells)[a].(slots := slots)]
    {
      hide State, Targets, SlotsOk;
      ReplaceState(cells, handles, freed, next, a, slots, [], paid);
      NoTargets();
      assert handles + Targets(cells[a].slots) - Targets(slots) == handles - paid;
      cells := cells[a := cells[a].(slots := slots)];
      handles := handles - paid;
    }

    /** Puts another slot in the place of one, and drops what that led to. */
    method ReplaceAt(a: Ref, i: nat, s: Slot) returns (dangling: bool)
      requires Valid() && a in cells && (cells[a].kind.ArrayNode? || cells[a].kind.ObjectNode?) && s.ref in handles
      requires i < |cells[a].slots| && SlotsOk(cells[a].kind, cells[a].slots[i := s])
      modifies this`cells, this`handles, this`freed
      ensures Valid() && old(freed) <= freed
      ensures dangling <==> Doomed(old(cells), old(handles), a, Without(old(cells)[a].slots, i))
      ensures Sheds(old(cells)[a := old(cells)[a].(slots := Without(old(cells)[a].slots, i))], old(handles), cells.Keys)
      ensures dangling ==> Gone(old(cells), old(handles), a)
      ensures !dangling ==> handles == old(handles) - multiset{s.ref} && Only(old(cells), cells, a, old(cells)[a].slots[i := s])
    {
      hide State, Targets, Doomed, Sheds;
      SlotsAreOk(cells, handles, freed, next, a);
      var slots := cells[a].slots;
      TakeOne(slots, i);
      PutOne(slots, i, s);
      dangling := Replace(a, Without(slots, i), slots[i := s], [slots[i]], multiset{s.ref});
    }

    /** Puts a slot between others. */
    method AddAt(a: Ref, i: nat, s: Slot)
      requires Valid() && a in cells && (cells[a].kind.ArrayNode? || cells[a].kind.ObjectNode?) && s.ref in handles
      requires i <= |cells[a].slots| && SlotsOk(cells[a].kind, cells[a].slots[..i] + [s] + cells[a].slots[i..])
      modifies this`cells, this`handles, this`freed
      ensures Valid() && handles == old(handles) - multiset{s.ref} && freed == old(freed)
      ensures cells == old(cells)[a := old(cells)[a].(slots := old(cells)[a].slots[..i] + [s] + old(cells)[a].slots[i..])]
    {
      hide State, Targets, Doomed, Sheds;
      SlotsAreOk(cells, handles, freed, next, a);
      var slots := cells[a].slots;
      NothingTaken(slots);
      AddOne(slots, i, s);
      var _ := Replace(a, slots, slots[..i] + [s] + slots[i..], [], multiset{s.ref});
    }

    // ------------------------------------------------------------------ arrays

    /** The container has gone, and nothing was handed over. */
    ghost predicate Gone(was: Cells, held: multiset<Ref>, a: Ref)
      reads this
    {
      a !in cells && handles == held && Shrunk(was, cells)
    }

    ghost predicate Array(a: Ref)
      reads this
    {
      a in cells && cells[a].kind.ArrayNode?
    }

    /** json_array_set_new */
    method ArraySetNew(a: Ref, i: nat, v: Ref) returns (ok: bool, dangling: bool)
      requires Valid() && a in cells && v in handles
      modifies this`cells, this`handles, this`freed
      ensures Valid() && old(freed) <= freed
      ensures dangling <==> ok && Doomed(old(cells), old(handles), a, Without(old(cells)[a].slots, i))
      ensures dangling ==> Gone(old(cells), old(handles), a)
      ensures !dangling ==> handles == old(handles) - multiset{v}
      ensures !dangling ==>
                Only(old(cells), cells, a, if ok then A.Apply(old(cells)[a].slots, A.SetAt(i, Slot([], v))).0 else old(cells)[a].slots)
      ensures ok <==> old(Array(a)) && a != v && A.Apply(old(cells)[a].slots, A.SetAt(i, Slot([], v))).1
    {
      hide State, Targets;
      SlotsAreOk(cells, handles, freed, next, a);
      var slots := cells[a].slots;
      if !cells[a].kind.ArrayNode? || a == v || i >= |slots| {
        Decref(v);
        return false, false;
      }
      dangling := ReplaceAt(a, i, Slot([], v));
      ok := true;
    }

    /** json_array_append_new */
    method ArrayAppendNew(a: Ref, v: Ref) returns (ok: bool)
      requires Valid() && a in cells && v in handles
      modifies this`cells, this`handles, this`freed
      ensures Valid() && handles == old(handles) - multiset{v} && old(freed) <= freed
      ensures Only(old(cells), cells, a, if ok then A.Apply(old(cells)[a].slots, A.Append(Slot([], v))).0 else old(cells)[a].slots)
      ensures ok <==> old(Array(a)) && a != v
      ensures ok ==> freed == old(freed) && cells == old(cells)[a := old(cells)[a].(slots := old(cells)[a].slots + [Slot([], v)])]
    {
      hide State, Targets;
      SlotsAreOk(cells, handles, freed, next, a);
      var slots := cells[a].slots;
      if !cells[a].kind.ArrayNode? || a == v {
        Decref(v);
        return false;
      }
      assert slots[..|slots|] + [Slot([], v)] + slots[|slots|..] == slots + [Slot([], v)];
      AddAt(a, |slots|, Slot([], v));
      ok := true;
    }

    /** json_array_insert_new */
    method ArrayInsertNew(a: Ref, i: nat, v: Ref) returns (ok: bool)
      requires Valid() && a in cells && v in handles
      modifies this`cells, this`handles, this`freed
      ensures Valid() && handles == old(handles) - multiset{v} && old(freed) <= freed
      ensures Only(old(cells), cells, a, if ok then A.Apply(old(cells)[a].slots, A.InsertAt(i, Slot([], v))).0 else old(cells)[a].slots)
      ensures ok <==> old(Array(a)) && a != v && A.Apply(old(cells)[a].slots, A.InsertAt(i, Slot([], v))).1
    {
      hide State, Targets;
      SlotsAreOk(cells, handles, freed, next, a);
      var slots := cells[a].slots;
      if !cells[a].kind.ArrayNode? || a == v || i > |slots| {
        Decref(v);
        return false;
      }
      AddAt(a, i, Slot([], v));
      ok := true;
    }

    /** json_array_remove */
    method ArrayRemove(a: Ref, i: nat) returns (ok: bool, dangling: bool)
      requires Valid() && a in cells
      modifies this`cells, this`handles, this`freed
      ensures Valid() && handles == old(handles) && old(freed) <= freed
      ensures dangling <==> ok && Doomed(old(cells), old(handles), a, Without(old(cells)[a].slots, i))
      ensures dangling ==> Gone(old(cells), old(handles), a)
      ensures !dangling ==>
                Only(old(cells), cells, a, if ok then A.Apply(old(cells)[a].slots, A.RemoveAt(i)).0 else old(cells)[a].slots)
      ensures ok <==> old(Array(a)) && i < |old(cells)[a].slots|
    {
      hide State, Targets;
      SlotsAreOk(cells, handles, freed, next, a);
      var slots := cells[a].slots;
      if !cells[a].kind.ArrayNode? || i >= |slots| {
        return false, false;
      }
      TakeOne(slots, i);
      NoTargets();
      dangling := Replace(a, Without(slots, i), Without(slots, i), [slots[i]], multiset{});
      ok := true;
    }

    /** json_array_clear and json_object_clear. */
    method Clear(a: Ref) returns (ok: bool, dangling: bool)
      requires Valid() && a in cells
      modifies this`cells, this`handles, this`freed
      ensures Valid() && handles == old(handles) && old(freed) <= freed
      ensures dangling <==> ok && Doomed(old(cells), old(handles), a, [])
      ensures dangling ==> Gone(old(cells), old(handles), a)
      ensures ok <==> old(cells)[a].kind.ArrayNode? || old(cells)[a].kind.ObjectNode?
      ensures !dangling ==> Only(old(cells), cells, a, if ok then [] else old(cells)[a].slots)
    {
      hide State;
      if !cells[a].kind.ArrayNode? && !cells[a].kind.ObjectNode? {
        return false, false;
      }
      dangling := Replace(a, [], [], cells[a].slots, multiset{});
      ok := true;
    }

    /** json_array_extend: one more reference to each element, also where an array is
        extended with itself. */
    method ArrayExtend(a: Ref, other: Ref) returns (ok: bool)
      requires Valid() && a in cells && other in cells
      modifies this`cells, this`handles, this`freed
      ensures Valid() && handles == old(handles) && old(freed) <= freed
      ensures ok <==> old(Array(a)) && old(Array(other))
      ensures Only(old(cells), cells, a, old(cells)[a].slots + if ok then old(cells)[other].slots else [])
    {
      hide State, Targets;
      SlotsAreOk(cells, handles, freed, next, a);
      SlotsAreOk(cells, handles, freed, next, other);
      assert cells[a].slots + [] == cells[a].slots;
      if !cells[a].kind.ArrayNode? || !cells[other].kind.ArrayNode? {
        return false;
      }
      var slots, more := cells[a].slots, cells[other].slots;
      IncrefAll(other, more);
      ghost var before := cells;
      TargetsConcat(slots, more);
      NoTargets();
      PlusMinus(old(handles), Targets(more));
      NothingTaken(slots);
      var _ := Replace(a, slots, slots + more, [], Targets(more));
      ok := true;
    }

    method IncrefAll(other: Ref, slots: seq<Slot>)
      requires Valid() && other in cells && slots == cells[other].slots
      modifies this`cells, this`handles
      ensures Valid() && handles == old(handles) + Targets(slots) && SameSlots(old(cells), cells)
    {
      hide State, Targets;
      NoTargets();
      assert slots[..0] == [] && handles + multiset{} == handles;
      for i := 0 to |slots|
        invariant Valid() && handles == old(handles) + Targets(slots[..i]) && SameSlots(old(cells), cells)
      {
        TargetsSnoc(slots, i);
        SlotIsLive(cells, handles, freed, next, other, i);
        Incref(slots[i].ref);
      }
      assert slots[..|slots|] == slots;
    }

    // ----------------------------------------------------------------- objects

    /** json_object_set_new_nocheck: a key that is present keeps its place. */
    method ObjectSetNew(a: Ref, key: bytes, v: Ref) returns (ok: bool, dangling: bool)
      requires Valid() && a in cells && v in handles
      modifies this`cells, this`handles, this`freed
      ensures Valid() && old(freed) <= freed
      ensures dangling <==> ok && FindSlot(old(cells)[a].slots, key) >= 0
                            && Doomed(old(cells), old(handles), a, DelSlot(old(cells)[a].slots, key))
      ensures dangling ==> Gone(old(cells), old(handles), a)
      ensures !dangling ==> handles == old(handles) - multiset{v}
      ensures ok <==> old(cells)[a].kind.ObjectNode? && a != v
      ensures ok && FindSlot(old(cells)[a].slots, key) >= 0 ==>
                Sheds(old(cells)[a := old(cells)[a].(slots := DelSlot(old(cells)[a].slots, key))], old(handles), cells.Keys)
      ensures !dangling ==> Only(old(cells), cells, a, if ok then SetSlot(old(cells)[a].slots, key, v) else old(cells)[a].slots)
      ensures ok && FindSlot(old(cells)[a].slots, key) < 0 ==>
                freed == old(freed) && cells == old(cells)[a := old(cells)[a].(slots := old(cells)[a].slots + [Slot(key, v)])]
    {
      hide State, Targets, Sheds, Doomed, Shrunk, InOrder, GoneIsFreed;
      SlotsAreOk(cells, handles, freed, next, a);
      var slots := cells[a].slots;
      if !cells[a].kind.ObjectNode? || a == v {
        ghost var before := cells;
        Decref(v);
        ShrunkOnly(before, cells, a);
        return false, false;
      }
      var i := FindSlot(slots, key);
      dangling := false;
      if i >= 0 {
        dangling := ReplaceAt(a, i, Slot(key, v));
      } else {
        assert slots[..|slots|] + [Slot(key, v)] + slots[|slots|..] == slots + [Slot(key, v)];
        AddAt(a, |slots|, Slot(key, v));
      }
      ok := true;
    }

    /** json_object_iter_set_new, on the pair the iterator stands at. On a node that is no
        object it fails without taking the reference over. */
    method IterSetNew(a: Ref, i: nat, v: Ref) returns (ok: bool, dangling: bool)
      requires Valid() && a in cells && v in handles && i < |cells[a].slots|
      modifies this`cells, this`handles, this`freed
      ensures Valid() && old(freed) <= freed
      ensures dangling <==> ok && Doomed(old(cells), old(handles), a, Without(old(cells)[a].slots, i))
      ensures dangling ==> Gone(old(cells), old(handles), a)
      ensures !dangling ==> handles == if ok then old(handles) - multiset{v} else old(handles)
      ensures ok <==> old(cells)[a].kind.ObjectNode?
      ensures !dangling ==> Only(old(cells), cells, a, if ok then old(cells)[a].slots[i := Slot(old(cells)[a].slots[i].key, v)] else old(cells)[a].slots)
    {
      hide State, Targets;
      SlotsAreOk(cells, handles, freed, next, a);
      var slots := cells[a].slots;
      if !cells[a].kind.ObjectNode? {
        return false, false;
      }
      dangling := ReplaceAt(a, i, Slot(slots[i].key, v));
      ok := true;
    }

    /** json_object_del */
    method ObjectDel(a: Ref, key: bytes) returns (ok: bool, dangling: bool)
      requires Valid() && a in cells
      modifies this`cells, this`handles, this`freed
      ensures Valid() && handles == old(handles) && old(freed) <= freed
      ensures dangling <==> ok && Doomed(old(cells), old(handles), a, DelSlot(old(cells)[a].slots, key))
      ensures dangling ==> Gone(old(cells), old(handles), a)
      ensures ok <==> old(cells)[a].kind.ObjectNode? && FindSlot(old(cells)[a].slots, key) >= 0
      ensures !dangling ==> Only(old(cells), cells, a, if ok then DelSlot(old(cells)[a].slots, key) else old(cells)[a].slots)
    {
      hide State, Targets;
      SlotsAreOk(cells, handles, freed, next, a);
      var slots := cells[a].slots;
      var i := FindSlot(slots, key);
      if !cells[a].kind.ObjectNode? || i < 0 {
        return false, false;
      }
      TakeOne(slots, i);
      NoTargets();
      assert DelSlot(slots, key) == Without(slots, i);
      hide DelSlot, Doomed;
      dangling := Replace(a, Without(slots, i), Without(slots, i), [slots[i]], multiset{});
      ok := true;
    }

    /** json_object_set_nocheck and its likes for arrays: the wrappers of jansson.h that take a
        reference of their own. */
    method ObjectSet(a: Ref, key: bytes, v: Ref) returns (ok: bool, dangling: bool)
      requires Valid() && a in cells && v in cells
      modifies this`cells, this`handles, this`freed
      ensures Valid() && old(freed) <= freed
      ensures dangling <==> ok && FindSlot(old(cells)[a].slots, key) >= 0
                            && Doomed(old(cells), old(handles) + multiset{v}, a, DelSlot(old(cells)[a].slots, key))
      ensures dangling ==> a !in cells && handles == old(handles) + multiset{v}
      ensures !dangling ==> handles == old(handles)
      ensures ok <==> old(cells)[a].kind.ObjectNode? && a != v
      ensures if ok && FindSlot(old(cells)[a].slots, key) >= 0
              then Sheds(old(cells)[a := old(cells)[a].(slots := DelSlot(old(cells)[a].slots, key))], old(handles) + multiset{v}, cells.Keys)
              else ok ==> cells.Keys == old(cells).Keys
      ensures !dangling ==> Only(old(cells), cells, a, if ok then SetSlot(old(cells)[a].slots, key, v) else old(cells)[a].slots)
      ensures cells.Keys <= old(cells).Keys
      ensures ok && FindSlot(old(cells)[a].slots, key) < 0 ==>
                freed == old(freed) && cells == WithSlots(Bump(old(cells), v), a, old(cells)[a].slots + [Slot(key, v)])
    {
      hide State, Sheds, Doomed, DelSlot, SetSlot, SameSlots, Only, Shrunk;
      Incref(v);
      PlusMinus(old(handles), multiset{v});
      ghost var c := cells;
      Recount(old(cells), v, c[v].count);
      OtherCounts(old(cells), c, a);
      ok, dangling := ObjectSetNew(a, key, v);
      OnlyAfter(old(cells), c, cells, a, if ok then SetSlot(c[a].slots, key, v) else c[a].slots);
      ShedsSame(old(cells), c, old(handles) + multiset{v}, cells.Keys, a, DelSlot(c[a].slots, key));
    }

    method ArrayAppend(a: Ref, v: Ref) returns (ok: bool)
      requires Valid() && a in cells && v in cells
      modifies this`cells, this`handles, this`freed
      ensures Valid() && handles == old(handles) && old(freed) <= freed
      ensures ok <==> old(Array(a)) && a != v
      ensures Only(old(cells), cells, a, if ok then A.Apply(old(cells)[a].slots, A.Append(Slot([], v))).0 else old(cells)[a].slots)
      ensures ok ==> freed == old(freed) && cells == WithSlots(Bump(old(cells), v), a, old(cells)[a].slots + [Slot([], v)])
    {
      hide State;
      Incref(v);
      PlusMinus(old(handles), multiset{v});
      ok := ArrayAppendNew(a, v);
    }

    /** json_object_update. It goes on in freed memory if either object is released by the
        replacing of a value; this method then stops. */
    method ObjectUpdate(a: Ref, other: Ref) returns (ok: bool, dangling: bool)
      requires Valid() && a in cells && other in cells
      modifies this`cells, this`handles, this`freed
      ensures Valid() && old(freed) <= freed && cells.Keys <= old(cells).Keys
      ensures dangling <==> UpdateBreaks(old(cells), old(handles), a, other)
      ensures dangling ==> a !in cells || other !in cells
      ensures !dangling ==> handles == old(handles)
      ensures var slots, pairs := old(cells)[a].slots, old(cells)[other].slots;
              if !old(cells)[a].kind.ObjectNode? || !old(cells)[other].kind.ObjectNode? then !ok && cells == old(cells)
              else if dangling then true
              else if ok then (forall p <- pairs :: p.ref != a) && Only(old(cells), cells, a, Updated(slots, pairs))
              else exists i :: 0 <= i < |pairs| && pairs[i].ref == a && Only(old(cells), cells, a, Updated(slots, pairs[..i]))
    {
      hide State, SetSlot, DelSlot, Breaks, Lost;
      if !cells[a].kind.ObjectNode? || !cells[other].kind.ObjectNode? {
        return false, false;
      }
      var pairs := cells[other].slots;
      SlotsAreOk(cells, handles, freed, next, other);
      StartUpdate(cells, handles, a, other);
      for i := 0 to |pairs|
        invariant Valid() && handles == old(handles) && old(freed) <= freed
        invariant Midway(old(cells), handles, cells, a, other, i)
        invariant forall j :: 0 <= j < i ==> !Breaks(old(cells), handles, a, other, j)
      {
        ok, dangling := UpdateStep(a, other, i, old(cells));
        if dangling {
          return;
        }
        if !ok {
          StopsThere(old(cells), handles, a, other, i);
          return;
        }
      }
      assert pairs[..|pairs|] == pairs;
      return true, false;
    }

    /** One turn of the loop; `c` is what was there at the start. */
    method UpdateStep(a: Ref, other: Ref, i: nat, ghost c: Cells) returns (ok: bool, dangling: bool)
      requires Valid() && Midway(c, handles, cells, a, other, i) && i < |c[other].slots|
      modifies this`cells, this`handles, this`freed
      ensures Valid() && old(freed) <= freed && cells.Keys <= old(cells).Keys
      ensures dangling <==> Breaks(c, old(handles), a, other, i)
      ensures dangling ==> a !in cells || other !in cells
      ensures !dangling ==> handles == old(handles)
      ensures !dangling ==> (ok <==> c[other].slots[i].ref != a)
      ensures ok && !dangling ==> Midway(c, handles, cells, a, other, i + 1)
      ensures !ok ==> Only(c, cells, a, Updated(c[a].slots, c[other].slots[..i]))
    {
      hide State, SetSlot, DelSlot, Lost, Sheds, Falls;
      SelfUpdate(c, a, other, i);
      StateClosed(cells, handles, freed, next);
      SlotIsLive(cells, handles, freed, next, other, i);
      var pair := cells[other].slots[i];
      ghost var before := cells;
      ok, dangling := ObjectSet(a, pair.key, pair.ref);
      if !ok {
        return;
      }
      assert Turned(c, old(handles), before, cells.Keys, a, other, i);
      StepJudged(c, old(handles), before, cells.Keys, a, other, i);
      dangling := a !in cells || other !in cells;
      if !dangling {
        StateClosed(cells, handles, freed, next);
        NextMidway(c, handles, before, cells, a, other, i);
      }
    }
  }

  // -------------------------------------------------------------- slot lists

  function FindSlot(slots: seq<Slot>, key: bytes): (i: int)
    ensures -1 <= i < |slots|
    ensures i >= 0 ==> slots[i].key == key
    ensures i < 0 ==> forall j :: 0 <= j < |slots| ==> slots[j].key != key
  {
    if slots == [] then -1
    else if slots[|slots|-1].key == key then |slots| - 1
    else FindSlot(slots[..|slots|-1], key)
  }

  function SetSlot(slots: seq<Slot>, key: bytes, v: Ref): seq<Slot> {
    var i := FindSlot(slots, key);
    if i >= 0 then slots[i := Slot(key, v)] else slots + [Slot(key, v)]
  }

  function DelSlot(slots: seq<Slot>, key: bytes): seq<Slot> {
    var i := FindSlot(slots, key);
    if i >= 0 then slots[..i] + slots[i+1..] else slots
  }

  /** Setting some pairs one after another. */
  function Updated(slots: seq<Slot>, pairs: seq<Slot>): seq<Slot> {
    if pairs == [] then slots
    else
      var last := pairs[|pairs|-1];
      SetSlot(Updated(slots, pairs[..|pairs|-1]), last.key, last.ref)
  }

  /** What a key refers to. */
  predicate Under(slots: seq<Slot>, key: bytes, v: Ref) { Slot(key, v) in slots }

  /** Setting a key makes it refer to the new node and to nothing else, and leaves every other
      key as it was. */
  lemma SetSlotHolds(slots: seq<Slot>, key: bytes, v: Ref, k: bytes, w: Ref)
    requires DistinctSlots(slots)
    ensures DistinctSlots(SetSlot(slots, key, v))
    ensures Under(SetSlot(slots, key, v), k, w) <==> if k == key then w == v else Under(slots, k, w)
  {
    var r := SetSlot(slots, key, v);
    var i := FindSlot(slots, key);
    var at := if i >= 0 then i else |slots|;
    assert r[at] == Slot(key, v) && at < |r|;
    if Under(r, k, w) {
      var j :| 0 <= j < |r| && r[j] == Slot(k, w);
      assert j != at ==> slots[j] == r[j];
    }
    if k != key && Under(slots, k, w) {
      var j :| 0 <= j < |slots| && slots[j] == Slot(k, w);
      assert r[j] == slots[j];
    }
  }

  lemma DelSlotDistinct(slots: seq<Slot>, key: bytes)
    requires DistinctSlots(slots)
    ensures DistinctSlots(DelSlot(slots, key))
  {
    var r := DelSlot(slots, key);
    var i := FindSlot(slots, key);
    hide FindSlot;
    if i >= 0 {
      assert forall j :: 0 <= j < |r| ==> r[j] == slots[if j < i then j else j + 1];
    }
  }

  /** Deleting a key leaves every other key as it was. */
  lemma DelSlotHolds(slots: seq<Slot>, key: bytes, k: bytes, w: Ref)
    requires DistinctSlots(slots)
    ensures Under(DelSlot(slots, key), k, w) <==> k != key && Under(slots, k, w)
  {
    var r := DelSlot(slots, key);
    var i := FindSlot(slots, key);
    hide FindSlot;
    if i >= 0 {
      assert slots == slots[..i] + [slots[i]] + slots[i+1..] && r == slots[..i] + slots[i+1..];
      hide DelSlot;
    }
  }

  /** After an update a key that no pair has refers to what it did before. */
  lemma {:induction false} UpdatedElsewhere(slots: seq<Slot>, pairs: seq<Slot>, k: bytes, w: Ref)
    requires DistinctSlots(slots) && forall i :: 0 <= i < |pairs| ==> pairs[i].key != k
    ensures DistinctSlots(Updated(slots, pairs)) && (Under(Updated(slots, pairs), k, w) <==> Under(slots, k, w))
  {
    if pairs != [] {
      var rest, last := pairs[..|pairs|-1], pairs[|pairs|-1];
      UpdatedElsewhere(slots, rest, k, w);
      hide SetSlot, Under, DistinctSlots;
      SetSlotHolds(Updated(slots, rest), last.key, last.ref, k, w);
    }
  }

  lemma {:induction false} UpdatedDistinct(slots: seq<Slot>, pairs: seq<Slot>)
    requires DistinctSlots(slots)
    ensures DistinctSlots(Updated(slots, pairs))
  {
    if pairs != [] {
      var rest, last := pairs[..|pairs|-1], pairs[|pairs|-1];
      UpdatedDistinct(slots, rest);
      hide SetSlot, Under, DistinctSlots;
      SetSlotHolds(Updated(slots, rest), last.key, last.ref, last.key, last.ref);
    }
  }

  /** And the key of a pair refers to what the last pair with that key does. */
  lemma {:induction false} UpdatedHolds(slots: seq<Slot>, pairs: seq<Slot>, i: nat, w: Ref)
    requires DistinctSlots(slots) && i < |pairs| && forall j :: i < j < |pairs| ==> pairs[j].key != pairs[i].key
    ensures Under(Updated(slots, pairs), pairs[i].key, w) <==> w == pairs[i].ref
  {
    var rest, last := pairs[..|pairs|-1], pairs[|pairs|-1];
    if i < |rest| {
      UpdatedHolds(slots, rest, i, w);
    }
    UpdatedDistinct(slots, rest);
    hide SetSlot, Under, DistinctSlots;
    SetSlotHolds(Updated(slots, rest), last.key, last.ref, pairs[i].key, w);
  }

  // ---------------------------------------------------------------- an update

  /** The slots of an object after the first pairs of another one have been set in it. */
  function Merged(c: Cells, a: Ref, other: Ref, i: nat): seq<Slot>
    requires a in c && other in c && i <= |c[other].slots|
  {
    Updated(c[a].slots, c[other].slots[..i])
  }

  /** The cells at the start, but with what pair i replaces taken out of the object. */
  function MergedBut(c: Cells, a: Ref, other: Ref, i: nat): Cells
    requires a in c && other in c && i < |c[other].slots|
  {
    c[a := c[a].(slots := DelSlot(Merged(c, a, other, i), c[other].slots[i].key))]
  }

  /** Pair i is come to, and one of the two objects hangs by the value that it replaces. */
  ghost predicate Breaks(c: Cells, h: multiset<Ref>, a: Ref, other: Ref, i: nat)
    requires a in c && other in c && i < |c[other].slots|
  {
    var pair := c[other].slots[i];
    && (forall j :: 0 <= j <= i ==> c[other].slots[j].ref != a) && FindSlot(Merged(c, a, other, i), pair.key) >= 0
    && (Falls(MergedBut(c, a, other, i), h + multiset{pair.ref}, a) || Falls(MergedBut(c, a, other, i), h + multiset{pair.ref}, other))
  }

  ghost predicate UpdateBreaks(c: Cells, h: multiset<Ref>, a: Ref, other: Ref)
    requires a in c && other in c
  {
    && c[a].kind.ObjectNode? && c[other].kind.ObjectNode?
    && exists i :: 0 <= i < |c[other].slots| && Breaks(c, h, a, other, i)
  }

  /** Both objects have come through the first i pairs. */
  ghost predicate Midway(c: Cells, h: multiset<Ref>, d: Cells, a: Ref, other: Ref, i: nat) {
    && a in c && other in c && a in d && other in d && c[a].kind.ObjectNode? && c[other].kind.ObjectNode?
    && i <= |c[other].slots| && DistinctSlots(c[other].slots)
    && Only(c, d, a, Merged(c, a, other, i)) && Lost(c[a := c[a].(slots := Merged(c, a, other, i))], h, d.Keys)
    && forall j :: 0 <= j < i ==> c[other].slots[j].ref != a
  }

  lemma StartUpdate(c: Cells, h: multiset<Ref>, a: Ref, other: Ref)
    requires a in c && other in c && c[a].kind.ObjectNode? && c[other].kind.ObjectNode? && DistinctSlots(c[other].slots)
    ensures Midway(c, h, c, a, other, 0)
  {
    assert c[other].slots[..0] == [];
    var rank: map<Ref, nat> := map[];
    assert rank.Keys == c[a := c[a].(slots := Merged(c, a, other, 0))].Keys - c.Keys;
  }

  lemma StopsThere(c: Cells, h: multiset<Ref>, a: Ref, other: Ref, i: nat)
    requires a in c && other in c && i < |c[other].slots| && c[other].slots[i].ref == a
    requires forall j :: 0 <= j < i ==> !Breaks(c, h, a, other, j)
    ensures !UpdateBreaks(c, h, a, other)
  {
    hide Falls;
  }

  /** An object updated with itself keeps its slots. */
  lemma {:induction false} SelfUpdate(c: Cells, a: Ref, other: Ref, i: nat)
    requires a in c && other in c && i <= |c[other].slots| && DistinctSlots(c[other].slots)
    ensures a == other ==> Merged(c, a, other, i) == c[a].slots
  {
    var s := c[other].slots;
    if a == other && i > 0 {
      SelfUpdate(c, a, other, i - 1);
      assert s[..i][..i-1] == s[..i-1];
      assert FindSlot(s, s[i-1].key) == i - 1;
      assert s[i-1 := Slot(s[i-1].key, s[i-1].ref)] == s;
    } else {
      assert s[..0] == [];
    }
  }

  /** Slots that lead to live nodes make no difference to those that are not live. */
  lemma LostStill(c: Cells, h: multiset<Ref>, live: set<Ref>, a: Ref, slots: seq<Slot>)
    requires Lost(c, h, live) && a in c && a in live && forall s <- slots :: s.ref in live
    ensures Lost(c[a := c[a].(slots := slots)], h, live)
  {
    var rank: map<Ref, nat> :| rank.Keys == c.Keys - live && Hangs(c, h, rank);
    assert Hangs(c[a := c[a].(slots := slots)], h, rank);
  }

  /** Nor does holding a live node. */
  lemma LostHeld(c: Cells, h: multiset<Ref>, live: set<Ref>, v: Ref)
    ensures Lost(c, h + multiset{v}, live) ==> Lost(c, h, live)
    ensures Lost(c, h, live) && v in live ==> Lost(c, h + multiset{v}, live)
  {
    if Lost(c, h + multiset{v}, live) {
      var rank: map<Ref, nat> :| rank.Keys == c.Keys - live && Hangs(c, h + multiset{v}, rank);
      assert Hangs(c, h, rank);
    }
    if Lost(c, h, live) && v in live {
      var rank: map<Ref, nat> :| rank.Keys == c.Keys - live && Hangs(c, h, rank);
      assert Hangs(c, h + multiset{v}, rank);
    }
  }

  /** Slots lead to cells that are there. */
  ghost predicate Inward(c: Cells) {
    forall k <- c.Keys, i :: 0 <= i < |c[k].slots| ==> c[k].slots[i].ref in c
  }

  lemma InwardSlots(c: Cells, a: Ref)
    requires Inward(c) && a in c
    ensures forall s <- c[a].slots :: s.ref in c
  {
  }

  /** These cells are among those, as they are. */
  ghost predicate Part(c: Cells, d: Cells) {
    forall k <- d.Keys :: k in c && d[k].kind == c[k].kind && d[k].slots == c[k].slots
  }

  /** What hangs among more cells hangs among those of them that are left. */
  lemma FallsPart(c: Cells, d: Cells, h: multiset<Ref>, x: Ref)
    requires Part(c, d) && x in d && Falls(c, h, x)
    ensures Falls(d, h, x)
  {
    var rank: map<Ref, nat> :| x in rank && Hangs(c, h, rank);
    var r := map k | k in rank && k in d :: rank[k];
    assert x in r && Hangs(d, h, r);
  }

  lemma {:induction false} Bound(rank: map<Ref, nat>) returns (n: nat)
    ensures forall k <- rank.Keys :: rank[k] < n
    decreases |rank|
  {
    if rank == map[] {
      n := 0;
    } else {
      var k :| k in rank;
      var m := Bound(rank - {k});
      n := if m > rank[k] then m else rank[k] + 1;
      assert forall x <- rank.Keys :: x == k || (x in rank - {k} && (rank - {k})[x] == rank[x]);
    }
  }

  /** Nodes that hang among all cells, and others that hang among those left: all of them hang
      among all cells. */
  lemma LostTwice(c: Cells, d: Cells, h: multiset<Ref>, live: set<Ref>)
    requires Part(c, d) && Lost(c, h, d.Keys) && Lost(d, h, live) && live <= d.Keys
    requires Inward(d)
    ensures Lost(c, h, live)
  {
    var first: map<Ref, nat> :| first.Keys == c.Keys - d.Keys && Hangs(c, h, first);
    var second: map<Ref, nat> :| second.Keys == d.Keys - live && Hangs(d, h, second);
    var n := Bound(second);
    HangsTwice(c, d, h, first, second, n);
    var rank := Joined(first, second, n);
    assert rank.Keys == c.Keys - live;
  }

  /** The first nodes, ranked above the second ones. */
  function Joined(first: map<Ref, nat>, second: map<Ref, nat>, n: nat): map<Ref, nat> {
    map k | k in first.Keys + second.Keys :: if k in second then second[k] else n + first[k]
  }

  lemma HangsTwice(c: Cells, d: Cells, h: multiset<Ref>, first: map<Ref, nat>, second: map<Ref, nat>, n: nat)
    requires Part(c, d) && Inward(d) && first.Keys == c.Keys - d.Keys && second.Keys <= d.Keys
    requires Hangs(c, h, first) && Hangs(d, h, second) && forall k <- second.Keys :: second[k] < n
    ensures Hangs(c, h, Joined(first, second, n))
  {
    var rank := Joined(first, second, n);
    forall k <- c.Keys, i | 0 <= i < |c[k].slots| && c[k].slots[i].ref in rank
      ensures k in rank && rank[k] > rank[c[k].slots[i].ref]
    {
      if k in d {
        assert d[k].slots[i].ref in d;
      }
    }
  }

  /** What one turn of the loop sheds, told from the start: the nodes that it releases are
      those that hang if what went before is still there. */
  lemma ShedsFromStart(c: Cells, d: Cells, h: multiset<Ref>, live: set<Ref>)
    requires Part(c, d) && Lost(c, h, d.Keys) && Sheds(d, h, live) && live <= d.Keys
    requires Inward(d)
    ensures Lost(c, h, live) && forall x <- d.Keys :: x !in live <==> Falls(c, h, x)
  {
    hide Part, Hangs;
    LostTwice(c, d, h, live);
    var rank: map<Ref, nat> :| rank.Keys == c.Keys - live && Hangs(c, h, rank);
    forall x <- d.Keys
      ensures x !in live <==> Falls(c, h, x)
    {
      if x !in live {
        PartHas(c, d, x);
        assert x in rank;
      }
      if Falls(c, h, x) {
        FallsPart(c, d, h, x);
      }
    }
  }

  lemma PartHas(c: Cells, d: Cells, x: Ref)
    requires Part(c, d) && x in d
    ensures x in c
  {
  }

  lemma DelSlotWithin(slots: seq<Slot>, key: bytes)
    ensures forall s <- DelSlot(slots, key) :: s in slots
  {
  }

  lemma TurnPart(c: Cells, d: Cells, a: Ref, s: seq<Slot>, kept: seq<Slot>)
    requires a in c && a in d && Only(c, d, a, s) && Inward(d) && forall t <- kept :: t in s
    ensures d[a].slots == s && (forall t <- kept :: t.ref in d)
    ensures Part(c[a := c[a].(slots := kept)], d[a := d[a].(slots := kept)]) && Inward(d[a := d[a].(slots := kept)])
  {
    InwardSlots(d, a);
  }

  /** The released nodes after a turn, if it replaces a value. */
  lemma TurnSheds(c: Cells, h: multiset<Ref>, d: Cells, live: set<Ref>, a: Ref, other: Ref, i: nat)
    requires Midway(c, h, d, a, other, i) && i < |c[other].slots| && c[other].slots[i].ref in d && Inward(d)
    requires var kept := DelSlot(d[a].slots, c[other].slots[i].key);
             Sheds(d[a := d[a].(slots := kept)], h + multiset{c[other].slots[i].ref}, live) && live <= d.Keys
    ensures var e := MergedBut(c, a, other, i);
            && Lost(e, h, live)
            && forall x <- d.Keys :: x !in live <==> Falls(e, h + multiset{c[other].slots[i].ref}, x)
  {
    var v, s := c[other].slots[i].ref, Merged(c, a, other, i);
    var kept := DelSlot(s, c[other].slots[i].key);
    DelSlotWithin(s, c[other].slots[i].key);
    TurnPart(c, d, a, s, kept);
    hide DelSlot, Merged, Falls, Lost, Sheds, Part, Inward, Only;
    var e, left := MergedBut(c, a, other, i), d[a := d[a].(slots := kept)];
    AfterTurn(c, h, d.Keys, a, s, kept);
    assert Lost(e, h, d.Keys) && Part(e, left) && left.Keys == d.Keys;
    hide MergedBut, Midway;
    LostHeld(e, h, d.Keys, v);
    ShedsFromStart(e, left, h + multiset{v}, live);
    LostHeld(e, h, live, v);
  }

  lemma StepJudged(c: Cells, h: multiset<Ref>, d: Cells, live: set<Ref>, a: Ref, other: Ref, i: nat)
    requires Midway(c, h, d, a, other, i) && i < |c[other].slots| && c[other].slots[i].ref in d && c[other].slots[i].ref != a
    requires Inward(d)
    requires Turned(c, h, d, live, a, other, i)
    ensures a !in live || other !in live <==> Breaks(c, h, a, other, i)
  {
    hide DelSlot, Falls, Lost, Sheds;
    var key := c[other].slots[i].key;
    if FindSlot(d[a].slots, key) >= 0 {
      TurnSheds(c, h, d, live, a, other, i);
    }
  }

  /** What a turn that does not fail has released. */
  ghost predicate Turned(c: Cells, h: multiset<Ref>, d: Cells, live: set<Ref>, a: Ref, other: Ref, i: nat)
    requires a in c && other in c && i < |c[other].slots| && a in d
  {
    var pair := c[other].slots[i];
    && live <= d.Keys
    && if FindSlot(d[a].slots, pair.key) >= 0
       then Sheds(d[a := d[a].(slots := DelSlot(d[a].slots, pair.key))], h + multiset{pair.ref}, live)
       else live == d.Keys
  }

  lemma NextMidway(c: Cells, h: multiset<Ref>, d: Cells, e: Cells, a: Ref, other: Ref, i: nat)
    requires Midway(c, h, d, a, other, i) && i < |c[other].slots| && c[other].slots[i].ref in d && c[other].slots[i].ref != a
    requires Inward(d)
    requires Inward(e)
    requires Turned(c, h, d, e.Keys, a, other, i) && a in e && other in e
    requires Only(d, e, a, SetSlot(d[a].slots, c[other].slots[i].key, c[other].slots[i].ref))
    ensures Midway(c, h, e, a, other, i + 1)
  {
    hide DelSlot, SetSlot, Falls, Lost, Sheds, Inward;
    var pairs, s, t := c[other].slots, Merged(c, a, other, i), Merged(c, a, other, i + 1);
    assert pairs[..i+1][..i] == pairs[..i];
    OnlyTwice(c, d, e, a, s, t);
    assert d[a].slots == s && e[a].slots == t;
    InwardSlots(e, a);
    hide Only, Updated;
    if FindSlot(s, pairs[i].key) >= 0 {
      TurnSheds(c, h, d, e.Keys, a, other, i);
      AfterTurn(c, h, e.Keys, a, DelSlot(s, pairs[i].key), t);
    } else {
      AfterTurn(c, h, e.Keys, a, s, t);
    }
  }

  lemma AfterTurn(c: Cells, h: multiset<Ref>, live: set<Ref>, a: Ref, s: seq<Slot>, t: seq<Slot>)
    requires a in c && a in live && Lost(c[a := c[a].(slots := s)], h, live) && forall x <- t :: x.ref in live
    ensures Lost(c[a := c[a].(slots := t)], h, live)
  {
    hide Lost;
    var was := c[a := c[a].(slots := s)];
    LostStill(was, h, live, a, t);
    assert was[a := was[a].(slots := t)] == c[a := c[a].(slots := t)];
  }

  ghost predicate SameSlots(before: Cells, after: Cells) {
    after.Keys == before.Keys && forall k <- after.Keys :: after[k].kind == before[k].kind && after[k].slots == before[k].slots
  }

  lemma OtherCounts(c: Cells, d: Cells, a: Ref)
    requires SameSlots(c, d) && a in c
    ensures c.Keys == d.Keys && d[a].kind == c[a].kind && d[a].slots == c[a].slots
  {
  }

  lemma OnlyAfter(c: Cells, d: Cells, e: Cells, a: Ref, slots: seq<Slot>)
    requires SameSlots(c, d)
    ensures Only(d, e, a, slots) ==> Only(c, e, a, slots)
    ensures Only(d, e, a, slots) || Shrunk(d, e) ==> e.Keys <= c.Keys
  {
  }

  lemma ShrunkOnly(a: Cells, b: Cells, k: Ref)
    requires Shrunk(a, b) && k in a
    ensures Only(a, b, k, a[k].slots)
  {
  }

  lemma OnlyTwice(a: Cells, b: Cells, c: Cells, k: Ref, s: seq<Slot>, t: seq<Slot>)
    requires Only(a, b, k, s) && Only(b, c, k, t)
    ensures Only(a, c, k, t)
  {
  }

  lemma NoTargets()
    ensures Targets([]) == multiset{}
  {
  }

  function Without(slots: seq<Slot>, i: nat): seq<Slot> {
    if i < |slots| then slots[..i] + slots[i+1..] else slots
  }

  lemma NothingTaken(slots: seq<Slot>)
    ensures Targets(slots) + Targets([]) == Targets(slots) + multiset{}
  {
  }

  lemma TakeOne(slots: seq<Slot>, i: nat)
    requires i < |slots|
    ensures Targets(Without(slots, i)) + Targets([slots[i]]) == Targets(slots) + multiset{}
  {
    hide Targets;
    TargetsReplace(slots, i, i + 1, []);
    NoTargets();
    assert slots[i..i+1] == [slots[i]];
    assert slots[..i] + [] == slots[..i];
  }

  lemma PutOne(slots: seq<Slot>, i: nat, s: Slot)
    requires i < |slots|
    ensures Targets(slots[i := s]) + Targets([]) == Targets(Without(slots, i)) + multiset{s.ref}
  {
    hide Targets;
    TargetsReplace(slots, i, i + 1, [s]);
    TargetsOne(s);
    TakeOne(slots, i);
    NoTargets();
    assert slots[i..i+1] == [slots[i]] && slots[..i] + [s] + slots[i+1..] == slots[i := s];
    Cancel(Targets(slots[i := s]), Targets(Without(slots, i)), Targets([slots[i]]), Targets(slots), multiset{s.ref});
  }

  lemma Cancel(a: multiset<Ref>, b: multiset<Ref>, x: multiset<Ref>, t: multiset<Ref>, y: multiset<Ref>)
    requires a + x == t + y && b + x == t + multiset{}
    ensures a == b + y
  {
    forall r
      ensures a[r] == b[r] + y[r]
    {
      assert (a + x)[r] == (t + y)[r] && (b + x)[r] == (t + multiset{})[r];
    }
  }

  lemma AddOne(slots: seq<Slot>, i: nat, s: Slot)
    requires i <= |slots|
    ensures Targets(slots[..i] + [s] + slots[i..]) + Targets([]) == Targets(slots) + multiset{s.ref}
  {
    TargetsReplace(slots, i, i, [s]);
    TargetsOne(s);
    hide Targets;
    assert slots[i..i] == [];
  }

  lemma SlotsAreOk(c: Cells, h: multiset<Ref>, f: seq<Ref>, n: Ref, k: Ref)
    requires State(c, h, f, n) && k in c
    ensures SlotsOk(c[k].kind, c[k].slots)
  {
  }

  lemma SlotIsLive(c: Cells, h: multiset<Ref>, f: seq<Ref>, n: Ref, k: Ref, i: nat)
    requires State(c, h, f, n) && k in c && i < |c[k].slots|
    ensures c[k].slots[i].ref in c
  {
  }

  lemma ReplaceState(c: Cells, h: multiset<Ref>, f: seq<Ref>, n: Ref, a: Ref, slots: seq<Slot>, drop: seq<Slot>, paid: multiset<Ref>)
    requires State(c, h, f, n) && a in c && (c[a].kind.ArrayNode? || c[a].kind.ObjectNode?)
    requires Targets(slots) + Targets(drop) == Targets(c[a].slots) + paid && paid <= h
    requires SlotsOk(c[a].kind, slots)
    ensures State(c[a := c[a].(slots := slots)], h + Targets(c[a].slots) - Targets(slots), f, n)
    ensures Targets(drop) <= h + Targets(c[a].slots) - Targets(slots)
    ensures h + Targets(c[a].slots) - Targets(slots) - Targets(drop) == h - paid
  {
    hide Refs, Targets;
    Balance(h, Targets(c[a].slots), Targets(slots), Targets(drop), paid);
    Exchanged(c, h, a, slots);
    hide Sound;
  }

  lemma Balance(h: multiset<Ref>, was: multiset<Ref>, now: multiset<Ref>, drop: multiset<Ref>, paid: multiset<Ref>)
    requires now + drop == was + paid && paid <= h
    ensures now <= h + was && drop <= h + was - now && h + was - now - drop == h - paid
  {
    forall x
      ensures now[x] + drop[x] == was[x] + paid[x]
    {
      assert (now + drop)[x] == (was + paid)[x];
    }
  }

  /** The nodes that have gone are those that hung by what was dropped; so the container has
      gone exactly if it did. */
  lemma DoomIff(c: Cells, h: multiset<Ref>, a: Ref, kept: seq<Slot>, e: Cells, f0: seq<Ref>, f1: seq<Ref>, n: Ref)
    requires State(c, h, f0, n) && a in c && State(e, h, f1, n) && Shrunk(c[a := c[a].(slots := kept)], e)
    requires InOrder(c[a := c[a].(slots := kept)], f0, f1) && GoneIsFreed(c[a := c[a].(slots := kept)], e, f0, f1)
    ensures Sheds(c[a := c[a].(slots := kept)], h, e.Keys)
    ensures a !in e <==> Doomed(c, h, a, kept)
  {
    hide InOrder, GoneIsFreed, Refs, State, Sheds, Falls, Shrunk;
    var d := c[a := c[a].(slots := kept)];
    GoneUnheld(c, h, a, kept, e, f0, f1, n);
    ReleasedSheds(d, e, h, f0, f1, n);
    ShedsIff(d, h, e.Keys, a);
  }

  lemma ShedsIff(c: Cells, h: multiset<Ref>, live: set<Ref>, x: Ref)
    requires Sheds(c, h, live) && x in c
    ensures x !in live <==> Falls(c, h, x)
  {
    hide Hangs;
    var rank: map<Ref, nat> :| rank.Keys == c.Keys - live && Hangs(c, h, rank);
    assert x !in live ==> x in rank;
  }

  /** What has been released in order is what hung. */
  lemma ReleasedSheds(c: Cells, d: Cells, h: multiset<Ref>, f0: seq<Ref>, f1: seq<Ref>, n: Ref)
    requires State(d, h, f1, n) && Shrunk(c, d) && InOrder(c, f0, f1) && GoneIsFreed(c, d, f0, f1)
    requires forall x <- c.Keys :: x !in d ==> !c[x].kind.Singleton? && h[x] == 0
    ensures Sheds(c, h, d.Keys)
  {
    hide InOrder, GoneIsFreed, Refs, State, Hangs, Shrunk;
    StateCounted(d, h, f1, n);
    var rank := ReleasedHang(c, d, h, f0, f1);
    assert Lost(c, h, d.Keys);
    forall x <- c.Keys | Falls(c, h, x)
      ensures x !in d
    {
      var r: map<Ref, nat> :| x in r && Hangs(c, h, r);
      AllGone(c, d, h, r, x);
    }
  }

  lemma StateClosed(c: Cells, h: multiset<Ref>, f: seq<Ref>, n: Ref)
    requires State(c, h, f, n)
    ensures Inward(c)
  {
  }

  lemma StateCounted(e: Cells, h: multiset<Ref>, f: seq<Ref>, n: Ref)
    requires State(e, h, f, n)
    ensures Counted(e, h) && Distinct(f)
  {
  }

  /** What has gone is neither a singleton nor held. */
  lemma GoneUnheld(c: Cells, h: multiset<Ref>, a: Ref, kept: seq<Slot>, e: Cells, f0: seq<Ref>, f1: seq<Ref>, n: Ref)
    requires State(c, h, f0, n) && a in c && State(e, h, f1, n)
    ensures var d := c[a := c[a].(slots := kept)];
            forall x <- d.Keys :: x !in e ==> !d[x].kind.Singleton? && h[x] == 0
  {
    hide Refs;
  }

  lemma StillThere(d: Cells, e: Cells, a: Ref)
    requires Shrunk(d, e) && a in e
    ensures a in d && e[a].kind == d[a].kind && e[a].slots == d[a].slots
  {
  }

  lemma DanglingShrunk(c: Cells, a: Ref, kept: seq<Slot>, e: Cells)
    requires a in c && Shrunk(c[a := c[a].(slots := kept)], e) && a !in e
    ensures Shrunk(c, e)
  {
    assert c[a := c[a].(slots := kept)].Keys == c.Keys;
  }

  lemma StoredOnly(c: Cells, a: Ref, kept: seq<Slot>, e: Cells, slots: seq<Slot>)
    requires a in c && Shrunk(c[a := c[a].(slots := kept)], e) && a in e
    ensures Only(c, e[a := e[a].(slots := slots)], a, slots)
  {
  }

  /** A container the caller holds does not go. */
  lemma HeldIsSafe(c: Cells, h: multiset<Ref>, a: Ref, kept: seq<Slot>)
    requires a in c && a in h
    ensures !Doomed(c, h, a, kept)
  {
  }

  /** Only kinds and slots matter. */
  lemma HangsSame(c: Cells, d: Cells, h: multiset<Ref>)
    requires SameSlots(c, d)
    ensures forall rank: map<Ref, nat> :: Hangs(c, h, rank) <==> Hangs(d, h, rank)
  {
  }

  lemma Recount(c: Cells, r: Ref, n: nat)
    requires r in c
    ensures SameSlots(c, c[r := c[r].(count := n)])
  {
  }

  lemma ShedsSame(c: Cells, d: Cells, h: multiset<Ref>, live: set<Ref>, a: Ref, kept: seq<Slot>)
    requires SameSlots(c, d) && a in c
    ensures Doomed(c, h, a, kept) <==> Doomed(d, h, a, kept)
    ensures Sheds(c[a := c[a].(slots := kept)], h, live) <==> Sheds(d[a := d[a].(slots := kept)], h, live)
  {
    var c1, d1 := c[a := c[a].(slots := kept)], d[a := d[a].(slots := kept)];
    assert SameSlots(c1, d1);
    HangsSame(c1, d1, h);
    hide Hangs;
    assert c1.Keys == d1.Keys;
  }

  /** A walk along slots. */
  ghost predicate IsWalk(c: Cells, w: seq<Ref>) {
    w != [] && (forall i :: 0 <= i < |w| ==> w[i] in c) && forall i :: 0 <= i < |w| - 1 ==> w[i+1] in Targets(c[w[i]].slots)
  }

  /** Something refers to each of these nodes, or it is one of those dropped. */
  ghost predicate Backed(c: Cells, drop: multiset<Ref>, nodes: set<Ref>) {
    forall y <- nodes :: y in drop || y in Refs(c)
  }

  /** A container only goes if a walk leads back to it from something that was dropped. */
  lemma {:induction false} WayBack(c: Cells, h: multiset<Ref>, drop: multiset<Ref>, rank: map<Ref, nat>, x: Ref) returns (w: seq<Ref>)
    requires Backed(c, drop, rank.Keys) && Hangs(c, h, rank) && x in rank
    ensures IsWalk(c, w) && w[0] in drop && w[|w|-1] == x
    decreases |Above(rank, x)|
  {
    hide Targets, Above;
    if x in drop {
      w := [x];
    } else {
      var k := Referrer(c, h, drop, rank, x);
      AboveLess(rank, x, k);
      var v := WayBack(c, h, drop, rank, k);
      hide Backed, Hangs;
      w := v + [x];
      assert forall i :: 0 <= i < |v| ==> w[i] == v[i];
    }
  }

  /** A container stays if no walk leads back to it from what is taken out of it. */
  lemma NoWayBack(c: Cells, h: multiset<Ref>, a: Ref, kept: seq<Slot>, drop: seq<Slot>)
    requires Sound(c, h) && a in c && !c[a].kind.Singleton? && Targets(kept) + Targets(drop) == Targets(c[a].slots)
    requires forall w :: IsWalk(c[a := c[a].(slots := kept)], w) && w[0] in Targets(drop) ==> w[|w|-1] != a
    ensures !Doomed(c, h, a, kept)
  {
    hide Targets, Hangs, IsWalk;
    var d := c[a := c[a].(slots := kept)];
    Exchanged(c, h, a, kept);
    assert h + Targets(c[a].slots) - Targets(kept) == h + Targets(drop);
    if Doomed(c, h, a, kept) {
      var rank: map<Ref, nat> :| a in rank && Hangs(d, h, rank);
      CountedBacked(d, h, Targets(drop), rank);
      var w := WayBack(d, h, Targets(drop), rank, a);
    }
  }

  lemma CountedBacked(c: Cells, h: multiset<Ref>, drop: multiset<Ref>, rank: map<Ref, nat>)
    requires Counted(c, h + drop) && Hangs(c, h, rank)
    ensures Backed(c, drop, rank.Keys)
  {
    hide Refs;
    forall y <- rank.Keys
      ensures y in drop || y in Refs(c)
    {
      assert c[y].count == (h + drop)[y] + Refs(c)[y];
    }
  }

  /** What still refers to a node that hangs. */
  lemma Referrer(c: Cells, h: multiset<Ref>, drop: multiset<Ref>, rank: map<Ref, nat>, x: Ref) returns (k: Ref)
    requires Backed(c, drop, rank.Keys) && Hangs(c, h, rank) && x in rank && x !in drop
    ensures k in c && k in rank && rank[k] > rank[x] && x in Targets(c[k].slots)
  {
    hide Targets, Refs;
    var i;
    k, i := RefSlot(c, x);
    TargetsMember(c[k].slots, i);
  }

  lemma RefSlot(c: Cells, x: Ref) returns (k: Ref, i: nat)
    requires x in Refs(c)
    ensures k in c && i < |c[k].slots| && c[k].slots[i].ref == x
  {
    RefIsSlot(c, c.Keys, x);
    k, i :| k in c.Keys && 0 <= i < |c[k].slots| && c[k].slots[i].ref == x;
  }

  lemma ShrunkSize(a: Cells, b: Cells)
    requires Shrunk(a, b)
    ensures |b| <= |a|
  {
  }

  lemma StartDrop(c: Cells, h: multiset<Ref>, slots: seq<Slot>)
    ensures Shrunk(c, c) && h - Targets(slots[..0]) == h
  {
    assert slots[..0] == [];
  }

  // ------------------------------------------------------------------ whole runs

  /** A node that was ever made is live exactly as long as something refers to it. */
  lemma LiveIffReferenced(c: Cells, h: multiset<Ref>, f: seq<Ref>, n: Ref, r: Ref)
    requires State(c, h, f, n) && 3 <= r < n
    ensures r in c <==> h[r] + Refs(c)[r] > 0
    ensures r in f <==> h[r] + Refs(c)[r] == 0
    ensures r in c ==> c[r].count == h[r] + Refs(c)[r]
  {
    if r !in c {
      assert r !in h;
      if r in Refs(c) {
        RefsLive(c, h, r);
      }
    }
  }

  datatype Call =
    | MakeArray | MakeObject | MakeScalar(x: V.Value) | Hold(r: Ref) | Drop(r: Ref)
    | SetAt(a: Ref, i: nat, v: Ref) | Append(a: Ref, v: Ref) | InsertAt(a: Ref, i: nat, v: Ref) | Remove(a: Ref, i: nat)
    | Extend(a: Ref, other: Ref) | Empty(a: Ref)
    | SetKey(a: Ref, key: bytes, v: Ref) | SetIter(a: Ref, i: nat, v: Ref) | DelKey(a: Ref, key: bytes) | Update(a: Ref, other: Ref)

  /** What a caller must see to: containers that are there, and a reference to hand over. */
  ghost predicate Legal(m: Memory, call: Call)
    reads m
  {
    match call
    case Hold(r) => r in m.cells
    case Drop(r) => r in m.handles
    case SetAt(a, _, v) => a in m.cells && v in m.handles
    case Append(a, v) => a in m.cells && v in m.handles
    case InsertAt(a, _, v) => a in m.cells && v in m.handles
    case Remove(a, _) => a in m.cells
    case Extend(a, other) => a in m.cells && other in m.cells
    case Empty(a) => a in m.cells
    case SetKey(a, _, v) => a in m.cells && v in m.handles
    case SetIter(a, i, v) => a in m.cells && v in m.handles && i < |m.cells[a].slots|
    case DelKey(a, _) => a in m.cells
    case Update(a, other) => a in m.cells && other in m.cells
    case _ => true
  }

  /** A call that replaces or removes values of a container which hangs by just these values,
      or by which the object hangs that an update takes its pairs from. */
  ghost predicate Endangered(m: Memory, call: Call)
    requires Legal(m, call)
    reads m
  {
    match call
    case SetAt(a, i, v) =>
      m.cells[a].kind.ArrayNode? && a != v && i < |m.cells[a].slots|
      && Doomed(m.cells, m.handles, a, Without(m.cells[a].slots, i))
    case Remove(a, i) =>
      m.cells[a].kind.ArrayNode? && i < |m.cells[a].slots| && Doomed(m.cells, m.handles, a, Without(m.cells[a].slots, i))
    case Empty(a) =>
      (m.cells[a].kind.ArrayNode? || m.cells[a].kind.ObjectNode?) && Doomed(m.cells, m.handles, a, [])
    case SetKey(a, key, v) =>
      m.cells[a].kind.ObjectNode? && a != v && FindSlot(m.cells[a].slots, key) >= 0
      && Doomed(m.cells, m.handles, a, DelSlot(m.cells[a].slots, key))
    case SetIter(a, i, v) =>
      m.cells[a].kind.ObjectNode? && Doomed(m.cells, m.handles, a, Without(m.cells[a].slots, i))
    case DelKey(a, key) =>
      m.cells[a].kind.ObjectNode? && FindSlot(m.cells[a].slots, key) >= 0
      && Doomed(m.cells, m.handles, a, DelSlot(m.cells[a].slots, key))
    case Update(a, other) => UpdateBreaks(m.cells, m.handles, a, other)
    case _ => false
  }

  /** Every legal call keeps the counts conserved and the releases unique, and the call goes on
      in freed memory exactly if it was endangered. */
  method Perform(m: Memory, call: Call) returns (dangling: bool)
    requires m.Valid() && Legal(m, call)
    modifies m
    ensures dangling <==> old(Endangered(m, call))
    ensures m.Valid() && old(m.freed) <= m.freed
    ensures forall r <- m.cells.Keys :: r in old(m.cells) || old(m.next) <= r < m.next
  {
    hide State, Doomed, Without, DelSlot, SetSlot, FindSlot, InOrder, GoneIsFreed, SlotsOk;
    dangling := false;
    match call {
      case MakeArray => var _ := m.New(ArrayNode);
      case MakeObject => var _ := m.New(ObjectNode);
      case MakeScalar(x) => var _ := m.New(Scalar(x));
      case Hold(r) => m.Incref(r);
      case Drop(r) => m.Decref(r);
      case SetKey(_, _, _) => dangling := PerformObject(m, call);
      case SetIter(_, _, _) => dangling := PerformObject(m, call);
      case DelKey(_, _) => dangling := PerformObject(m, call);
      case Update(_, _) => dangling := PerformObject(m, call);
      case _ => dangling := PerformArray(m, call);
    }
  }

  method PerformArray(m: Memory, call: Call) returns (dangling: bool)
    requires m.Valid() && Legal(m, call)
    requires call.SetAt? || call.Append? || call.InsertAt? || call.Remove? || call.Extend? || call.Empty?
    modifies m
    ensures dangling <==> old(Endangered(m, call))
    ensures m.Valid() && old(m.freed) <= m.freed && m.next == old(m.next) && m.cells.Keys <= old(m.cells).Keys
  {
    hide State, Doomed, Without, DelSlot, SetSlot, FindSlot, InOrder, GoneIsFreed, SlotsOk;
    var ok;
    dangling := false;
    match call {
      case SetAt(a, i, v) => ok, dangling := m.ArraySetNew(a, i, v);
      case Append(a, v) => ok := m.ArrayAppendNew(a, v);
      case InsertAt(a, i, v) => ok := m.ArrayInsertNew(a, i, v);
      case Remove(a, i) => ok, dangling := m.ArrayRemove(a, i);
      case Extend(a, other) => ok := m.ArrayExtend(a, other);
      case Empty(a) => ok, dangling := m.Clear(a);
    }
  }

  method PerformObject(m: Memory, call: Call) returns (dangling: bool)
    requires m.Valid() && Legal(m, call) && (call.SetKey? || call.SetIter? || call.DelKey? || call.Update?)
    modifies m
    ensures dangling <==> old(Endangered(m, call))
    ensures m.Valid() && old(m.freed) <= m.freed && m.next == old(m.next) && m.cells.Keys <= old(m.cells).Keys
  {
    hide State, Doomed, Without, DelSlot, SetSlot, FindSlot, InOrder, GoneIsFreed, SlotsOk;
    var ok;
    dangling := false;
    match call {
      case SetKey(a, key, v) => ok, dangling := m.ObjectSetNew(a, key, v);
      case SetIter(a, i, v) => ok, dangling := m.IterSetNew(a, i, v);
      case DelKey(a, key) => ok, dangling := m.ObjectDel(a, key);
      case Update(a, other) => ok, dangling := m.ObjectUpdate(a, other);
    }
  }

  /** No call on a container that the caller holds is endangered, for an update if the other
      object is held too. */
  lemma HeldCallsAreSafe(m: Memory, call: Call, a: Ref)
    requires Legal(m, call) && a in m.handles && (call.Update? ==> call.other in m.handles)
    requires call.SetAt? || call.Remove? || call.Empty? || call.SetKey? || call.SetIter? || call.DelKey? || call.Update? ==> call.a == a
    ensures !Endangered(m, call)
  {
  }

  /** Two arrays that contain each other, neither of them held. */
  lemma MutualHang(c: Cells, h: multiset<Ref>, a: Ref, v: Ref)
    requires a in c && v in c && a != v && c[a].kind.ArrayNode? && c[v].kind.ArrayNode? && h[a] == 0 && h[v] == 0
    requires c[a].slots == [Slot([], v)] && c[v].slots == [Slot([], a)]
    requires forall k <- c.Keys :: k != a && k != v ==> c[k].slots == []
    ensures Doomed(c, h, a, Without(c[a].slots, 0))
  {
    var rank: map<Ref, nat> := map[a := 0, v := 1];
    assert Without(c[a].slots, 0) == [];
    assert a in rank && Hangs(c[a := c[a].(slots := Without(c[a].slots, 0))], h, rank);
  }

  /** Two arrays that contain each other, and a third one. */
  method MakeCycle() returns (m: Memory, a: Ref, v: Ref, w: Ref)
    ensures m.Valid() && fresh(m) && a in m.cells && v in m.cells && w in m.handles && a != v && a != w && v != w
    ensures m.handles == multiset{w}
    ensures m.cells[a] == Cell(ArrayNode, 1, [Slot([], v)]) && m.cells[v] == Cell(ArrayNode, 1, [Slot([], a)])
    ensures forall k <- m.cells.Keys :: k != a && k != v ==> m.cells[k].slots == []
  {
    hide State;
    m, a, v, w := MakeThree();
    ghost var c := m.cells;
    var ok := m.ArrayAppendNew(v, a);
    assert m.handles == multiset{v, w};
    assert m.cells[v] == Cell(ArrayNode, 1, [Slot([], a)]) && m.cells[a] == c[a];
    ok := m.ArrayAppendNew(a, v);
    assert m.handles == multiset{w};
  }

  method MakeThree() returns (m: Memory, a: Ref, v: Ref, w: Ref)
    ensures m.Valid() && fresh(m) && a != v && a != w && v != w && m.handles == multiset{a, v, w}
    ensures a in m.cells && v in m.cells && w in m.cells && m.cells[a] == m.cells[v] == m.cells[w] == Cell(ArrayNode, 1, [])
    ensures forall k <- m.cells.Keys :: m.cells[k].slots == []
  {
    hide State;
    m := new Memory();
    a := m.New(ArrayNode);
    v := m.New(ArrayNode);
    w := m.New(ArrayNode);
  }

  /** Replacing the element of one of them releases both before the new element is stored. */
  method CycleDangles() returns (dangling: bool)
    ensures dangling
  {
    hide State, Doomed;
    var m, a, v, w := MakeCycle();
    MutualHang(m.cells, m.handles, a, v);
    var ok;
    ok, dangling := m.ArraySetNew(a, 0, w);
  }

  /** An object held by the caller, whose only value is another object, which has the same key. */
  method MakeNested(key: bytes) returns (m: Memory, a: Ref, other: Ref, v: Ref)
    ensures m.Valid() && fresh(m) && m.handles == multiset{a}
    ensures a in m.cells && other in m.cells && v in m.cells && a != other && a != v && other != v
    ensures m.cells[a] == Cell(ObjectNode, 1, [Slot(key, other)]) && m.cells[other] == Cell(ObjectNode, 1, [Slot(key, v)])
    ensures forall k <- m.cells.Keys :: k != a && k != other ==> m.cells[k].slots == []
  {
    hide State, Sheds, Doomed, DelSlot, SetSlot, Only, FindSlot, Memory.Gone;
    m, a, other, v := MakeApart();
    var ok, dangling := m.ObjectSetNew(other, key, v);
    assert m.handles == multiset{a, other};
    ok, dangling := m.ObjectSetNew(a, key, other);
    assert m.handles == multiset{a};
  }

  method MakeApart() returns (m: Memory, a: Ref, other: Ref, v: Ref)
    ensures m.Valid() && fresh(m) && a != other && a != v && other != v && m.handles == multiset{a, other, v}
    ensures a in m.cells && other in m.cells && v in m.cells && m.cells[a] == m.cells[other] == Cell(ObjectNode, 1, [])
    ensures m.cells[v] == Cell(Scalar(V.Integer(0)), 1, []) && forall k <- m.cells.Keys :: m.cells[k].slots == []
  {
    hide State;
    m := new Memory();
    a := m.New(ObjectNode);
    other := m.New(ObjectNode);
    v := m.New(Scalar(V.Integer(0)));
  }

  /** Updating an object with a value of its own that it replaces on the way. No cycle is needed,
      and the object itself is held. */
  method UpdateDangles(key: bytes) returns (dangling: bool)
    ensures dangling
  {
    hide State;
    var m, a, other, v := MakeNested(key);
    NestedBreaks(m.cells, m.handles, a, other, v, key);
    hide UpdateBreaks;
    var ok;
    ok, dangling := m.ObjectUpdate(a, other);
  }

  lemma NestedBreaks(c: Cells, h: multiset<Ref>, a: Ref, other: Ref, v: Ref, key: bytes)
    requires a in c && other in c && a != other && a != v && other != v && h == multiset{a}
    requires c[a] == Cell(ObjectNode, 1, [Slot(key, other)]) && c[other] == Cell(ObjectNode, 1, [Slot(key, v)])
    requires forall k <- c.Keys :: k != a && k != other ==> c[k].slots == []
    ensures UpdateBreaks(c, h, a, other)
  {
    var pairs := c[other].slots;
    assert pairs[..0] == [] && Merged(c, a, other, 0) == c[a].slots;
    assert DelSlot(c[a].slots, key) == [];
    var e := MergedBut(c, a, other, 0);
    var rank: map<Ref, nat> := map[other := 0];
    assert other in rank && Hangs(e, h + multiset{v}, rank);
    assert Breaks(c, h, a, other, 0);
  }

  // ------------------------------------------------------ what an update needs

  /** A value of the object under a key that the other one has too. */
  ghost predicate Replaced(c: Cells, a: Ref, other: Ref, r: Ref)
    requires a in c && other in c
  {
    exists i :: 0 <= i < |c[a].slots| && c[a].slots[i].ref == r && FindSlot(c[other].slots, c[a].slots[i].key) >= 0
  }

  /** An update goes well if no walk leads from a value that it replaces to either object. */
  lemma UpdateWithoutWay(c: Cells, h: multiset<Ref>, a: Ref, other: Ref)
    requires Sound(c, h) && a in c && other in c
    requires forall w :: IsWalk(c, w) && Replaced(c, a, other, w[0]) ==> w[|w|-1] != a && w[|w|-1] != other
    ensures !UpdateBreaks(c, h, a, other)
  {
    hide Sound, IsWalk, Replaced, Falls;
    if UpdateBreaks(c, h, a, other) {
      var i :| 0 <= i < |c[other].slots| && Breaks(c, h, a, other, i);
      var x := if Falls(MergedBut(c, a, other, i), h + multiset{c[other].slots[i].ref}, a) then a else other;
      var w := BreakWalk(c, h, a, other, i, x);
    }
  }

  /** Nothing hangs among cells whose counts are right. */
  lemma NothingFalls(c: Cells, h: multiset<Ref>, x: Ref)
    requires Counted(c, h)
    ensures !Falls(c, h, x)
  {
    hide Counted, Hangs;
    if Falls(c, h, x) {
      var rank: map<Ref, nat> :| x in rank && Hangs(c, h, rank);
      assert h + multiset{} == h;
      CountedBacked(c, h, multiset{}, rank);
      var w := WayBack(c, h, multiset{}, rank, x);
    }
  }

  /** An object may be updated with itself. */
  lemma SelfUpdateIsSafe(c: Cells, h: multiset<Ref>, a: Ref)
    requires Sound(c, h) && a in c && SlotsOk(c[a].kind, c[a].slots)
    ensures !UpdateBreaks(c, h, a, a)
  {
    hide Sound, Falls;
    if UpdateBreaks(c, h, a, a) {
      var i :| 0 <= i < |c[a].slots| && Breaks(c, h, a, a, i);
      var slots := c[a].slots;
      SelfUpdate(c, a, a, i);
      assert FindSlot(slots, slots[i].key) == i;
      assert MergedBut(c, a, a, i) == c[a := c[a].(slots := Without(slots, i))];
      hide MergedBut, Without;
      OneTaken(c, h, a, i);
      StandsThere(MergedBut(c, a, a, i), h + multiset{slots[i].ref}, a);
    }
  }

  /** A slot taken out of a container is a reference held. */
  lemma OneTaken(c: Cells, h: multiset<Ref>, a: Ref, i: nat)
    requires Sound(c, h) && a in c && !c[a].kind.Singleton? && i < |c[a].slots|
    ensures Sound(c[a := c[a].(slots := Without(c[a].slots, i))], h + multiset{c[a].slots[i].ref})
  {
    hide Sound, Without;
    var slots, v := c[a].slots, c[a].slots[i].ref;
    TakeOne(slots, i);
    TargetsOne(slots[i]);
    hide Targets;
    assert Targets(Without(slots, i)) <= h + Targets(slots) && h + Targets(slots) - Targets(Without(slots, i)) == h + multiset{v} by {
      forall x
        ensures Targets(Without(slots, i))[x] + multiset{v}[x] == Targets(slots)[x]
      {
        assert (Targets(Without(slots, i)) + multiset{v})[x] == (Targets(slots) + multiset{})[x];
      }
    }
    Exchanged(c, h, a, Without(slots, i));
  }

  lemma StandsThere(c: Cells, h: multiset<Ref>, x: Ref)
    requires Sound(c, h)
    ensures !Falls(c, h, x)
  {
    hide Counted;
    NothingFalls(c, h, x);
  }

  /** The walk by which one of the objects hangs. */
  lemma BreakWalk(c: Cells, h: multiset<Ref>, a: Ref, other: Ref, i: nat, x: Ref) returns (w: seq<Ref>)
    requires Sound(c, h) && a in c && other in c && i < |c[other].slots|
    requires Falls(MergedBut(c, a, other, i), h + multiset{c[other].slots[i].ref}, x)
    ensures IsWalk(c, w) && Replaced(c, a, other, w[0]) && (w[|w|-1] == a || w[|w|-1] == x)
  {
    hide Sound, Replaced, Hangs, Targets, Merged, DelSlot;
    var e, held := MergedBut(c, a, other, i), h + multiset{c[other].slots[i].ref};
    var rank: map<Ref, nat> :| x in rank && Hangs(e, held, rank);
    var drop := Lapsed(c, a, other);
    UpdateBacked(c, h, a, other, i, rank);
    var v := WayBack(e, held, drop, rank, x);
    LapsedReplaced(c, a, other, v[0]);
    w := UpToContainer(c, e, a, v);
  }

  /** What the slots of an object lead to whose keys the other one has. */
  ghost function Lapsed(c: Cells, a: Ref, other: Ref): multiset<Ref>
    requires a in c && other in c
  {
    multiset(set i | 0 <= i < |c[a].slots| && FindSlot(c[other].slots, c[a].slots[i].key) >= 0 :: c[a].slots[i].ref)
  }

  lemma LapsedReplaced(c: Cells, a: Ref, other: Ref, r: Ref)
    requires a in c && other in c && r in Lapsed(c, a, other)
    ensures Replaced(c, a, other, r)
  {
  }

  /** A slot whose key is not set keeps its place among the slots. */
  lemma {:induction false} KeptSlot(slots: seq<Slot>, pairs: seq<Slot>, s: Slot)
    requires s in slots && FindSlot(pairs, s.key) < 0
    ensures s in Updated(slots, pairs)
  {
    if pairs != [] {
      var rest, last := pairs[..|pairs|-1], pairs[|pairs|-1];
      var u := Updated(slots, rest);
      KeptSlot(slots, rest, s);
      var j :| 0 <= j < |u| && u[j] == s;
      assert last.key != s.key;
      assert SetSlot(u, last.key, last.ref)[j] == s;
    }
  }

  lemma KeptBut(slots: seq<Slot>, key: bytes, s: Slot)
    requires s in slots && s.key != key
    ensures s in DelSlot(slots, key)
  {
    var i := FindSlot(slots, key);
    if i >= 0 {
      var j :| 0 <= j < |slots| && slots[j] == s;
      var d := DelSlot(slots, key);
      assert d[if j < i then j else j - 1] == s;
    }
  }

  lemma UpdateBacked(c: Cells, h: multiset<Ref>, a: Ref, other: Ref, i: nat, rank: map<Ref, nat>)
    requires Sound(c, h) && a in c && other in c && i < |c[other].slots|
    requires Hangs(MergedBut(c, a, other, i), h + multiset{c[other].slots[i].ref}, rank)
    ensures Backed(MergedBut(c, a, other, i), Lapsed(c, a, other), rank.Keys)
  {
    hide Refs, Lapsed, Merged;
    var e := MergedBut(c, a, other, i);
    forall y <- rank.Keys
      ensures y in Lapsed(c, a, other) || y in Refs(e)
    {
      assert c[y].count == h[y] + Refs(c)[y];
      var k, j := RefSlot(c, y);
      if k != a {
        RefsMember(e, k, j);
      } else {
        SlotLapses(c, a, other, i, j);
      }
    }
  }

  lemma SlotLapses(c: Cells, a: Ref, other: Ref, i: nat, j: nat)
    requires a in c && other in c && i < |c[other].slots| && j < |c[a].slots|
    ensures c[a].slots[j].ref in Lapsed(c, a, other) || c[a].slots[j].ref in Refs(MergedBut(c, a, other, i))
  {
    hide Refs;
    var s, pairs := c[a].slots[j], c[other].slots;
    if FindSlot(pairs, s.key) < 0 {
      forall p <- pairs[..i]
        ensures p.key != s.key
      {
        var q :| 0 <= q < i && pairs[..i][q] == p;
        assert pairs[q] == p;
      }
      KeptSlot(c[a].slots, pairs[..i], s);
      KeptBut(Merged(c, a, other, i), pairs[i].key, s);
      var e := MergedBut(c, a, other, i);
      var k :| 0 <= k < |e[a].slots| && e[a].slots[k] == s;
      RefsMember(e, a, k);
    }
  }

  /** A walk that is cut short where it first comes to the object keeps clear of its slots. */
  lemma {:induction false} UpToContainer(c: Cells, e: Cells, a: Ref, w: seq<Ref>) returns (u: seq<Ref>)
    requires a in c && e.Keys == c.Keys && (forall k <- c.Keys :: k != a ==> e[k] == c[k]) && IsWalk(e, w)
    ensures IsWalk(c, u) && u[0] == w[0] && (u[|u|-1] == a || u[|u|-1] == w[|w|-1])
    decreases |w|
  {
    hide Targets;
    if p :| 0 <= p < |w| - 1 && w[p] == a {
      u := UpToContainer(c, e, a, w[..p+1]);
    } else {
      u := w;
    }
  }
}
