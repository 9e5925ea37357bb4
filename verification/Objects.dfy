/**
  JSON objects of value.c over the hash table: serials, and the order in which dump.c
  lists the keys.
 */
module Objects {
  import opened Bytes
  import opened Values
  import H = HashTable
  import O = Ordering

  type Contents = map<bytes, H.Slot<bytes, Value>>

  /** The pairs by key, and the serial the next key will get. */
  datatype State = State(contents: Contents, serial: nat)

  datatype Op = Put(key: bytes, value: Value) | Remove(key: bytes) | Empty

  /** A replaced value keeps the stored key and so its serial; clearing keeps the counter. */
  function Apply(op: Op, s: State): State {
    match op
    case Put(key, value) => State(H.SetSpec(s.contents, H.ObjectKey(s.serial, key), value), s.serial + 1)
    case Remove(key) => State(s.contents - {key}, s.serial)
    case Empty => State(map[], s.serial)
  }

  function After(ops: seq<Op>): State {
    if ops == [] then State(map[], 0) else Apply(ops[|ops|-1], After(ops[..|ops|-1]))
  }

  class JsonObject {
    const table: H.HashTable<bytes, Value>
    var serial: nat

    ghost predicate Valid()
      reads this, table, table.Repr
    {
      table.Valid() && this !in table.Repr
    }

    ghost function View(): State
      reads this, table
    {
      State(table.contents, serial)
    }

    constructor (hashKey: bytes -> nat)
      ensures Valid() && View() == After([]) && fresh(table) && fresh(table.Repr)
    {
      var t := new H.HashTable<bytes, Value>.Init(hashKey);
      table := t;
      serial := 0;
    }

    /** json_object_set_new_nocheck, while the prime table lasts. */
    method Set(key: bytes, value: Value)
      requires Valid() && (table.size < table.buckets.Length || table.numBuckets + 1 < H.NPRIMES)
      modifies this`serial, table.Repr
      ensures Valid() && fresh(table.Repr - old(table.Repr)) && View() == Apply(Put(key, value), old(View()))
      ensures var was, now := old(View()).contents, View().contents;
              && now.Keys == was.Keys + {key} && now[key].value == value
              && now[key].key == (if key in was then was[key].key else H.ObjectKey(old(serial), key))
              && forall k :: k in was && k != key ==> now[k] == was[k]
    {
      hide H.HashTable.Valid;
      var k := H.ObjectKey(serial, key);
      serial := serial + 1;
      table.Set(k, value);
    }

    method Del(key: bytes) returns (ok: bool)
      requires Valid()
      modifies table.Repr
      ensures Valid() && table.Repr == old(table.Repr) && View() == Apply(Remove(key), old(View()))
      ensures ok <==> key in old(View()).contents
    {
      hide H.HashTable.Valid;
      ok := table.Del(key);
    }

    method Clear()
      requires Valid()
      modifies table.Repr
      ensures Valid() && table.Repr == old(table.Repr) && View() == Apply(Empty, old(View()))
    {
      hide H.HashTable.Valid;
      ghost var _ := table.Clear();
    }

    /** The keys in the order in which do_dump lists them, the object having come about by the
        calls `ops`. */
    method DumpOrder(sortKeys: bool, preserveOrder: bool, ghost ops: seq<Op>) returns (keys: seq<bytes>)
      requires Valid() && View() == After(ops)
      ensures |keys| == |View().contents| && forall k :: k in keys <==> k in View().contents
      ensures sortKeys ==> forall i, j :: 0 <= i < j < |keys| ==> O.KeyLess(keys[i], keys[j])
      ensures !sortKeys && preserveOrder && Narrow(View().contents) ==> keys == Listing(ops)
    {
      hide H.HashTable.Valid;
      var slots := table.Collect();
      var es := EntriesOf(slots);
      AllCollected(slots, table.contents);
      hide H.Lists, Collected, Narrow, After, Listing, O.Sort, O.KeyLess, EntriesOf;
      if sortKeys {
        SortsKeys(es, View().contents);
        keys := KeysOf(O.Sort(es, O.KeyBefore));
      } else if preserveOrder {
        ListsAll(es, O.Sort(es, O.SerialBefore), View().contents);
        if Narrow(View().contents) {
          PreservesOrder(ops, es);
        }
        keys := KeysOf(O.Sort(es, O.SerialBefore));
      } else {
        ListsAll(es, es, View().contents);
        keys := KeysOf(es);
      }
    }
  }

  // ------------------------------------------------------------------ serials

  function Without(keys: seq<bytes>, key: bytes): (r: seq<bytes>)
    ensures forall k :: k in r <==> k in keys && k != key
  {
    if keys == [] then []
    else
      var k := keys[|keys|-1];
      assert forall x :: x in keys <==> x == k || x in keys[..|keys|-1];
      if k == key then Without(keys[..|keys|-1], key) else Without(keys[..|keys|-1], key) + [k]
  }

  /** The live keys by their first insertion since their last deletion. */
  function Listing(ops: seq<Op>): seq<bytes> {
    if ops == [] then []
    else
      var keys := Listing(ops[..|ops|-1]);
      match ops[|ops|-1]
      case Put(key, _) => if key in keys then keys else keys + [key]
      case Remove(key) => Without(keys, key)
      case Empty => []
  }

  function SerialOf(c: Contents, key: bytes): nat
    requires key in c
  {
    c[key].key.serial
  }

  /** The keys, listed by strictly ascending serial, all below the counter. */
  ghost predicate Ordered(s: State, keys: seq<bytes>) {
    && (forall k :: k in keys <==> k in s.contents)
    && (forall k :: k in keys ==> s.contents[k].key.text == k && SerialOf(s.contents, k) < s.serial)
    && Rising(s.contents, keys)
  }

  ghost predicate Rising(c: Contents, keys: seq<bytes>) {
    && (forall i :: 0 <= i < |keys| ==> keys[i] in c)
    && forall i, j :: 0 <= i < j < |keys| ==> SerialOf(c, keys[i]) < SerialOf(c, keys[j])
  }

  lemma {:induction false} WithoutRising(c: Contents, keys: seq<bytes>, key: bytes)
    requires Rising(c, keys)
    ensures Rising(c, Without(keys, key))
  {
    if keys != [] {
      var rest, k := keys[..|keys|-1], keys[|keys|-1];
      WithoutRising(c, rest, key);
      var w := Without(rest, key);
      forall i | 0 <= i < |w|
        ensures SerialOf(c, w[i]) < SerialOf(c, k)
      {
        assert w[i] in rest;
        var j :| 0 <= j < |rest| && rest[j] == w[i];
        assert keys[j] == w[i];
      }
    }
  }

  lemma RisingElsewhere(c: Contents, keys: seq<bytes>, key: bytes)
    requires Rising(c, keys) && key !in keys
    ensures Rising(c - {key}, keys)
  {
    assert forall i :: 0 <= i < |keys| ==> keys[i] in keys;
  }

  /** Over any run, live serials are distinct and below the counter, and their order is
      that of first insertion since the last deletion. */
  lemma {:induction false} RunOrdered(ops: seq<Op>)
    ensures Ordered(After(ops), Listing(ops))
  {
    if ops != [] {
      hide H.SetSpec;
      var before, last := ops[..|ops|-1], ops[|ops|-1];
      RunOrdered(before);
      var s, keys := After(before), Listing(before);
      match last
      case Put(key, value) =>
        PutOrdered(s, keys, key, value);
      case Remove(key) =>
        WithoutRising(s.contents, keys, key);
        RisingElsewhere(s.contents, Without(keys, key), key);
      case Empty =>
    }
  }

  lemma PutOrdered(s: State, keys: seq<bytes>, key: bytes, value: Value)
    requires Ordered(s, keys)
    ensures Ordered(Apply(Put(key, value), s), if key in keys then keys else keys + [key])
  {
    var t := Apply(Put(key, value), s);
    forall k <- s.contents.Keys
      ensures t.contents[k].key == s.contents[k].key
    {
    }
    SameSerials(s.contents, t.contents, keys);
    assert key !in s.contents ==> t.contents[key].key == H.ObjectKey(s.serial, key);
    assert t.contents.Keys == s.contents.Keys + {key} && t.serial == s.serial + 1;
    hide Apply, H.SetSpec;
    if key !in keys {
      forall i | 0 <= i < |keys|
        ensures SerialOf(t.contents, keys[i]) < SerialOf(t.contents, key)
      {
        assert keys[i] in keys;
      }
      RisingMore(t.contents, keys, key);
    }
    hide Rising;
  }

  lemma RisingMore(c: Contents, keys: seq<bytes>, key: bytes)
    requires Rising(c, keys) && key in c && forall i :: 0 <= i < |keys| ==> SerialOf(c, keys[i]) < SerialOf(c, key)
    ensures Rising(c, keys + [key])
  {
  }

  lemma SameSerials(c: Contents, d: Contents, keys: seq<bytes>)
    requires Rising(c, keys) && forall k <- c.Keys :: k in d && d[k].key == c[k].key
    ensures Rising(d, keys)
  {
  }

  // ----------------------------------------------------------- dumping order

  /** The full keys do_dump collects from an object, in whatever order it iterates. */
  ghost predicate Collected(es: seq<Entry>, c: Contents) {
    && DistinctKeys(es) && (forall k :: k in c ==> k in KeySet(es))
    && forall i :: 0 <= i < |es| ==> es[i].key in c && es[i].serial == SerialOf(c, es[i].key)
  }

  function KeysOf(es: seq<Entry>): (r: seq<bytes>)
    ensures |r| == |es|
  {
    seq(|es|, i requires 0 <= i < |es| => es[i].key)
  }

  /** Two listings of the same keys by rising serial are the same. */
  lemma {:induction false} RisingUnique(c: Contents, a: seq<bytes>, b: seq<bytes>)
    requires Rising(c, a) && Rising(c, b) && forall k :: k in a <==> k in b
    ensures a == b
    decreases |a|
  {
    assert |b| > 0 ==> b[0] in b;
    assert |a| > 0 ==> a[0] in a;
    if a != [] {
      var x, y := a[|a|-1], b[|b|-1];
      SameLast(c, a, b);
      var a', b' := a[..|a|-1], b[..|b|-1];
      forall k
        ensures k in a' <==> k in b'
      {
        Once(c, a, k);
        Once(c, b, k);
      }
      RisingUnique(c, a', b');
    }
  }

  lemma SameLast(c: Contents, a: seq<bytes>, b: seq<bytes>)
    requires Rising(c, a) && Rising(c, b) && a != [] && b != [] && forall k :: k in a <==> k in b
    ensures a[|a|-1] == b[|b|-1]
  {
    var x, y := a[|a|-1], b[|b|-1];
    assert x in b && y in a;
    var i :| 0 <= i < |b| && b[i] == x;
    var j :| 0 <= j < |a| && a[j] == y;
  }

  lemma Once(c: Contents, a: seq<bytes>, k: bytes)
    requires Rising(c, a) && a != []
    ensures k in a[..|a|-1] <==> k in a && k != a[|a|-1]
  {
    if k in a[..|a|-1] {
      var i :| 0 <= i < |a| - 1 && a[i] == k;
    }
  }

  function EntriesOf(slots: seq<H.Slot<bytes, Value>>): (r: seq<Entry>)
    ensures |r| == |slots|
  {
    seq(|slots|, i requires 0 <= i < |slots| => Entry(slots[i].key.text, slots[i].key.serial, slots[i].value))
  }

  lemma AllCollected(slots: seq<H.Slot<bytes, Value>>, c: Contents)
    requires H.Lists(slots, c)
    ensures Collected(EntriesOf(slots), c)
  {
    var es := EntriesOf(slots);
    KeyCount(es);
    assert KeySet(es) <= c.Keys;
    SameSize(KeySet(es), c.Keys);
  }

  /** Any rearrangement of the entries lists every key once. */
  lemma ListsAll(es: seq<Entry>, r: seq<Entry>, c: Contents)
    requires Collected(es, c) && multiset(r) == multiset(es)
    ensures |KeysOf(r)| == |c| && forall k :: k in KeysOf(r) <==> k in c
  {
    assert |r| == |es| && forall x :: x in r <==> x in es by {
      assert |multiset(r)| == |multiset(es)| && forall x :: x in r <==> x in multiset(r);
    }
    KeyCount(es);
    assert KeySet(es) == c.Keys;
    forall k
      ensures k in KeysOf(r) <==> k in KeySet(es)
    {
      if k in KeysOf(r) {
        var i :| 0 <= i < |r| && r[i].key == k;
        assert r[i] in es;
      }
      if k in KeySet(es) {
        var e :| e in es && e.key == k;
        var i :| 0 <= i < |r| && r[i] == e;
        assert KeysOf(r)[i] == k;
      }
    }
  }

  /** No two live serials are 2^31 or more apart. */
  ghost predicate Narrow(c: Contents) {
    forall a <- c.Keys, b <- c.Keys :: SerialOf(c, a) - SerialOf(c, b) < 0x8000_0000
  }

  /** JSON_PRESERVE_ORDER lists the keys by first insertion since the last deletion, as long
      as the differences of live serials fit an int. */
  lemma PreservesOrder(ops: seq<Op>, es: seq<Entry>)
    requires Collected(es, After(ops).contents) && Narrow(After(ops).contents)
    ensures KeysOf(O.Sort(es, O.SerialBefore)) == Listing(ops)
  {
    RunOrdered(ops);
    var s, keys := After(ops), Listing(ops);
    SerialsOrder(es, s, keys);
    O.SortAscends(es, O.SerialBefore);
    var r := O.Sort(es, O.SerialBefore);
    hide O.Sort, O.SerialBefore;
    SortedKeys(es, r, s, keys);
    RisingUnique(s.contents, KeysOf(r), keys);
  }

  // ------------------------------------------------ serials too far from each other

  /** One key set a number of times. */
  function Puts(n: nat, key: bytes, value: Value): (ops: seq<Op>)
    ensures |ops| == n
  {
    if n == 0 then [] else Puts(n - 1, key, value) + [Put(key, value)]
  }

  lemma {:induction false} PutsGive(n: nat, key: bytes, value: Value)
    ensures After(Puts(n, key, value)) == State(if n == 0 then map[] else map[key := H.Slot(H.ObjectKey(0, key), value)], n)
    ensures Listing(Puts(n, key, value)) == if n == 0 then [] else [key]
  {
    var ops := Puts(n, key, value);
    if n > 0 {
      PutsGive(n - 1, key, value);
      assert ops[..n-1] == Puts(n - 1, key, value) && ops[n-1] == Put(key, value);
      hide Puts;
      PutAgain(n - 1, key, value);
      assert After(ops) == Apply(ops[n-1], After(ops[..n-1]));
    }
  }

  /** Putting the one key there is gives it no new serial. */
  lemma PutAgain(n: nat, key: bytes, value: Value)
    ensures var c := map[key := H.Slot(H.ObjectKey(0, key), value)];
            Apply(Put(key, value), State(if n == 0 then map[] else c, n)) == State(c, n + 1)
  {
    var c: Contents := map[key := H.Slot(H.ObjectKey(0, key), value)];
    assert c[key := H.Slot(H.ObjectKey(0, key), value)] == c;
  }

  lemma PutOther(a: bytes, b: bytes, value: Value)
    requires a != b
    ensures Apply(Put(b, value), State(map[a := H.Slot(H.ObjectKey(0, a), value)], FAR)).contents
            == map[a := H.Slot(H.ObjectKey(0, a), value), b := H.Slot(H.ObjectKey(FAR, b), value)]
  {
  }

  const FAR: nat := 0x8000_0001

  /** An object in which a key has been set 2^31 + 1 times before another one is: with
      JSON_PRESERVE_ORDER the later key is listed first. */
  lemma OrderLost(a: bytes, b: bytes, value: Value, es: seq<Entry>)
    requires a != b && Collected(es, After(Puts(FAR, a, value) + [Put(b, value)]).contents)
    ensures Listing(Puts(FAR, a, value) + [Put(b, value)]) == [a, b]
    ensures KeysOf(O.Sort(es, O.SerialBefore)) == [b, a]
  {
    var ops := Puts(FAR, a, value) + [Put(b, value)];
    PutsGive(FAR, a, value);
    hide Puts, H.SetSpec;
    assert ops[..FAR] == Puts(FAR, a, value) && ops[FAR] == Put(b, value);
    var c := After(ops).contents;
    PutOther(a, b, value);
    assert c == Apply(Put(b, value), State(map[a := H.Slot(H.ObjectKey(0, a), value)], FAR)).contents;
    hide After, Listing, Puts, Apply, H.SetSpec;
    TwoEntries(es, c, a, b);
    FarSorted(es);
  }

  lemma TwoEntries(es: seq<Entry>, c: Contents, a: bytes, b: bytes)
    requires a != b && Collected(es, c) && c.Keys == {a, b}
    ensures |es| == 2 && ((es[0].key == a && es[1].key == b) || (es[0].key == b && es[1].key == a))
    ensures forall e <- es :: e.serial == SerialOf(c, e.key)
  {
    KeyCount(es);
    assert KeySet(es) == {a, b};
  }

  lemma FarSorted(es: seq<Entry>)
    requires |es| == 2 && (if es[0].serial == 0 then es[1].serial == FAR else es[0].serial == FAR && es[1].serial == 0)
    ensures KeysOf(O.Sort(es, O.SerialBefore)) == if es[0].serial == 0 then [es[1].key, es[0].key] else [es[0].key, es[1].key]
  {
    assert O.SerialBefore(es[1], es[0]) <==> es[0].serial == 0;
    hide O.SerialBefore;
    assert O.Sort(es[1..][1..], O.SerialBefore) == [];
    assert O.Sort(es[1..], O.SerialBefore) == [es[1]];
    assert O.Insert(es[0], [], O.SerialBefore) == [es[0]];
    assert [es[1]][1..] == [];
    assert O.Sort(es, O.SerialBefore) == O.Insert(es[0], [es[1]], O.SerialBefore);
  }

  lemma EntrySerial(es: seq<Entry>, s: State, keys: seq<bytes>, a: Entry)
    requires Collected(es, s.contents) && Ordered(s, keys) && a in es
    ensures a.key in keys && a.key in s.contents && a.serial == SerialOf(s.contents, a.key) < s.serial
  {
    var i :| 0 <= i < |es| && es[i] == a;
  }

  lemma EntriesDiffer(es: seq<Entry>, s: State, keys: seq<bytes>, i: nat, j: nat)
    requires Collected(es, s.contents) && Ordered(s, keys) && i < j < |es|
    ensures es[i].serial != es[j].serial
  {
    EntrySerial(es, s, keys, es[i]);
    EntrySerial(es, s, keys, es[j]);
    SerialsDiffer(s, keys, es[i].key, es[j].key);
  }

  lemma SerialsOrder(es: seq<Entry>, s: State, keys: seq<bytes>)
    requires Collected(es, s.contents) && Ordered(s, keys) && Narrow(s.contents)
    ensures O.Orders(O.Set(es), O.SerialBefore) && forall i, j :: 0 <= i < j < |es| ==> es[i] != es[j]
  {
    forall i, j | 0 <= i < j < |es|
      ensures es[i].serial != es[j].serial
    {
      EntriesDiffer(es, s, keys, i, j);
    }
    forall a <- O.Set(es), b <- O.Set(es)
      ensures Near(a, b)
    {
      EntriesNear(es, s, keys, a, b);
    }
    hide Collected, Ordered, Narrow;
    OrderedBySerial(es);
  }

  predicate Near(a: Entry, b: Entry) { -0x8000_0000 < a.serial - b.serial < 0x8000_0000 }

  lemma EntriesNear(es: seq<Entry>, s: State, keys: seq<bytes>, a: Entry, b: Entry)
    requires Collected(es, s.contents) && Ordered(s, keys) && Narrow(s.contents) && a in es && b in es
    ensures Near(a, b)
  {
    hide Collected, Ordered;
    EntrySerial(es, s, keys, a);
    EntrySerial(es, s, keys, b);
  }

  lemma BeforeBySerial(a: Entry, b: Entry)
    requires Near(a, b)
    ensures O.SerialBefore(a, b) <==> a.serial < b.serial
  {
  }

  lemma OrderedBySerial(es: seq<Entry>)
    requires forall i, j :: 0 <= i < j < |es| ==> es[i].serial != es[j].serial
    requires forall a <- O.Set(es), b <- O.Set(es) :: Near(a, b)
    ensures O.Orders(O.Set(es), O.SerialBefore)
  {
    forall a <- O.Set(es), b <- O.Set(es)
      ensures O.SerialBefore(a, b) <==> a.serial < b.serial
    {
      BeforeBySerial(a, b);
    }
    forall a <- O.Set(es), b <- O.Set(es) | a != b
      ensures a.serial != b.serial
    {
      var i :| 0 <= i < |es| && es[i] == a;
      var j :| 0 <= j < |es| && es[j] == b;
    }
    hide O.SerialBefore;
  }

  lemma SerialsDiffer(s: State, keys: seq<bytes>, a: bytes, b: bytes)
    requires Ordered(s, keys) && a in keys && b in keys && a != b
    ensures SerialOf(s.contents, a) != SerialOf(s.contents, b)
  {
    var i :| 0 <= i < |keys| && keys[i] == a;
    var j :| 0 <= j < |keys| && keys[j] == b;
    if i > j {
      assert SerialOf(s.contents, keys[j]) < SerialOf(s.contents, keys[i]);
    }
  }

  lemma SortedKeys(es: seq<Entry>, r: seq<Entry>, s: State, keys: seq<bytes>)
    requires Collected(es, s.contents) && Ordered(s, keys) && Narrow(s.contents)
    requires O.Ascending(r, O.SerialBefore) && forall x :: x in r <==> x in es
    ensures Rising(s.contents, KeysOf(r)) && forall k :: k in KeysOf(r) <==> k in keys
  {
    hide Collected, Ordered, O.SerialBefore, Narrow, Near;
    forall i | 0 <= i < |r|
      ensures r[i].key in s.contents && r[i].serial == SerialOf(s.contents, r[i].key) && r[i].key in keys
    {
      EntrySerial(es, s, keys, r[i]);
    }
    forall i, j | 0 <= i < j < |r|
      ensures SerialOf(s.contents, KeysOf(r)[i]) < SerialOf(s.contents, KeysOf(r)[j])
    {
      EntriesNear(es, s, keys, r[i], r[j]);
      BeforeBySerial(r[i], r[j]);
    }
    forall k <- keys
      ensures k in KeysOf(r)
    {
      KeyListed(es, r, s, keys, k);
    }
    forall k <- KeysOf(r)
      ensures k in keys
    {
      var i :| 0 <= i < |r| && r[i].key == k;
    }
  }

  lemma KeyListed(es: seq<Entry>, r: seq<Entry>, s: State, keys: seq<bytes>, k: bytes)
    requires Collected(es, s.contents) && Ordered(s, keys) && k in keys && forall x :: x in r <==> x in es
    ensures k in KeysOf(r)
  {
    var j :| 0 <= j < |es| && es[j].key == k;
    assert es[j] in r;
    var i :| 0 <= i < |r| && r[i] == es[j];
    assert KeysOf(r)[i] == k;
  }

  lemma KeysOrdered(es: seq<Entry>)
    requires DistinctKeys(es)
    ensures O.Orders(O.Set(es), O.KeyBefore)
  {
    forall a <- O.Set(es), b <- O.Set(es)
      ensures a != b ==> O.KeyBefore(a, b) || O.KeyBefore(b, a)
      ensures !(O.KeyBefore(a, b) && O.KeyBefore(b, a))
    {
      O.KeyLessTotal(a.key, b.key);
      var i :| 0 <= i < |es| && es[i] == a;
      var j :| 0 <= j < |es| && es[j] == b;
    }
    forall a <- O.Set(es), b <- O.Set(es), c <- O.Set(es) | O.KeyBefore(a, b) && O.KeyBefore(b, c)
      ensures O.KeyBefore(a, c)
    {
      O.KeyLessTransitive(a.key, b.key, c.key);
    }
  }

  /** JSON_SORT_KEYS lists the keys of an object strictly ascending. */
  lemma SortsKeys(es: seq<Entry>, c: Contents)
    requires Collected(es, c)
    ensures var keys := KeysOf(O.Sort(es, O.KeyBefore));
            && |keys| == |c| && (forall k :: k in keys <==> k in c)
            && forall i, j :: 0 <= i < j < |keys| ==> O.KeyLess(keys[i], keys[j])
  {
    hide O.Sort, O.Orders, O.KeyLess;
    KeysOrdered(es);
    O.SortAscends(es, O.KeyBefore);
    var r := O.Sort(es, O.KeyBefore);
    ListsAll(es, r, c);
    forall i, j | 0 <= i < j < |r|
      ensures O.KeyLess(KeysOf(r)[i], KeysOf(r)[j])
    {
      assert O.KeyBefore(r[i], r[j]);
    }
  }
}
