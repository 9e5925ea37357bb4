/**
  JSON values as trees, json_object_set on them, and json_equal (value.c).
 */
module Values {
  import opened Bytes

  /** An object lists its entries in iteration order; the serial tells when a key was set. */
  datatype Value =
    | Null | True | False
    | Integer(n: int)
    | Real(text: bytes)
    | String(text: bytes)
    | Array(items: seq<Value>)
    | Object(entries: seq<Entry>)

  datatype Entry = Entry(key: bytes, serial: nat, value: Value)

  // ----------------------------------------------------------------- objects

  /** Where a key is stored, or -1. */
  function Find(es: seq<Entry>, key: bytes): (i: int)
    ensures -1 <= i < |es|
    ensures i >= 0 ==> es[i].key == key
    ensures i < 0 ==> forall j :: 0 <= j < |es| ==> es[j].key != key
  {
    if es == [] then -1
    else if es[0].key == key then 0
    else
      var i := Find(es[1..], key);
      assert forall j :: 1 <= j < |es| ==> es[j] == es[1..][j-1];
      if i < 0 then -1 else i + 1
  }

  predicate DistinctKeys(es: seq<Entry>) {
    forall i, j :: 0 <= i < j < |es| ==> es[i].key != es[j].key
  }

  /** json_object_set: a key that is present keeps its place and its serial. */
  function Set(es: seq<Entry>, serial: nat, key: bytes, value: Value): (r: seq<Entry>)
    ensures DistinctKeys(es) ==> DistinctKeys(r)
  {
    var i := Find(es, key);
    if i >= 0 then es[i := Entry(key, es[i].serial, value)] else es + [Entry(key, serial, value)]
  }

  /** After setting a key it holds the value, under its old serial if it had one and the new
      one otherwise; all other entries stay where they are. */
  lemma SetStores(es: seq<Entry>, serial: nat, key: bytes, value: Value)
    ensures var r := Set(es, serial, key, value);
            && |es| <= |r| <= |es| + 1 && (|r| == |es| <==> exists i :: 0 <= i < |es| && es[i].key == key)
            && (forall i :: 0 <= i < |es| && es[i].key != key ==> r[i] == es[i])
            && (forall i :: 0 <= i < |es| ==> r[i].key == es[i].key && r[i].serial == es[i].serial)
            && (|r| > |es| ==> r[|es|] == Entry(key, serial, value))
            && (DistinctKeys(es) ==> forall i :: 0 <= i < |r| && r[i].key == key ==> r[i].value == value)
  {
    var i := Find(es, key);
    if i >= 0 {
      assert es[i].key == key;
    }
  }

  /** No object repeats a key. */
  predicate WellFormed(v: Value) {
    match v
    case Array(items) => forall i :: 0 <= i < |items| ==> WellFormed(items[i])
    case Object(es) => DistinctKeys(es) && forall i :: 0 <= i < |es| ==> WellFormed(es[i].value)
    case _ => true
  }

  // ---------------------------------------------------------------- equality

  /** A value with iteration order and serials forgotten: objects are finite maps. */
  datatype Plain =
    | PNull | PTrue | PFalse
    | PInteger(n: int) | PReal(text: bytes) | PString(text: bytes)
    | PArray(items: seq<Plain>)
    | PObject(members: map<bytes, Plain>)

  function Forget(v: Value): Plain {
    match v
    case Null => PNull
    case True => PTrue
    case False => PFalse
    case Integer(n) => PInteger(n)
    case Real(t) => PReal(t)
    case String(t) => PString(t)
    case Array(items) => PArray(seq(|items|, i requires 0 <= i < |items| => Forget(items[i])))
    case Object(es) => PObject(map k <- KeySet(es) :: Forget(At(es, k)))
  }

  /** What json_equal is to find out: the same kind and contents, elements in the same order,
      and the same values under the same keys. */
  predicate SameValue(a: Value, b: Value) {
    match (a, b)
    case (Null, Null) => true
    case (True, True) => true
    case (False, False) => true
    case (Integer(m), Integer(n)) => m == n
    case (Real(s), Real(t)) => s == t
    case (String(s), String(t)) => s == t
    case (Array(xs), Array(ys)) => |xs| == |ys| && forall i :: 0 <= i < |xs| ==> SameValue(xs[i], ys[i])
    case (Object(es), Object(fs)) =>
      KeySet(es) == KeySet(fs) && forall e <- es, f <- fs :: e.key == f.key ==> SameValue(e.value, f.value)
    case (_, _) => false
  }

  function KeySet(es: seq<Entry>): set<bytes> { set e <- es :: e.key }

  /** json_object_get on a key that is present. */
  function At(es: seq<Entry>, key: bytes): (v: Value)
    requires key in KeySet(es)
    ensures exists i :: 0 <= i < |es| && v == es[i].value
    ensures v < Object(es)
  {
    es[Find(es, key)].value
  }

  function Get(es: seq<Entry>, key: bytes): Option<Value> {
    if key in KeySet(es) then Some(At(es, key)) else None
  }

  lemma FindIs(es: seq<Entry>, i: nat)
    requires DistinctKeys(es) && i < |es|
    ensures es[i].key in KeySet(es) && At(es, es[i].key) == es[i].value
  {
    assert es[i] in es;
    var j := Find(es, es[i].key);
    assert j == i;
  }

  /** json_object_get after json_object_set. */
  lemma SetGets(es: seq<Entry>, serial: nat, key: bytes, value: Value)
    requires DistinctKeys(es)
    ensures var r := Set(es, serial, key, value);
            DistinctKeys(r) && Get(r, key) == Some(value) && forall k :: k != key ==> Get(r, k) == Get(es, k)
  {
    var r := Set(es, serial, key, value);
    SetStores(es, serial, key, value);
    hide Set;
    forall k
      ensures k == key ==> Get(r, k) == Some(value)
      ensures k != key ==> Get(r, k) == Get(es, k)
    {
      Found(r, k);
      Found(es, k);
      hide Get;
      if k == key {
        assert Find(es, k) >= 0 || r[|es|].key == key;
      }
    }
  }

  /** json_object_get finds the entry of the key, if there is one. */
  lemma Found(es: seq<Entry>, key: bytes)
    ensures Get(es, key) == if Find(es, key) < 0 then None else Some(es[Find(es, key)].value)
  {
    var i := Find(es, key);
    if i >= 0 {
      assert es[i] in es;
    }
  }

  lemma {:induction false} KeyCount(es: seq<Entry>)
    requires DistinctKeys(es)
    ensures |KeySet(es)| == |es|
  {
    if es != [] {
      var rest := es[..|es|-1];
      var last := es[|es|-1];
      KeyCount(rest);
      assert es == rest + [last];
      assert KeySet(es) == KeySet(rest) + {last.key};
      assert last.key !in KeySet(rest);
    }
  }

  lemma {:induction false} SameSize<T>(a: set<T>, b: set<T>)
    requires a <= b && |a| == |b|
    ensures a == b
  {
    assert |b - a| == |b| - |a|;
  }

  /** What forgetting the order keeps: the kind of a value and all its contents. */
  lemma ForgetTells(a: Value, b: Value)
    requires WellFormed(a) && WellFormed(b)
    ensures Forget(a) == Forget(b) ==> (a.Null? <==> b.Null?) && (a.True? <==> b.True?) && (a.False? <==> b.False?)
    ensures Forget(a) == Forget(b) ==> (a.Integer? <==> b.Integer?) && (a.Real? <==> b.Real?) && (a.String? <==> b.String?)
    ensures Forget(a) == Forget(b) ==> (a.Array? <==> b.Array?) && (a.Object? <==> b.Object?)
    ensures a.Integer? && b.Integer? ==> (Forget(a) == Forget(b) <==> a.n == b.n)
    ensures a.Real? && b.Real? ==> (Forget(a) == Forget(b) <==> a.text == b.text)
    ensures a.String? && b.String? ==> (Forget(a) == Forget(b) <==> a.text == b.text)
    ensures (a.Null? && b.Null?) || (a.True? && b.True?) || (a.False? && b.False?) ==> Forget(a) == Forget(b)
    ensures a.Array? && b.Array? ==>
              (Forget(a) == Forget(b) <==>
               |a.items| == |b.items| && forall i :: 0 <= i < |a.items| ==> Forget(a.items[i]) == Forget(b.items[i]))
    ensures a.Object? && b.Object? ==>
              (Forget(a) == Forget(b) <==>
               && KeySet(a.entries) == KeySet(b.entries)
               && forall e <- a.entries, f <- b.entries :: e.key == f.key ==> Forget(e.value) == Forget(f.value))
  {
    if a.Array? && b.Array? {
      ItemsTell(a.items, b.items);
    } else if a.Object? && b.Object? {
      EntriesTell(a.entries, b.entries);
    }
  }

  lemma ItemsTell(xs: seq<Value>, ys: seq<Value>)
    ensures Forget(Array(xs)) == Forget(Array(ys)) <==>
            |xs| == |ys| && forall i :: 0 <= i < |xs| ==> Forget(xs[i]) == Forget(ys[i])
  {
    var fx, fy := Forget(Array(xs)).items, Forget(Array(ys)).items;
    assert forall i :: 0 <= i < |xs| ==> fx[i] == Forget(xs[i]);
    assert forall i :: 0 <= i < |ys| ==> fy[i] == Forget(ys[i]);
  }

  lemma EntriesTell(es: seq<Entry>, fs: seq<Entry>)
    requires DistinctKeys(es) && DistinctKeys(fs)
    ensures Forget(Object(es)) == Forget(Object(fs)) <==>
            KeySet(es) == KeySet(fs) && forall e <- es, f <- fs :: e.key == f.key ==> Forget(e.value) == Forget(f.value)
  {
    if Forget(Object(es)) == Forget(Object(fs)) {
      forall e <- es, f <- fs | e.key == f.key
        ensures Forget(e.value) == Forget(f.value)
      {
        HeldUnder(es, e);
        HeldUnder(fs, f);
      }
      Members(es);
      Members(fs);
    } else if KeySet(es) == KeySet(fs) {
      var k := ValuesDiffer(es, fs);
      var e :| e in es && e.key == k;
      var f :| f in fs && f.key == k;
      HeldUnder(es, e);
      HeldUnder(fs, f);
    }
  }

  lemma ValuesDiffer(es: seq<Entry>, fs: seq<Entry>) returns (k: bytes)
    requires KeySet(es) == KeySet(fs) && Forget(Object(es)) != Forget(Object(fs))
    ensures k in KeySet(es) && Forget(Object(es)).members[k] != Forget(Object(fs)).members[k]
  {
    Members(es);
    Members(fs);
    var m, n := Forget(Object(es)).members, Forget(Object(fs)).members;
    assert Forget(Object(es)) == PObject(m) && Forget(Object(fs)) == PObject(n);
    hide Forget, KeySet;
    if forall k :: k in m ==> m[k] == n[k] {
      SameMap(m, n);
    }
    k :| k in m && m[k] != n[k];
  }

  lemma HeldUnder(es: seq<Entry>, e: Entry)
    requires DistinctKeys(es) && e in es
    ensures e.key in KeySet(es) && At(es, e.key) == e.value && Forget(Object(es)).members[e.key] == Forget(e.value)
  {
    var i :| 0 <= i < |es| && es[i] == e;
    FindIs(es, i);
    Members(es);
  }

  /** Being the same is having the same plain value. */
  lemma {:induction false} SameIsForget(a: Value, b: Value)
    requires WellFormed(a) && WellFormed(b)
    ensures SameValue(a, b) <==> Forget(a) == Forget(b)
  {
    ForgetTells(a, b);
    if a.Array? && b.Array? && |a.items| == |b.items| {
      forall i | 0 <= i < |a.items|
        ensures SameValue(a.items[i], b.items[i]) <==> Forget(a.items[i]) == Forget(b.items[i])
      {
        SameIsForget(a.items[i], b.items[i]);
      }
    } else if a.Object? && b.Object? {
      forall e <- a.entries, f <- b.entries
        ensures SameValue(e.value, f.value) <==> Forget(e.value) == Forget(f.value)
      {
        var i :| 0 <= i < |a.entries| && a.entries[i] == e;
        var j :| 0 <= j < |b.entries| && b.entries[j] == f;
        SameIsForget(a.entries[i].value, b.entries[j].value);
      }
    }
  }

  /** json_equal answers whether two values are the same once iteration order and
      serials are forgotten. */
  method JsonEqual(a: Value, b: Value) returns (r: bool)
    requires WellFormed(a) && WellFormed(b)
    ensures r <==> SameValue(a, b)
    ensures r <==> Forget(a) == Forget(b)
    decreases a, 1
  {
    SameIsForget(a, b);
    hide SameValue;
    match (a, b) {
      case (Null, Null) => return true;
      case (True, True) => return true;
      case (False, False) => return true;
      case (Object(es), Object(fs)) => r := ObjectEqual(es, fs);
      case (Array(xs), Array(ys)) => r := ArrayEqual(xs, ys);
      case (String(s), String(t)) => return s == t;
      case (Integer(m), Integer(n)) => return m == n;
      case (Real(s), Real(t)) => return s == t;
      case (_, _) => return false;
    }
  }

  method ArrayEqual(xs: seq<Value>, ys: seq<Value>) returns (r: bool)
    requires WellFormed(Array(xs)) && WellFormed(Array(ys))
    ensures r <==> Forget(Array(xs)) == Forget(Array(ys))
    decreases Array(xs), 0
  {
    var fx, fy := Forget(Array(xs)).items, Forget(Array(ys)).items;
    if |xs| != |ys| {
      assert |fx| != |fy|;
      return false;
    }
    for i := 0 to |xs|
      invariant fx[..i] == fy[..i]
    {
      var eq := JsonEqual(xs[i], ys[i]);
      assert fx[i] == Forget(xs[i]) && fy[i] == Forget(ys[i]);
      if !eq {
        return false;
      }
    }
    assert fx[..|xs|] == fx && fy[..|xs|] == fy;
    return true;
  }

  lemma Members(es: seq<Entry>)
    ensures Forget(Object(es)).members.Keys == KeySet(es)
    ensures forall k :: k in KeySet(es) ==> Forget(Object(es)).members[k] == Forget(At(es, k))
  {
  }

  /** One entry of an object is matched in another. */
  predicate Matched(e: Entry, fs: seq<Entry>) {
    e.key in KeySet(fs) && Forget(e.value) == Forget(At(fs, e.key))
  }

  lemma MatchedKey(es: seq<Entry>, fs: seq<Entry>, k: bytes)
    requires DistinctKeys(es) && k in KeySet(es)
    requires forall i :: 0 <= i < |es| ==> Matched(es[i], fs)
    ensures k in KeySet(fs) && Forget(At(es, k)) == Forget(At(fs, k))
  {
    var e :| e in es && e.key == k;
    var j :| 0 <= j < |es| && es[j] == e;
    FindIs(es, j);
    assert Matched(es[j], fs);
  }

  lemma SameMap<K, V>(m: map<K, V>, n: map<K, V>)
    requires m.Keys == n.Keys && forall k :: k in m ==> m[k] == n[k]
    ensures m == n
  {
  }

  /** Inclusion and equal size make two objects the same map. */
  lemma ObjectsSame(es: seq<Entry>, fs: seq<Entry>)
    requires DistinctKeys(es) && DistinctKeys(fs) && |es| == |fs|
    requires forall i :: 0 <= i < |es| ==> Matched(es[i], fs)
    ensures Forget(Object(es)) == Forget(Object(fs))
  {
    var m, n := Forget(Object(es)).members, Forget(Object(fs)).members;
    assert m.Keys == KeySet(es) && n.Keys == KeySet(fs);
    forall k | k in KeySet(es)
      ensures k in KeySet(fs) && m[k] == n[k]
    {
      MatchedKey(es, fs, k);
      Members(es);
      Members(fs);
    }
    KeyCount(es);
    KeyCount(fs);
    SameSize(m.Keys, n.Keys);
    SameMap(m, n);
  }

  lemma ObjectsDiffer(es: seq<Entry>, fs: seq<Entry>, i: nat)
    requires DistinctKeys(es) && DistinctKeys(fs)
    requires |es| != |fs| || (i < |es| && !Matched(es[i], fs))
    ensures Forget(Object(es)) != Forget(Object(fs))
  {
    Members(es);
    Members(fs);
    KeyCount(es);
    KeyCount(fs);
    if |es| == |fs| {
      FindIs(es, i);
    }
  }

  method ObjectEqual(es: seq<Entry>, fs: seq<Entry>) returns (r: bool)
    requires WellFormed(Object(es)) && WellFormed(Object(fs))
    ensures r <==> Forget(Object(es)) == Forget(Object(fs))
    decreases Object(es), 0
  {
    if |es| != |fs| {
      ObjectsDiffer(es, fs, 0);
      return false;
    }
    for i := 0 to |es|
      invariant forall j :: 0 <= j < i ==> Matched(es[j], fs)
    {
      if es[i].key !in KeySet(fs) {
        ObjectsDiffer(es, fs, i);
        return false;
      }
      var eq := JsonEqual(es[i].value, At(fs, es[i].key));
      if !eq {
        ObjectsDiffer(es, fs, i);
        return false;
      }
    }
    ObjectsSame(es, fs);
    return true;
  }
}
