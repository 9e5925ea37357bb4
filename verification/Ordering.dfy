/**
  The order in which do_dump lists an object's keys: the comparison functions it
  hands to qsort, and what sorting with them yields.
 */
module Ordering {
  import opened Bytes
  import opened Values

  /** strcmp(a, b) < 0, for NUL-free keys. */
  predicate KeyLess(a: bytes, b: bytes) {
    if b == [] then false
    else if a == [] then true
    else a[0] < b[0] || (a[0] == b[0] && KeyLess(a[1..], b[1..]))
  }

  lemma {:induction false} KeyLessTotal(a: bytes, b: bytes)
    ensures KeyLess(a, b) || a == b || KeyLess(b, a)
    ensures !(KeyLess(a, b) && KeyLess(b, a)) && !KeyLess(a, a)
  {
    if a != [] && b != [] {
      KeyLessTotal(a[1..], b[1..]);
      KeyLessTotal(a[1..], a[1..]);
      assert a == [a[0]] + a[1..] && b == [b[0]] + b[1..];
    } else if a != [] {
      KeyLessTotal(a[1..], a[1..]);
    }
  }

  /** Two keys part at position i, where the first one ends or has the smaller byte. */
  predicate Parts(a: bytes, b: bytes, i: nat) {
    i <= |a| && i < |b| && a[..i] == b[..i] && (i == |a| || a[i] < b[i])
  }

  /** The first byte in which two keys differ decides; a key comes before those it is a
      prefix of. */
  lemma {:induction false} KeyLessParts(a: bytes, b: bytes)
    ensures KeyLess(a, b) <==> exists i: nat :: Parts(a, b, i)
  {
    if b != [] && (a == [] || a[0] < b[0]) {
      assert Parts(a, b, 0);
    } else if a != [] && b != [] && a[0] == b[0] {
      KeyLessParts(a[1..], b[1..]);
      if i: nat :| Parts(a[1..], b[1..], i) {
        PartsLater(a, b, i);
      }
      if i: nat :| Parts(a, b, i) {
        PartsLater(a, b, i - 1);
      }
    } else {
      forall i: nat
        ensures Parts(a, b, i) && i > 0 ==> a[0] == b[0]
      {
        PartsFirst(a, b, i);
      }
    }
  }

  lemma PartsFirst(a: bytes, b: bytes, i: nat)
    ensures Parts(a, b, i) && i > 0 ==> a[0] == b[0]
  {
    if Parts(a, b, i) && i > 0 {
      assert a[..i][0] == b[..i][0];
    }
  }

  lemma PartsLater(a: bytes, b: bytes, i: nat)
    requires a != [] && b != [] && a[0] == b[0]
    ensures Parts(a, b, i + 1) <==> Parts(a[1..], b[1..], i)
  {
    if i + 1 <= |a| && i + 1 < |b| {
      assert a[..i+1] == [a[0]] + a[1..][..i] && b[..i+1] == [b[0]] + b[1..][..i];
      assert a[..i+1][1..] == a[1..][..i] && b[..i+1][1..] == b[1..][..i];
    }
  }

  lemma {:induction false} KeyLessTransitive(a: bytes, b: bytes, c: bytes)
    requires KeyLess(a, b) && KeyLess(b, c)
    ensures KeyLess(a, c)
  {
    if a != [] && a[0] == b[0] == c[0] {
      KeyLessTransitive(a[1..], b[1..], c[1..]);
    }
  }

  /** object_key_compare_serials: a size_t difference returned as an int. */
  function CompareSerials(a: nat, b: nat): (c: int)
    ensures -0x8000_0000 <= c < 0x8000_0000
  {
    var d := (a - b) % 0x1_0000_0000;
    if d < 0x8000_0000 then d else d - 0x1_0000_0000
  }

  /** The comparison is the difference of the serials exactly when that fits an int. */
  lemma CompareSerialsExact(a: nat, b: nat)
    ensures CompareSerials(a, b) == a - b <==> -0x8000_0000 <= a - b < 0x8000_0000
  {
  }

  /** Serials 2^31 apart are ordered the wrong way round. */
  lemma CompareSerialsWraps()
    ensures CompareSerials(0x8000_0000, 0) < 0
  {
  }

  predicate KeyBefore(a: Entry, b: Entry) { KeyLess(a.key, b.key) }

  predicate SerialBefore(a: Entry, b: Entry) { CompareSerials(a.serial, b.serial) < 0 }

  // -------------------------------------------------------------------- sorting

  function Insert(e: Entry, es: seq<Entry>, before: (Entry, Entry) -> bool): (r: seq<Entry>)
    ensures multiset(r) == multiset(es) + multiset{e}
  {
    if es == [] then [e]
    else if before(es[0], e) then
      assert es == [es[0]] + es[1..];
      [es[0]] + Insert(e, es[1..], before)
    else [e] + es
  }

  /** qsort: some permutation; ordered whenever the comparison allows it. */
  function Sort(es: seq<Entry>, before: (Entry, Entry) -> bool): (r: seq<Entry>)
    ensures multiset(r) == multiset(es)
  {
    if es == [] then []
    else
      assert es == [es[0]] + es[1..];
      Insert(es[0], Sort(es[1..], before), before)
  }

  predicate Ascending(es: seq<Entry>, before: (Entry, Entry) -> bool) {
    forall i, j :: 0 <= i < j < |es| ==> before(es[i], es[j])
  }

  /** `before` orders the entries of a set strictly and totally. */
  ghost predicate Orders(s: set<Entry>, before: (Entry, Entry) -> bool) {
    && (forall a <- s, b <- s :: a != b ==> before(a, b) || before(b, a))
    && (forall a <- s, b <- s :: !(before(a, b) && before(b, a)))
    && (forall a <- s, b <- s, c <- s :: before(a, b) && before(b, c) ==> before(a, c))
  }

  ghost function Set(es: seq<Entry>): set<Entry> { set e | e in es }

  lemma AscendCons(x: Entry, s: seq<Entry>, before: (Entry, Entry) -> bool)
    requires Ascending(s, before) && forall y <- s :: before(x, y)
    ensures Ascending([x] + s, before)
  {
    var r := [x] + s;
    forall i, j | 0 <= i < j < |r|
      ensures before(r[i], r[j])
    {
      assert r[j] == s[j-1] && r[j] in s;
      assert i > 0 ==> r[i] == s[i-1];
    }
  }

  lemma AscendTail(s: seq<Entry>, before: (Entry, Entry) -> bool)
    requires s != [] && Ascending(s, before)
    ensures Ascending(s[1..], before) && forall y <- s[1..] :: before(s[0], y)
  {
    assert forall j :: 0 <= j < |s| - 1 ==> s[1..][j] == s[j+1];
  }

  lemma InsertMembers(e: Entry, es: seq<Entry>, before: (Entry, Entry) -> bool)
    ensures forall x :: x in Insert(e, es, before) <==> x == e || x in es
  {
    var r := Insert(e, es, before);
    assert forall x :: x in r <==> x in multiset(r);
  }

  lemma {:induction false} InsertAscends(e: Entry, es: seq<Entry>, before: (Entry, Entry) -> bool)
    requires Ascending(es, before) && e !in es && Orders(Set(es) + {e}, before)
    ensures Ascending(Insert(e, es, before), before)
  {
    if es == [] {
    } else {
      var x, t := es[0], es[1..];
      AscendTail(es, before);
      assert Set(t) + {e} <= Set(es) + {e} && x in Set(es);
      if before(x, e) {
        InsertAscends(e, t, before);
        InsertMembers(e, t, before);
        AscendCons(x, Insert(e, t, before), before);
      } else {
        assert before(e, x);
        forall y | y in es
          ensures before(e, y)
        {
          assert y in Set(es) && (y == x || y in t);
        }
        AscendCons(e, es, before);
      }
    }
  }

  /** With a strict total order on distinct entries, sorting puts them in that order. */
  lemma {:induction false} SortAscends(es: seq<Entry>, before: (Entry, Entry) -> bool)
    requires Orders(Set(es), before) && forall i, j :: 0 <= i < j < |es| ==> es[i] != es[j]
    ensures Ascending(Sort(es, before), before)
    ensures forall x :: x in Sort(es, before) <==> x in es
  {
    if es != [] {
      assert Set(es[1..]) <= Set(es);
      SortAscends(es[1..], before);
      var s := Sort(es[1..], before);
      assert es[0] !in es[1..];
      assert Set(s) + {es[0]} == Set(es);
      InsertAscends(es[0], s, before);
      InsertMembers(es[0], s, before);
    }
  }

  /** There is only one such order, so it does not matter how qsort finds it. */
  lemma {:induction false} AscendingUnique(s: seq<Entry>, t: seq<Entry>, before: (Entry, Entry) -> bool)
    requires Ascending(s, before) && Ascending(t, before) && multiset(s) == multiset(t) && Orders(Set(s), before)
    ensures s == t
  {
    if s == [] {
      assert |multiset(t)| == 0;
    } else {
      assert |multiset(s)| == |multiset(t)|;
      SameHead(s, t, before);
      TailMultiset(s);
      TailMultiset(t);
      AscendTail(s, before);
      AscendTail(t, before);
      assert Set(s[1..]) <= Set(s);
      hide Ascending;
      AscendingUnique(s[1..], t[1..], before);
    }
  }

  lemma TailMultiset<T>(s: seq<T>)
    requires s != []
    ensures s == [s[0]] + s[1..] && multiset(s[1..]) == multiset(s) - multiset{s[0]}
  {
    assert s == [s[0]] + s[1..];
  }

  lemma SameHead(s: seq<Entry>, t: seq<Entry>, before: (Entry, Entry) -> bool)
    requires Ascending(s, before) && Ascending(t, before) && multiset(s) == multiset(t) && Orders(Set(s), before)
    requires s != [] && t != []
    ensures s[0] == t[0]
  {
    assert s[0] in multiset(t) && t[0] in multiset(s);
    var i :| 0 <= i < |t| && t[i] == s[0];
    var j :| 0 <= j < |s| && s[j] == t[0];
    assert s[0] in Set(s) && t[0] in Set(s);
  }
}
