/**
  Printing and parsing undo each other: for every value and all dump flags.
 */
module RoundTrip {
  import opened Bytes
  import opened Values
  import opened Printing
  import Utf8
  import O = Ordering
  import G = Grammar
  import S = Scanning
  import P = Parsing
  import M = Meaning

  // ------------------------------------------------------ the tree of a dump

  lemma KeyPrinted(t: bytes, ascii: bool)
    requires M.GoodText(t)
    ensures G.StrOk(PrintUnits(t, ascii)) && G.KeyOf(PrintUnits(t, ascii)) == t
  {
    PrintFine(t, ascii);
    PrintDecodes(t, ascii);
  }

  lemma {:induction false} SynOfOk(v: Value, fl: Flags, depth: nat)
    requires Printable(v)
    ensures G.SynOk(SynOf(v, fl, depth))
    decreases v, 0
  {
    match v
    case Integer(n) =>
      NumOfValue(n);
    case Real(t) =>
      S.ScanNumSound(t);
    case String(t) =>
      KeyPrinted(t, fl.ascii);
    case Array(items) =>
      if items != [] {
        SynOfOk(items[0], fl, depth + 1);
        ElemsOfOk(items[1..], fl, depth);
      }
    case Object(es) =>
      if es != [] {
        MemberOfOk(Indent(fl, depth + 1, false), es[0], fl, depth);
        MembersOfOk(es[1..], fl, depth);
      }
    case _ =>
  }

  lemma {:induction false} ElemsOfOk(items: seq<Value>, fl: Flags, depth: nat)
    requires forall i :: 0 <= i < |items| ==> Printable(items[i])
    ensures G.ElemsOk(ElemsOf(items, fl, depth))
    decreases items, 1
  {
    if items != [] {
      SynOfOk(items[0], fl, depth + 1);
      ElemsOfOk(items[1..], fl, depth);
    }
  }

  lemma {:induction false} MemberOfOk(w: bytes, e: Entry, fl: Flags, depth: nat)
    requires G.AllSpace(w) && M.GoodText(e.key) && Printable(e.value)
    ensures G.MemberOk(MemberOf(w, e, fl, depth))
    decreases e, 1
  {
    KeyPrinted(e.key, fl.ascii);
    SynOfOk(e.value, fl, depth + 1);
  }

  lemma {:induction false} MembersOfOk(es: seq<Entry>, fl: Flags, depth: nat)
    requires forall i :: 0 <= i < |es| ==> M.GoodText(es[i].key) && Printable(es[i].value)
    ensures G.MembersOk(MembersOf(es, fl, depth))
    decreases es, 1
  {
    if es != [] {
      MemberOfOk(Indent(fl, depth + 1, true), es[0], fl, depth);
      MembersOfOk(es[1..], fl, depth);
    }
  }

  lemma {:induction false} SynOfUnique(v: Value, fl: Flags, depth: nat)
    requires Printable(v) && WellFormed(v)
    ensures G.UniqueKeys(SynOf(v, fl, depth))
    decreases v, 0
  {
    match v
    case Array(items) =>
      if items != [] {
        SynOfUnique(items[0], fl, depth + 1);
        ElemsOfUnique(items[1..], fl, depth);
      }
    case Object(es) =>
      if es != [] {
        SynOfUnique(es[0].value, fl, depth + 1);
        KeyPrinted(es[0].key, fl.ascii);
        MembersOfUnique(es[1..], fl, depth, {es[0].key});
      }
    case _ =>
  }

  lemma {:induction false} ElemsOfUnique(items: seq<Value>, fl: Flags, depth: nat)
    requires forall i :: 0 <= i < |items| ==> Printable(items[i]) && WellFormed(items[i])
    ensures G.UniqueInElems(ElemsOf(items, fl, depth))
    decreases items, 1
  {
    if items != [] {
      SynOfUnique(items[0], fl, depth + 1);
      ElemsOfUnique(items[1..], fl, depth);
    }
  }

  lemma {:induction false} MembersOfUnique(es: seq<Entry>, fl: Flags, depth: nat, keys: set<bytes>)
    requires forall i :: 0 <= i < |es| ==> M.GoodText(es[i].key) && Printable(es[i].value) && WellFormed(es[i].value)
    requires DistinctKeys(es) && forall i :: 0 <= i < |es| ==> es[i].key !in keys
    ensures G.UniqueInMembers(MembersOf(es, fl, depth), keys)
    decreases es, 1
  {
    if es != [] {
      KeyPrinted(es[0].key, fl.ascii);
      SynOfUnique(es[0].value, fl, depth + 1);
      MembersOfUnique(es[1..], fl, depth, keys + {es[0].key});
    }
  }

  // -------------------------------------------------------------- its meaning

  /** Lists of entries with the same keys in the same places and the same plain values. */
  predicate Alike(es: seq<Entry>, fs: seq<Entry>) {
    |es| == |fs| && forall i :: 0 <= i < |es| ==> es[i].key == fs[i].key && Forget(es[i].value) == Forget(fs[i].value)
  }

  lemma AlikeObjects(es: seq<Entry>, fs: seq<Entry>)
    requires DistinctKeys(es) && DistinctKeys(fs) && Alike(es, fs)
    ensures Forget(Object(es)) == Forget(Object(fs))
  {
    forall i | 0 <= i < |es|
      ensures Matched(es[i], fs)
    {
      FindIs(fs, i);
    }
    ObjectsSame(es, fs);
  }

  predicate AlikeItems(xs: seq<Value>, ys: seq<Value>) {
    |xs| == |ys| && forall i :: 0 <= i < |xs| ==> Forget(xs[i]) == Forget(ys[i])
  }

  lemma AlikeArrays(xs: seq<Value>, ys: seq<Value>)
    requires AlikeItems(xs, ys)
    ensures Forget(Array(xs)) == Forget(Array(ys))
  {
  }

  lemma {:induction false} SynOfMeans(v: Value, fl: Flags, depth: nat)
    requires Printable(v) && WellFormed(v)
    ensures Forget(M.ValueOf(SynOf(v, fl, depth))) == Forget(v)
    decreases v, 0
  {
    match v
    case Integer(n) =>
      NumOfValue(n);
    case Real(t) =>
      RealMeans(t, fl, depth);
    case String(t) =>
      KeyPrinted(t, fl.ascii);
    case Array(items) =>
      if items != [] {
        ArrayMeans(items, fl, depth);
      }
    case Object(es) =>
      if es != [] {
        ObjectMeans(es, fl, depth);
      }
    case _ =>
  }

  lemma RealMeans(t: bytes, fl: Flags, depth: nat)
    requires Printable(Real(t))
    ensures M.ValueOf(SynOf(Real(t), fl, depth)) == Real(t)
  {
    hide S.ScanNum, G.NumText, G.NumOk, G.Overflows;
    S.ScanNumSound(t);
    var n := S.ScanNum(t).value.0;
    assert G.NumText(n) + [] == G.NumText(n);
  }

  lemma {:induction false} ArrayMeans(items: seq<Value>, fl: Flags, depth: nat)
    requires items != [] && Printable(Array(items)) && WellFormed(Array(items))
    ensures Forget(M.ValueOf(SynOf(Array(items), fl, depth))) == Forget(Array(items))
    decreases items, 2
  {
    SynOfMeans(items[0], fl, depth + 1);
    var first := M.ValueOf(SynOf(items[0], fl, depth + 1));
    var r := M.ElemValues([first], ElemsOf(items[1..], fl, depth));
    assert M.ValueOf(SynOf(Array(items), fl, depth)) == Array(r);
    hide M.ValueOf, SynOf, Forget, M.ElemValues, ElemsOf, Printable, WellFormed;
    assert items[..1] + items[1..] == items;
    ElemsOfMean([first], items[..1], items[1..], fl, depth);
    AlikeArrays(r, items);
  }

  lemma Shift<T>(a: seq<T>, b: seq<T>)
    requires b != []
    ensures (a + [b[0]]) + b[1..] == a + b
  {
  }

  lemma {:induction false} ElemsOfMean(acc: seq<Value>, seen: seq<Value>, items: seq<Value>, fl: Flags, depth: nat)
    requires forall i :: 0 <= i < |items| ==> Printable(items[i]) && WellFormed(items[i])
    requires AlikeItems(acc, seen)
    ensures AlikeItems(M.ElemValues(acc, ElemsOf(items, fl, depth)), seen + items)
    decreases items, 1
  {
    hide Printable, WellFormed, M.ValueOf, SynOf, Forget;
    if items == [] {
      assert seen + items == seen;
    } else {
      SynOfMeans(items[0], fl, depth + 1);
      var x := M.ValueOf(SynOf(items[0], fl, depth + 1));
      ElemsOfMean(acc + [x], seen + [items[0]], items[1..], fl, depth);
      Shift(seen, items);
    }
  }

  /** The first member meets no key before it. */
  lemma ObjectIs(es: seq<Entry>, fl: Flags, depth: nat)
    requires es != [] && Printable(Object(es))
    ensures var acc := [Entry(es[0].key, 0, M.ValueOf(SynOf(es[0].value, fl, depth + 1)))];
            M.ValueOf(SynOf(Object(es), fl, depth)) == Object(M.MemberValues(acc, 1, MembersOf(es[1..], fl, depth)))
  {
    hide M.GoodText, G.KeyOf;
    KeyPrinted(es[0].key, fl.ascii);
    hide Printable;
    assert Values.Set([], 0, es[0].key, M.ValueOf(SynOf(es[0].value, fl, depth + 1))) == [Entry(es[0].key, 0, M.ValueOf(SynOf(es[0].value, fl, depth + 1)))];
  }

  lemma {:induction false} ObjectMeans(es: seq<Entry>, fl: Flags, depth: nat)
    requires es != [] && Printable(Object(es)) && WellFormed(Object(es))
    ensures Forget(M.ValueOf(SynOf(Object(es), fl, depth))) == Forget(Object(es))
    decreases es, 2
  {
    hide M.GoodText, M.ValueOf, SynOf, Forget, M.MemberValues, MembersOf;
    ObjectIs(es, fl, depth);
    SynOfMeans(es[0].value, fl, depth + 1);
    var acc := [Entry(es[0].key, 0, M.ValueOf(SynOf(es[0].value, fl, depth + 1)))];
    var r := M.MemberValues(acc, 1, MembersOf(es[1..], fl, depth));
    assert es[..1] + es[1..] == es;
    MembersOfMean(acc, es[..1], 1, es[1..], fl, depth);
    AlikeObjects(r, es);
  }

  /** Setting fresh keys one after another appends them. */
  lemma {:induction false} MembersOfMean(acc: seq<Entry>, seen: seq<Entry>, serial: nat, es: seq<Entry>, fl: Flags, depth: nat)
    requires forall i :: 0 <= i < |es| ==> M.GoodText(es[i].key) && Printable(es[i].value) && WellFormed(es[i].value)
    requires Alike(acc, seen) && DistinctKeys(seen + es) && DistinctKeys(acc)
    ensures var r := M.MemberValues(acc, serial, MembersOf(es, fl, depth)); Alike(r, seen + es) && DistinctKeys(r)
    decreases es, 1
  {
    hide M.GoodText, G.KeyOf, Printable, WellFormed, M.ValueOf, SynOf, Forget;
    if es == [] {
      assert seen + es == seen;
    } else {
      var e := es[0];
      KeyPrinted(e.key, fl.ascii);
      SynOfMeans(e.value, fl, depth + 1);
      var value := M.ValueOf(SynOf(e.value, fl, depth + 1));
      Shift(seen, es);
      forall i | 0 <= i < |acc|
        ensures acc[i].key != e.key
      {
        assert (seen + es)[i] == seen[i] && (seen + es)[|seen|] == e;
      }
      assert Values.Set(acc, serial, e.key, value) == acc + [Entry(e.key, serial, value)];
      MembersOfMean(acc + [Entry(e.key, serial, value)], seen + [e], serial + 1, es[1..], fl, depth);
    }
  }

  // ------------------------------------------------------------ dumping order

  /** The order in which do_dump lists an object's entries. */
  function Order(es: seq<Entry>, fl: Flags): (r: seq<Entry>)
    ensures multiset(r) == multiset(es)
  {
    if fl.sortKeys then O.Sort(es, O.KeyBefore)
    else if fl.preserveOrder then O.Sort(es, O.SerialBefore)
    else es
  }

  lemma SameMembers<T>(s: seq<T>, t: seq<T>)
    requires multiset(s) == multiset(t)
    ensures |s| == |t| && (forall x :: x in s <==> x in t)
  {
    assert |multiset(s)| == |multiset(t)|;
    assert forall x :: x in s <==> x in multiset(s);
  }

  /** A value with every object's entries put in dumping order. */
  function Arrange(v: Value, fl: Flags): Value
    decreases v
  {
    match v
    case Array(items) => Array(seq(|items|, i requires 0 <= i < |items| => Arrange(items[i], fl)))
    case Object(es) =>
      var os := Order(es, fl);
      SameMembers(os, es);
      assert forall i :: 0 <= i < |os| ==> os[i] in es;
      Object(seq(|os|, i requires 0 <= i < |os| =>
        assert os[i] in es;
        os[i].(value := Arrange(os[i].value, fl))))
    case _ => v
  }

  lemma OrderDistinct(es: seq<Entry>, fl: Flags)
    requires DistinctKeys(es)
    ensures DistinctKeys(Order(es, fl))
  {
    var os := Order(es, fl);
    SameMembers(os, es);
    forall i, j | 0 <= i < j < |os|
      ensures os[i].key != os[j].key
    {
      if os[i].key == os[j].key {
        assert os[i] in es && os[j] in es;
        assert os[i] == os[j];
        TwiceInMultiset(os, i, j);
        OnceInMultiset(es, os[i]);
      }
    }
  }

  lemma TwiceInMultiset<T>(s: seq<T>, i: nat, j: nat)
    requires i < j < |s| && s[i] == s[j]
    ensures multiset(s)[s[i]] >= 2
  {
    assert s == s[..j] + [s[j]] + s[j+1..];
    assert s[i] in s[..j];
  }

  lemma {:induction false} OnceInMultiset(es: seq<Entry>, e: Entry)
    requires DistinctKeys(es)
    ensures multiset(es)[e] <= 1
  {
    if es != [] {
      OnceInMultiset(es[1..], e);
      assert es == [es[0]] + es[1..];
      assert e == es[0] ==> e !in es[1..];
    }
  }

  lemma {:induction false} ArrangeKeeps(v: Value, fl: Flags)
    requires WellFormed(v)
    ensures WellFormed(Arrange(v, fl)) && Forget(Arrange(v, fl)) == Forget(v)
    ensures Printable(v) ==> Printable(Arrange(v, fl))
    decreases v
  {
    match v
    case Array(items) =>
      var r := Arrange(v, fl).items;
      forall i | 0 <= i < |items|
        ensures WellFormed(r[i]) && Forget(r[i]) == Forget(items[i]) && (Printable(items[i]) ==> Printable(r[i]))
      {
        ArrangeKeeps(items[i], fl);
      }
      AlikeArrays(r, items);
    case Object(es) =>
      forall e | e in es
        ensures WellFormed(Arrange(e.value, fl)) && Forget(Arrange(e.value, fl)) == Forget(e.value)
        ensures Printable(e.value) ==> Printable(Arrange(e.value, fl))
      {
        ArrangeKeeps(e.value, fl);
      }
      ArrangeObject(es, fl);
    case _ =>
  }

  lemma ArrangeObject(es: seq<Entry>, fl: Flags)
    requires WellFormed(Object(es))
    requires forall e <- es :: WellFormed(Arrange(e.value, fl)) && Forget(Arrange(e.value, fl)) == Forget(e.value)
    requires forall e <- es :: Printable(e.value) ==> Printable(Arrange(e.value, fl))
    ensures WellFormed(Arrange(Object(es), fl)) && Forget(Arrange(Object(es), fl)) == Forget(Object(es))
    ensures Printable(Object(es)) ==> Printable(Arrange(Object(es), fl))
  {
    var os := Order(es, fl);
    var r := Arrange(Object(es), fl).entries;
    SameMembers(os, es);
    OrderDistinct(es, fl);
    forall i | 0 <= i < |r|
      ensures r[i].key == os[i].key && os[i] in es && WellFormed(r[i].value) && Matched(r[i], es)
    {
      assert os[i] in es;
      var j :| 0 <= j < |es| && es[j] == os[i];
      FindIs(es, j);
    }
    ObjectsSame(r, es);
    hide Arrange, Order, WellFormed, Forget, Printable;
    if Printable(Object(es)) {
      ArrangePrintable(es, fl);
    }
  }

  lemma ArrangePrintable(es: seq<Entry>, fl: Flags)
    requires Printable(Object(es)) && forall e <- es :: Printable(e.value) ==> Printable(Arrange(e.value, fl))
    ensures Printable(Arrange(Object(es), fl))
  {
    hide M.GoodText;
    var os := Order(es, fl);
    SameMembers(os, es);
    assert forall e <- es :: M.GoodText(e.key) && Printable(e.value);
    assert forall i :: 0 <= i < |os| ==> os[i] in es;
  }

  // --------------------------------------------------------------- round trip

  /** The text json_dumps produces. */
  function DumpText(v: Value, fl: Flags, depth: nat): bytes
    requires Printable(v) && WellFormed(v)
  {
    ArrangeKeeps(v, fl);
    RawText(Arrange(v, fl), fl, depth)
  }

  /** Loading a dumped array or object succeeds and gives back a json_equal value, for all
      dump flags, and with duplicate keys rejected or not. */
  lemma DumpThenLoad(v: Value, fl: Flags, reject: bool)
    requires (v.Array? || v.Object?) && Printable(v) && WellFormed(v)
    ensures var r := P.ParseDoc(DumpText(v, fl, 0), false, reject);
            && r.Ok? && WellFormed(M.ValueOf(r.v.top))
            && SameValue(M.ValueOf(r.v.top), v) && Forget(M.ValueOf(r.v.top)) == Forget(v)
  {
    DumpParses(v, fl, reject);
    SameIsForget(M.ValueOf(P.ParseDoc(DumpText(v, fl, 0), false, reject).v.top), v);
    hide P.ParseDoc, DumpText, SameValue, Forget, WellFormed, M.ValueOf;
  }

  lemma DumpParses(v: Value, fl: Flags, reject: bool)
    requires (v.Array? || v.Object?) && Printable(v) && WellFormed(v)
    ensures var r := P.ParseDoc(DumpText(v, fl, 0), false, reject);
            r.Ok? && WellFormed(M.ValueOf(r.v.top)) && Forget(M.ValueOf(r.v.top)) == Forget(v)
  {
    ArrangeKeeps(v, fl);
    var u := Arrange(v, fl);
    var d := G.Doc([], SynOf(u, fl, 0), []);
    RawTextRenders(u, fl, 0);
    SynOfOk(u, fl, 0);
    SynOfUnique(u, fl, 0);
    SynOfMeans(u, fl, 0);
    M.ValueWellFormed(d.top);
    assert G.RenderDoc(d) == RawText(u, fl, 0);
    P.DocComplete(d, reject);
  }

  // ------------------------------------------------- a dump is valid UTF-8

  lemma {:induction false} AsciiGood(s: bytes)
    requires forall i :: 0 <= i < |s| ==> 0 < s[i] < 0x80
    ensures M.GoodText(s)
  {
    if s != [] {
      assert forall i :: 0 <= i < |s| - 1 ==> s[1..][i] == s[i+1];
      AsciiGood(s[1..]);
      M.GoodByte(s[0]);
      M.GoodConcat([s[0]], s[1..]);
      assert s == [s[0]] + s[1..];
    }
  }

  lemma {:induction false} RawUnitsText(s: bytes)
    ensures G.UnitsText(RawUnits(s)) == s
  {
    if s != [] {
      RawUnitsText(s[1..]);
      assert RawUnits(s)[1..] == RawUnits(s[1..]) && s == [s[0]] + s[1..];
    }
  }

  lemma {:induction false} AsciiText(us: seq<G.Unit>)
    requires FineUnits(us) && AsciiUnits(us)
    ensures M.GoodText(G.UnitsText(us))
  {
    hide M.GoodText;
    if us == [] {
      AsciiGood([]);
    } else {
      AsciiText(us[1..]);
      AsciiGood(G.UnitText(us[0]));
      M.GoodConcat(G.UnitText(us[0]), G.UnitsText(us[1..]));
    }
  }

  lemma EscapeText(cp: int)
    requires Utf8.IsScalar(cp)
    ensures M.GoodText(G.UnitsText(EscapeUnits(cp)))
  {
    FineEscape(cp);
    EscapeAscii(cp);
    AsciiText(EscapeUnits(cp));
  }

  lemma {:induction false} PrintGood(t: bytes, ascii: bool)
    requires M.GoodText(t)
    ensures M.GoodText(G.UnitsText(PrintUnits(t, ascii)))
    decreases |t|
  {
    if t != [] {
      var n := Utf8.Next(t).value;
      var cp := Utf8.CodePoint(t);
      var us := PrintUnits(t[n..], ascii);
      PrintGood(t[n..], ascii);
      if NeedsEscape(cp, ascii) {
        EscapeText(cp);
        G.UnitsTextConcat(EscapeUnits(cp), us);
        M.GoodConcat(G.UnitsText(EscapeUnits(cp)), G.UnitsText(us));
      } else {
        RawUnitsText(t[..n]);
        G.UnitsTextConcat(RawUnits(t[..n]), us);
        FirstGood(t);
        M.GoodConcat(t[..n], G.UnitsText(us));
      }
    }
  }

  lemma FirstGood(t: bytes)
    requires M.GoodText(t) && t != []
    ensures M.GoodText(t[..Utf8.Next(t).value])
  {
    if t[0] >= 0x80 {
      M.WholeSequenceGood(t);
    } else {
      assert t[..1] == [t[0]];
      M.GoodByte(t[0]);
    }
  }

  lemma StringGood(t: bytes, ascii: bool)
    requires M.GoodText(t)
    ensures M.GoodText(StringText(t, ascii))
  {
    PrintGood(t, ascii);
    AsciiGood([QUOTE]);
    M.GoodConcat(G.UnitsText(PrintUnits(t, ascii)), [QUOTE]);
    M.GoodConcat([QUOTE], G.UnitsText(PrintUnits(t, ascii)) + [QUOTE]);
  }

  lemma SpaceGood(w: bytes)
    requires G.AllSpace(w)
    ensures M.GoodText(w)
  {
    assert forall i :: 0 <= i < |w| ==> IsSpace(w[i]);
    AsciiGood(w);
  }

  lemma NumGood(n: G.Num)
    requires G.NumOk(n)
    ensures M.GoodText(G.NumText(n))
  {
    M.NumAscii(n);
    NumNonzero(n);
    AsciiGood(G.NumText(n));
  }

  lemma NumNonzero(n: G.Num)
    requires G.NumOk(n)
    ensures forall i :: 0 <= i < |G.NumText(n)| ==> G.NumText(n)[i] != 0
  {
    DigitsNonzero(n.digits);
    if n.frac.Some? {
      DigitsNonzero(n.frac.value);
    }
    if n.exp.Exponent? {
      DigitsNonzero(n.exp.digits);
    }
    var f, e := G.FracText(n.frac), G.ExpText(n.exp);
    assert forall i :: 0 <= i < |f| ==> f[i] != 0;
    assert forall i :: 0 <= i < |e| ==> e[i] != 0;
    var t := f + e;
    assert forall i :: 0 <= i < |t| ==> t[i] != 0;
  }

  lemma DigitsNonzero(s: bytes)
    requires G.AllDigits(s)
    ensures forall i :: 0 <= i < |s| ==> s[i] != 0
  {
    assert forall i :: 0 <= i < |s| ==> IsDigit(s[i]);
  }

  lemma {:induction false} TextGood(v: Value, fl: Flags, depth: nat)
    requires Printable(v)
    ensures M.GoodText(RawText(v, fl, depth))
    decreases v, 0
  {
    match v
    case Null => AsciiGood(G.WordText(G.Null));
    case True => AsciiGood(G.WordText(G.True));
    case False => AsciiGood(G.WordText(G.False));
    case Integer(n) =>
      NumOfValue(n);
      NumGood(NumOf(n));
    case Real(t) =>
      S.ScanNumSound(t);
      NumGood(S.ScanNum(t).value.0);
      assert G.NumText(S.ScanNum(t).value.0) + [] == G.NumText(S.ScanNum(t).value.0);
    case String(t) => StringGood(t, fl.ascii);
    case Array(items) =>
      AsciiGood([LBRACKET, RBRACKET]);
      if items != [] {
        ItemsGood(items, fl, depth);
        BracketGood([LBRACKET], Indent(fl, depth + 1, false), ItemsText(items, fl, depth), [RBRACKET]);
      }
    case Object(es) =>
      AsciiGood([LBRACE, RBRACE]);
      if es != [] {
        EntriesGood(es, fl, depth);
        BracketGood([LBRACE], Indent(fl, depth + 1, false), EntriesText(es, fl, depth), [RBRACE]);
      }
  }

  lemma BracketGood(a: bytes, w: bytes, t: bytes, b: bytes)
    requires G.AllSpace(w) && M.GoodText(t) && (forall i :: 0 <= i < |a| ==> 0 < a[i] < 0x80)
    requires forall i :: 0 <= i < |b| ==> 0 < b[i] < 0x80
    ensures M.GoodText(a + (w + (t + b)))
  {
    AsciiGood(a);
    AsciiGood(b);
    SpaceGood(w);
    M.GoodConcat(t, b);
    M.GoodConcat(w, t + b);
    M.GoodConcat(a, w + (t + b));
  }

  lemma {:induction false} ItemsGood(items: seq<Value>, fl: Flags, depth: nat)
    requires items != [] && forall i :: 0 <= i < |items| ==> Printable(items[i])
    ensures M.GoodText(ItemsText(items, fl, depth))
    decreases items, 1
  {
    TextGood(items[0], fl, depth + 1);
    SpaceGood(Indent(fl, depth, false));
    var text := RawText(items[0], fl, depth + 1);
    if |items| == 1 {
      M.GoodConcat(text, Indent(fl, depth, false));
    } else {
      ItemsGood(items[1..], fl, depth);
      NextGood(text, Indent(fl, depth + 1, true), ItemsText(items[1..], fl, depth));
    }
  }

  lemma NextGood(text: bytes, w: bytes, rest: bytes)
    requires M.GoodText(text) && G.AllSpace(w) && M.GoodText(rest)
    ensures M.GoodText(text + ([COMMA] + (w + rest)))
  {
    AsciiGood([COMMA]);
    SpaceGood(w);
    M.GoodConcat(w, rest);
    M.GoodConcat([COMMA], w + rest);
    M.GoodConcat(text, [COMMA] + (w + rest));
  }

  lemma {:induction false} EntriesGood(es: seq<Entry>, fl: Flags, depth: nat)
    requires es != [] && forall i :: 0 <= i < |es| ==> M.GoodText(es[i].key) && Printable(es[i].value)
    ensures M.GoodText(EntriesText(es, fl, depth))
    decreases es, 1
  {
    TextGood(es[0].value, fl, depth + 1);
    StringGood(es[0].key, fl.ascii);
    AsciiGood(Separator(fl));
    SpaceGood(Indent(fl, depth, false));
    var text := RawText(es[0].value, fl, depth + 1);
    var last;
    if |es| == 1 {
      last := Indent(fl, depth, false);
      M.GoodConcat(text, last);
    } else {
      EntriesGood(es[1..], fl, depth);
      last := [COMMA] + (Indent(fl, depth + 1, true) + EntriesText(es[1..], fl, depth));
      NextGood(text, Indent(fl, depth + 1, true), EntriesText(es[1..], fl, depth));
    }
    M.GoodConcat(Separator(fl), text + last);
    M.GoodConcat(StringText(es[0].key, fl.ascii), Separator(fl) + (text + last));
  }

  lemma DumpGood(v: Value, fl: Flags)
    requires Printable(v) && WellFormed(v)
    ensures M.GoodText(DumpText(v, fl, 0))
  {
    ArrangeKeeps(v, fl);
    TextGood(Arrange(v, fl), fl, 0);
  }
}
