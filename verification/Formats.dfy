/**
  What an unpack format asks of a value: the shape it spells, when a value fits that shape,
  and what is then stored. pack_unpack.c is compared with this.
 */
module Formats {
  import opened Bytes
  import opened Packing
  import opened Values

  /** A format: one token for a value, or brackets around others and at most one of ! and *. */
  datatype Shape = One(tok: byte) | Items(shapes: seq<Shape>, mark: Mark) | Fields(fields: seq<Field>, mark: Mark)

  /** A pair of an object format, with the key that is passed for it. */
  datatype Field = Field(key: bytes, shape: Shape)

  /** s i I b f F O o n */
  predicate IsScalar(tok: byte) {
    || tok == 115 || tok == 105 || tok == 73 || tok == 98 || tok == 102 || tok == 70 || tok == 79 || tok == 111 || tok == 110
  }

  predicate ShapeOk(shape: Shape) {
    match shape
    case One(tok) => IsScalar(tok)
    case Items(shapes, _) => forall i :: 0 <= i < |shapes| ==> ShapeOk(shapes[i])
    case Fields(fields, _) => forall i :: 0 <= i < |fields| ==> ShapeOk(fields[i].shape)
  }

  function MarkToks(mark: Mark): bytes {
    match mark
    case Unmarked => []
    case Strict => [33]
    case Loose => [42]
  }

  /** The tokens that spell a shape. */
  function Toks(shape: Shape): bytes
    decreases shape, 0
  {
    match shape
    case One(tok) => [tok]
    case Items(shapes, mark) => [91] + (ItemToks(shapes) + (MarkToks(mark) + [93]))
    case Fields(fields, mark) => [123] + (FieldToks(fields) + (MarkToks(mark) + [125]))
  }

  function ItemToks(shapes: seq<Shape>): bytes
    decreases shapes, 1
  {
    if shapes == [] then [] else Toks(shapes[0]) + ItemToks(shapes[1..])
  }

  function FieldToks(fields: seq<Field>): bytes
    decreases fields, 1
  {
    if fields == [] then [] else [115] + (Toks(fields[0].shape) + FieldToks(fields[1..]))
  }

  /** The arguments that belong to a shape: a key before each pair, and a place for each token
      that stores something. */
  function Asks(shape: Shape, fl: Flags): seq<Ask>
    decreases shape, 0
  {
    match shape
    case One(tok) => if tok == 110 || fl.validateOnly then [] else [Store]
    case Items(shapes, _) => ItemAsks(shapes, fl)
    case Fields(fields, _) => FieldAsks(fields, fl)
  }

  function ItemAsks(shapes: seq<Shape>, fl: Flags): seq<Ask>
    decreases shapes, 1
  {
    if shapes == [] then [] else Asks(shapes[0], fl) + ItemAsks(shapes[1..], fl)
  }

  function FieldAsks(fields: seq<Field>, fl: Flags): seq<Ask>
    decreases fields, 1
  {
    if fields == [] then [] else [Key(Some(fields[0].key))] + (Asks(fields[0].shape, fl) + FieldAsks(fields[1..], fl))
  }

  /** The kinds of value each token takes. */
  predicate Takes(tok: byte, v: Value) {
    match tok as int
    case 115 => v.String?
    case 105 => v.Integer?
    case 73 => v.Integer?
    case 98 => v.True? || v.False?
    case 102 => v.Real?
    case 70 => v.Real? || v.Integer?
    case 110 => v.Null?
    case 79 => true
    case 111 => true
    case _ => false
  }

  /** Whether a closing bracket asks for everything to have been unpacked. */
  predicate Must(mark: Mark, fl: Flags) { mark == Strict || (mark == Unmarked && fl.strict) }

  /** A value fits a shape: arrays have an element for each format in brackets, objects have
      the keys, and where it is asked for, nothing beyond them. */
  predicate Fits(shape: Shape, v: Value, fl: Flags) {
    match shape
    case One(tok) => Takes(tok, v)
    case Items(shapes, mark) =>
      && v.Array? && |shapes| <= |v.items| && (Must(mark, fl) ==> |shapes| == |v.items|)
      && forall i :: 0 <= i < |shapes| ==> Fits(shapes[i], v.items[i], fl)
    case Fields(fields, mark) =>
      && v.Object? && (Must(mark, fl) ==> forall k <- KeySet(v.entries) :: k in Named(fields))
      && forall i :: 0 <= i < |fields| ==> fields[i].key in KeySet(v.entries) && Fits(fields[i].shape, At(v.entries, fields[i].key), fl)
  }

  function Named(fields: seq<Field>): set<bytes> { set f <- fields :: f.key }

  /** What is stored from a value that fits. */
  function Stores(shape: Shape, v: Value, fl: Flags): seq<Out>
    requires Fits(shape, v, fl)
    decreases shape, 0
  {
    match shape
    case One(tok) => if fl.validateOnly || tok == 110 then [] else [Content(tok, v)]
    case Items(shapes, _) => ItemStores(shapes, v.items, fl)
    case Fields(fields, _) => FieldStores(fields, v.entries, fl)
  }

  /** A value's own content, as the token has it. */
  function Content(tok: byte, v: Value): Out
    requires Takes(tok, v) && tok != 110
  {
    if tok == 79 || tok == 111 then OutJson(v)
    else
      match v
      case String(t) => OutStr(t)
      case Integer(n) => if tok == 105 then OutInt(ToInt(n)) else if tok == 73 then OutLong(n) else AsDouble(n)
      case True => OutInt(1)
      case False => OutInt(0)
      case Real(t) => OutDouble(t)
      case _ => OutJson(v)
  }

  function ItemStores(shapes: seq<Shape>, items: seq<Value>, fl: Flags): seq<Out>
    requires |shapes| <= |items| && forall i :: 0 <= i < |shapes| ==> Fits(shapes[i], items[i], fl)
    decreases shapes, 1
  {
    if shapes == [] then [] else Stores(shapes[0], items[0], fl) + ItemStores(shapes[1..], items[1..], fl)
  }

  function FieldStores(fields: seq<Field>, es: seq<Entry>, fl: Flags): seq<Out>
    requires forall i :: 0 <= i < |fields| ==> fields[i].key in KeySet(es) && Fits(fields[i].shape, At(es, fields[i].key), fl)
    decreases fields, 1
  {
    if fields == [] then [] else Stores(fields[0].shape, At(es, fields[0].key), fl) + FieldStores(fields[1..], es, fl)
  }

  // ------------------------------------------------------------ fitting decides

  /** How unpacking a shape ends: with what is stored, or refused. */
  function Verdict(shape: Shape, v: Value, more: bytes, asks: seq<Ask>, fl: Flags): Unpacking {
    if Fits(shape, v, fl) then Done(Stores(shape, v, fl), more, asks) else Refused
  }

  lemma OneUnpacks(tok: byte, v: Value, more: bytes, asks: seq<Ask>, fl: Flags)
    requires IsScalar(tok)
    ensures UnpackValue([tok] + more, v, Asks(One(tok), fl) + asks, fl) == Verdict(One(tok), v, more, asks, fl)
  {
    assert ([tok] + more)[1..] == more && ([Store] + asks)[1..] == asks && [] + asks == asks;
    hide ToInt;
  }

  /** What each token that takes no others makes of a value, whatever the value: its own
      content, or refusal. */
  lemma TokenUnpacks(v: Value, more: bytes, asks: seq<Ask>, strict: bool)
    ensures var fl, all := Flags(strict, false), [Store] + asks;
            && UnpackValue([115] + more, v, all, fl) == (if v.String? then Done([OutStr(v.text)], more, asks) else Refused)
            && UnpackValue([105] + more, v, all, fl) == (if v.Integer? then Done([OutInt(ToInt(v.n))], more, asks) else Refused)
            && UnpackValue([73] + more, v, all, fl) == (if v.Integer? then Done([OutLong(v.n)], more, asks) else Refused)
            && UnpackValue([98] + more, v, all, fl) ==
               (if v.True? then Done([OutInt(1)], more, asks) else if v.False? then Done([OutInt(0)], more, asks) else Refused)
            && UnpackValue([102] + more, v, all, fl) == (if v.Real? then Done([OutDouble(v.text)], more, asks) else Refused)
    ensures var fl, all := Flags(strict, false), [Store] + asks;
            && UnpackValue([70] + more, v, all, fl) ==
               (if v.Real? then Done([OutDouble(v.text)], more, asks) else if v.Integer? then Done([AsDouble(v.n)], more, asks) else Refused)
            && UnpackValue([79] + more, v, all, fl) == Done([OutJson(v)], more, asks)
            && UnpackValue([111] + more, v, all, fl) == Done([OutJson(v)], more, asks)
            && UnpackValue([110] + more, v, asks, fl) == (if v.Null? then Done([], more, asks) else Refused)
  {
    assert ([Store] + asks)[1..] == asks;
    assert ([115] + more)[1..] == more && ([105] + more)[1..] == more && ([73] + more)[1..] == more;
    assert ([98] + more)[1..] == more && ([102] + more)[1..] == more && ([70] + more)[1..] == more;
    assert ([79] + more)[1..] == more && ([111] + more)[1..] == more && ([110] + more)[1..] == more;
    hide ToInt;
  }

  lemma FirstTok(shape: Shape)
    requires ShapeOk(shape)
    ensures Toks(shape) != [] && Starter(Toks(shape)[0]) && Toks(shape)[0] != 93 && Toks(shape)[0] != 33 && Toks(shape)[0] != 42
  {
  }

  predicate ItemsFit(shapes: seq<Shape>, mark: Mark, items: seq<Value>, fl: Flags) {
    && |shapes| <= |items| && (Must(mark, fl) ==> |shapes| == |items|)
    && forall i :: 0 <= i < |shapes| ==> Fits(shapes[i], items[i], fl)
  }

  lemma ItemsFitStep(shapes: seq<Shape>, mark: Mark, items: seq<Value>, fl: Flags)
    requires shapes != [] && items != []
    ensures ItemsFit(shapes, mark, items, fl) <==> Fits(shapes[0], items[0], fl) && ItemsFit(shapes[1..], mark, items[1..], fl)
  {
    hide Fits;
    if Fits(shapes[0], items[0], fl) && ItemsFit(shapes[1..], mark, items[1..], fl) {
      forall i | 0 <= i < |shapes|
        ensures Fits(shapes[i], items[i], fl)
      {
        assert i > 0 ==> shapes[i] == shapes[1..][i-1] && items[i] == items[1..][i-1];
      }
    }
  }

  lemma ItemsClose(mark: Mark, items: seq<Value>, i: nat, more: bytes, asks: seq<Ask>, fl: Flags)
    ensures UnpackItems(MarkToks(mark) + ([93] + more), items, i, asks, fl, Unmarked) ==
            if Must(mark, fl) && i != |items| then Refused else Done([], more, asks)
  {
    hide UnpackValue;
    var close := [93] + more;
    assert close[1..] == more && [] + close == close;
    if mark != Unmarked {
      assert (MarkToks(mark) + close)[1..] == close && (MarkToks(mark) + close)[0] == MarkToks(mark)[0];
      assert UnpackItems(close, items, i, asks, fl, mark) == Closing(mark, fl, i == |items|, close, asks);
    }
  }

  lemma {:induction false} ItemsUnpack(shapes: seq<Shape>, mark: Mark, items: seq<Value>, i: nat, more: bytes, asks: seq<Ask>, fl: Flags)
    requires (forall j :: 0 <= j < |shapes| ==> ShapeOk(shapes[j])) && (forall j :: 0 <= j < |items| ==> WellFormed(items[j]))
    requires i <= |items|
    ensures UnpackItems(ItemToks(shapes) + (MarkToks(mark) + ([93] + more)), items, i, ItemAsks(shapes, fl) + asks, fl, Unmarked) ==
            if ItemsFit(shapes, mark, items[i..], fl) then Done(ItemStores(shapes, items[i..], fl), more, asks) else Refused
    decreases shapes, 1
  {
    hide UnpackValue, Fits, UnpackItems, MarkToks, Toks, Stores;
    var end := MarkToks(mark) + ([93] + more);
    if shapes == [] {
      ItemsClose(mark, items, i, more, asks, fl);
      assert [] + end == end && [] + asks == asks;
    } else {
      var rest, later := ItemToks(shapes[1..]) + end, ItemAsks(shapes[1..], fl) + asks;
      assert ItemToks(shapes) + end == Toks(shapes[0]) + rest;
      assert ItemAsks(shapes, fl) + asks == Asks(shapes[0], fl) + later;
      hide ItemToks, ItemAsks, Asks;
      FirstTok(shapes[0]);
      ItemsUnpackStep(shapes[0], rest, items, i, later, fl);
      if i < |items| {
        assert items[i..][0] == items[i] && items[i..][1..] == items[i+1..];
        ShapeUnpacks(shapes[0], items[i], rest, later, fl);
        ItemsUnpack(shapes[1..], mark, items, i + 1, more, asks, fl);
        ItemsFitStep(shapes, mark, items[i..], fl);
        hide ItemsFit, ShapeOk, WellFormed;
      }
    }
  }

  lemma ItemsUnpackStep(shape: Shape, rest: bytes, items: seq<Value>, i: nat, asks: seq<Ask>, fl: Flags)
    requires ShapeOk(shape)
    ensures var all := Asks(shape, fl) + asks;
            UnpackItems(Toks(shape) + rest, items, i, all, fl, Unmarked) ==
            if i >= |items| then Refused
            else
              var r := UnpackValue(Toks(shape) + rest, items[i], all, fl);
              if r.Done? then Prepend(r.outs, UnpackItems(r.toks, items, i + 1, r.asks, fl, Unmarked)) else r
  {
    FirstTok(shape);
    hide UnpackValue, Starter, Asks;
    var toks, all := Toks(shape) + rest, Asks(shape, fl) + asks;
    assert toks[0] == Toks(shape)[0];
    hide Toks;
    if i < |items| {
      ItemStep(toks, items, i, all, fl);
    }
  }

  predicate FieldsFit(fields: seq<Field>, es: seq<Entry>, fl: Flags) {
    forall i :: 0 <= i < |fields| ==> fields[i].key in KeySet(es) && Fits(fields[i].shape, At(es, fields[i].key), fl)
  }

  lemma FieldsFitStep(fields: seq<Field>, es: seq<Entry>, fl: Flags)
    requires fields != []
    ensures FieldsFit(fields, es, fl) <==>
            fields[0].key in KeySet(es) && Fits(fields[0].shape, At(es, fields[0].key), fl) && FieldsFit(fields[1..], es, fl)
    ensures Named(fields) == {fields[0].key} + Named(fields[1..])
  {
    hide Fits, KeySet, At;
    if FieldsFit(fields[1..], es, fl) {
      assert forall i :: 1 <= i < |fields| ==> fields[i] == fields[1..][i-1];
    }
    assert fields == [fields[0]] + fields[1..];
  }

  lemma FieldsClose(mark: Mark, es: seq<Entry>, named: set<bytes>, more: bytes, asks: seq<Ask>, fl: Flags)
    requires DistinctKeys(es) && named <= KeySet(es)
    ensures UnpackFields(MarkToks(mark) + ([125] + more), es, asks, fl, Unmarked, named) ==
            if Must(mark, fl) && named != KeySet(es) then Refused else Done([], more, asks)
  {
    hide UnpackValue;
    CountDecides(es, named);
    var close := [125] + more;
    assert close[1..] == more && [] + close == close;
    if mark != Unmarked {
      assert (MarkToks(mark) + close)[1..] == close && (MarkToks(mark) + close)[0] == MarkToks(mark)[0];
      assert UnpackFields(close, es, asks, fl, mark, named) == Closing(mark, fl, |named| == |es|, close, asks);
    }
  }

  lemma FieldsUnpackStep(field: Field, rest: bytes, es: seq<Entry>, asks: seq<Ask>, fl: Flags, named: set<bytes>)
    ensures var all := Asks(field.shape, fl) + asks;
            UnpackFields([115] + (Toks(field.shape) + rest), es, [Key(Some(field.key))] + all, fl, Unmarked, named) ==
            if field.key !in KeySet(es) then Refused
            else
              var r := UnpackValue(Toks(field.shape) + rest, At(es, field.key), all, fl);
              if r.Done? then Prepend(r.outs, UnpackFields(r.toks, es, r.asks, fl, Unmarked, named + {field.key})) else r
  {
    hide UnpackValue, Asks, Toks;
    var all := Asks(field.shape, fl) + asks;
    var toks := [115] + (Toks(field.shape) + rest);
    assert toks[1..] == Toks(field.shape) + rest && ([Key(Some(field.key))] + all)[1..] == all;
    if field.key in KeySet(es) {
      FieldStep(toks, es, field.key, all, fl, named);
    }
  }

  lemma {:induction false} FieldsUnpack(fields: seq<Field>, mark: Mark, es: seq<Entry>, named: set<bytes>, more: bytes, asks: seq<Ask>,
                                        fl: Flags)
    requires (forall j :: 0 <= j < |fields| ==> ShapeOk(fields[j].shape)) && WellFormed(Object(es)) && named <= KeySet(es)
    ensures UnpackFields(FieldToks(fields) + (MarkToks(mark) + ([125] + more)), es, FieldAsks(fields, fl) + asks, fl, Unmarked, named) ==
            if FieldsFit(fields, es, fl) && (Must(mark, fl) ==> named + Named(fields) == KeySet(es))
            then Done(FieldStores(fields, es, fl), more, asks) else Refused
    decreases fields, 1
  {
    hide UnpackValue, Fits, UnpackFields, MarkToks, Toks, Stores, KeySet;
    var end := MarkToks(mark) + ([125] + more);
    if fields == [] {
      FieldsClose(mark, es, named, more, asks, fl);
      assert [] + end == end && [] + asks == asks && named + Named([]) == named;
    } else {
      var rest, later := FieldToks(fields[1..]) + end, FieldAsks(fields[1..], fl) + asks;
      assert FieldToks(fields) + end == [115] + (Toks(fields[0].shape) + rest);
      assert FieldAsks(fields, fl) + asks == [Key(Some(fields[0].key))] + (Asks(fields[0].shape, fl) + later);
      hide FieldToks, FieldAsks, Asks;
      FieldsUnpackStep(fields[0], rest, es, later, fl, named);
      FieldsFitStep(fields, es, fl);
      if fields[0].key in KeySet(es) {
        AtWellFormed(es, fields[0].key);
        ShapeUnpacks(fields[0].shape, At(es, fields[0].key), rest, later, fl);
        var next := named + {fields[0].key};
        FieldsUnpack(fields[1..], mark, es, next, more, asks, fl);
        assert next + Named(fields[1..]) == named + Named(fields);
        hide FieldsFit, ShapeOk, WellFormed, Named, At;
      }
    }
  }

  lemma AtWellFormed(es: seq<Entry>, key: bytes)
    requires WellFormed(Object(es)) && key in KeySet(es)
    ensures WellFormed(At(es, key))
  {
  }

  lemma {:induction false} ArrayUnpacks(shapes: seq<Shape>, mark: Mark, v: Value, more: bytes, asks: seq<Ask>, fl: Flags)
    requires ShapeOk(Items(shapes, mark)) && WellFormed(v)
    ensures UnpackValue(Toks(Items(shapes, mark)) + more, v, ItemAsks(shapes, fl) + asks, fl)
            == Verdict(Items(shapes, mark), v, more, asks, fl)
    decreases shapes, 2
  {
    var t := ItemToks(shapes) + (MarkToks(mark) + ([93] + more));
    assert Toks(Items(shapes, mark)) + more == [91] + t && ([91] + t)[1..] == t;
    hide ItemToks, MarkToks, UnpackItems;
    if v.Array? {
      ItemsUnpack(shapes, mark, v.items, 0, more, asks, fl);
      assert v.items[0..] == v.items;
    }
  }

  lemma {:induction false} ObjectUnpacks(fields: seq<Field>, mark: Mark, v: Value, more: bytes, asks: seq<Ask>, fl: Flags)
    requires ShapeOk(Fields(fields, mark)) && WellFormed(v)
    ensures UnpackValue(Toks(Fields(fields, mark)) + more, v, FieldAsks(fields, fl) + asks, fl)
            == Verdict(Fields(fields, mark), v, more, asks, fl)
    decreases fields, 2
  {
    var t := FieldToks(fields) + (MarkToks(mark) + ([125] + more));
    assert Toks(Fields(fields, mark)) + more == [123] + t && ([123] + t)[1..] == t;
    hide FieldToks, MarkToks, UnpackFields;
    if v.Object? {
      FieldsUnpack(fields, mark, v.entries, {}, more, asks, fl);
      AllNamed(fields, mark, v, fl);
      hide Fits, FieldsFit, KeySet, Named, Must, Toks, FieldAsks, WellFormed, ShapeOk;
    }
  }

  lemma AllNamed(fields: seq<Field>, mark: Mark, v: Value, fl: Flags)
    requires v.Object?
    ensures Fits(Fields(fields, mark), v, fl) <==>
            FieldsFit(fields, v.entries, fl) && (Must(mark, fl) ==> {} + Named(fields) == KeySet(v.entries))
    ensures Fits(Fields(fields, mark), v, fl) ==> Stores(Fields(fields, mark), v, fl) == FieldStores(fields, v.entries, fl)
  {
    assert Fits(Fields(fields, mark), v, fl) <==>
           FieldsFit(fields, v.entries, fl) && (Must(mark, fl) ==> forall k <- KeySet(v.entries) :: k in Named(fields));
    hide Fits;
    if FieldsFit(fields, v.entries, fl) {
      assert Named(fields) <= KeySet(v.entries);
    }
  }

  /** Unpacking with the tokens of a shape and its arguments succeeds exactly if the value fits
      the shape, stores what the shape says, and is refused otherwise. */
  lemma {:induction false} ShapeUnpacks(shape: Shape, v: Value, more: bytes, asks: seq<Ask>, fl: Flags)
    requires ShapeOk(shape) && WellFormed(v)
    ensures UnpackValue(Toks(shape) + more, v, Asks(shape, fl) + asks, fl) == Verdict(shape, v, more, asks, fl)
    decreases shape, 0
  {
    hide UnpackValue, Verdict, ItemToks, FieldToks;
    match shape
    case One(tok) => OneUnpacks(tok, v, more, asks, fl);
    case Items(shapes, mark) => ArrayUnpacks(shapes, mark, v, more, asks, fl);
    case Fields(fields, mark) => ObjectUnpacks(fields, mark, v, more, asks, fl);
  }

  // ----------------------------------------------- every success is of a shape

  /** What is left of tokens and arguments when a shape has been taken off. */
  ghost predicate Starts(shape: Shape, toks: bytes, asks: seq<Ask>, fl: Flags, r: Unpacking) {
    r.Done? && ShapeOk(shape) && toks == Toks(shape) + r.toks && asks == Asks(shape, fl) + r.asks
  }

  /** The same for the rest of the elements of an array and its end. */
  ghost predicate ItemsStart(shapes: seq<Shape>, mark: Mark, toks: bytes, asks: seq<Ask>, fl: Flags, r: Unpacking) {
    && r.Done? && (forall i :: 0 <= i < |shapes| ==> ShapeOk(shapes[i]))
    && toks == ItemToks(shapes) + (MarkToks(mark) + ([93] + r.toks)) && asks == ItemAsks(shapes, fl) + r.asks
  }

  /** The same for the rest of the pairs of an object and its end. */
  ghost predicate FieldsStart(fields: seq<Field>, mark: Mark, toks: bytes, asks: seq<Ask>, fl: Flags, r: Unpacking) {
    && r.Done? && (forall i :: 0 <= i < |fields| ==> ShapeOk(fields[i].shape))
    && toks == FieldToks(fields) + (MarkToks(mark) + ([125] + r.toks)) && asks == FieldAsks(fields, fl) + r.asks
  }

  lemma {:induction false} DoneStarts(toks: bytes, v: Value, asks: seq<Ask>, fl: Flags) returns (shape: Shape)
    requires UnpackValue(toks, v, asks, fl).Done?
    ensures Starts(shape, toks, asks, fl, UnpackValue(toks, v, asks, fl))
    decreases |toks|, 0
  {
    assert toks == [toks[0]] + toks[1..];
    if toks[0] == 123 {
      var fields, mark := FieldsDone(toks[1..], v.entries, asks, fl, {});
      shape := Fields(fields, mark);
      Bracketed(123, FieldToks(fields), MarkToks(mark), 125, UnpackValue(toks, v, asks, fl).toks);
    } else if toks[0] == 91 {
      var shapes, mark := ItemsDone(toks[1..], v.items, 0, asks, fl);
      shape := Items(shapes, mark);
      Bracketed(91, ItemToks(shapes), MarkToks(mark), 93, UnpackValue(toks, v, asks, fl).toks);
    } else {
      shape := One(toks[0]);
      OneDone(toks, v, asks, fl);
    }
  }

  lemma Bracketed(open: byte, a: bytes, b: bytes, close: byte, rest: bytes)
    ensures [open] + (a + (b + ([close] + rest))) == ([open] + (a + (b + [close]))) + rest
  {
  }

  lemma OneDone(toks: bytes, v: Value, asks: seq<Ask>, fl: Flags)
    requires UnpackValue(toks, v, asks, fl).Done? && toks[0] != 123 && toks[0] != 91
    ensures Starts(One(toks[0]), toks, asks, fl, UnpackValue(toks, v, asks, fl))
  {
    hide ToInt;
    assert toks == [toks[0]] + toks[1..] && [] + asks == asks;
    assert asks != [] && asks[0] == Store ==> asks == [Store] + asks[1..];
  }

  lemma {:induction false} ItemsDone(toks: bytes, items: seq<Value>, i: nat, asks: seq<Ask>, fl: Flags)
      returns (shapes: seq<Shape>, mark: Mark)
    requires UnpackItems(toks, items, i, asks, fl, Unmarked).Done?
    ensures ItemsStart(shapes, mark, toks, asks, fl, UnpackItems(toks, items, i, asks, fl, Unmarked))
    decreases |toks|, 1
  {
    if toks[0] == 93 || toks[0] == 33 || toks[0] == 42 {
      shapes, mark := [], if toks[0] == 93 then Unmarked else MarkOf(toks[0]);
      ItemsEnd(toks, items, i, asks, fl);
    } else {
      var u := UnpackValue(toks, items[i], asks, fl);
      var head := DoneStarts(toks, items[i], asks, fl);
      var rest;
      rest, mark := ItemsDone(u.toks, items, i + 1, u.asks, fl);
      shapes := [head] + rest;
      hide UnpackValue, Toks, Asks, MarkToks;
      MoreItems(head, rest, mark, toks, asks, fl, u, UnpackItems(u.toks, items, i + 1, u.asks, fl, Unmarked));
    }
  }

  lemma ItemsEnd(toks: bytes, items: seq<Value>, i: nat, asks: seq<Ask>, fl: Flags)
    requires UnpackItems(toks, items, i, asks, fl, Unmarked).Done? && (toks[0] == 93 || toks[0] == 33 || toks[0] == 42)
    ensures ItemsStart([], if toks[0] == 93 then Unmarked else MarkOf(toks[0]), toks, asks, fl, UnpackItems(toks, items, i, asks, fl, Unmarked))
  {
    hide UnpackValue;
    var r := UnpackItems(toks, items, i, asks, fl, Unmarked);
    if toks[0] == 93 {
      assert r == Done([], toks[1..], asks);
    } else {
      assert r == UnpackItems(toks[1..], items, i, asks, fl, MarkOf(toks[0]));
      assert toks[1..] != [] && toks[1] == 93 && r == Done([], toks[1..][1..], asks);
    }
    hide UnpackItems, ItemAsks, ItemToks;
    NoItems(fl);
    EndTokens(toks, 93);
    assert [] + asks == asks;
  }

  lemma NoItems(fl: Flags)
    ensures ItemToks([]) == [] && ItemAsks([], fl) == [] && FieldToks([]) == [] && FieldAsks([], fl) == []
  {
  }

  /** The tokens at the end of an array or object. */
  lemma EndTokens(toks: bytes, close: byte)
    requires toks != [] && (toks[0] == close || ((toks[0] == 33 || toks[0] == 42) && |toks| > 1 && toks[1] == close))
    ensures toks[0] == close ==> toks == [] + (MarkToks(Unmarked) + ([close] + toks[1..]))
    ensures toks[0] != close ==> toks == [] + (MarkToks(MarkOf(toks[0])) + ([close] + toks[1..][1..]))
  {
    assert toks[0] == close ==> toks == [close] + toks[1..];
    assert toks[0] != close ==> toks == [toks[0]] + ([close] + toks[1..][1..]);
  }

  lemma MoreItems(head: Shape, rest: seq<Shape>, mark: Mark, toks: bytes, asks: seq<Ask>, fl: Flags, u: Unpacking, r: Unpacking)
    requires Starts(head, toks, asks, fl, u) && ItemsStart(rest, mark, u.toks, u.asks, fl, r)
    ensures ItemsStart([head] + rest, mark, toks, asks, fl, Prepend(u.outs, r))
  {
    hide Toks, Asks, MarkToks, ShapeOk;
    var shapes := [head] + rest;
    assert shapes[1..] == rest && shapes[0] == head;
    var end := MarkToks(mark) + ([93] + r.toks);
    assert Toks(head) + (ItemToks(rest) + end) == (Toks(head) + ItemToks(rest)) + end;
    assert Asks(head, fl) + (ItemAsks(rest, fl) + r.asks) == (Asks(head, fl) + ItemAsks(rest, fl)) + r.asks;
  }

  lemma {:induction false} FieldsDone(toks: bytes, es: seq<Entry>, asks: seq<Ask>, fl: Flags, named: set<bytes>)
      returns (fields: seq<Field>, mark: Mark)
    requires UnpackFields(toks, es, asks, fl, Unmarked, named).Done?
    ensures FieldsStart(fields, mark, toks, asks, fl, UnpackFields(toks, es, asks, fl, Unmarked, named))
    decreases |toks|, 1
  {
    if toks[0] == 125 || toks[0] == 33 || toks[0] == 42 {
      fields, mark := [], if toks[0] == 125 then Unmarked else MarkOf(toks[0]);
      FieldsEnd(toks, es, asks, fl, named);
    } else {
      var key := asks[0].text.value;
      var v := Get(es, key).value;
      var u := UnpackValue(toks[1..], v, asks[1..], fl);
      var head := DoneStarts(toks[1..], v, asks[1..], fl);
      var rest;
      rest, mark := FieldsDone(u.toks, es, u.asks, fl, named + {key});
      fields := [Field(key, head)] + rest;
      assert toks == [115] + toks[1..] && asks == [Key(Some(key))] + asks[1..];
      hide UnpackValue, Toks, Asks, MarkToks, Get;
      MoreFields(Field(key, head), rest, mark, toks[1..], asks[1..], fl, u, UnpackFields(u.toks, es, u.asks, fl, Unmarked, named + {key}));
    }
  }

  lemma FieldsEnd(toks: bytes, es: seq<Entry>, asks: seq<Ask>, fl: Flags, named: set<bytes>)
    requires UnpackFields(toks, es, asks, fl, Unmarked, named).Done? && (toks[0] == 125 || toks[0] == 33 || toks[0] == 42)
    ensures FieldsStart([], if toks[0] == 125 then Unmarked else MarkOf(toks[0]), toks, asks, fl,
                        UnpackFields(toks, es, asks, fl, Unmarked, named))
  {
    hide UnpackValue;
    var r := UnpackFields(toks, es, asks, fl, Unmarked, named);
    if toks[0] == 125 {
      assert r == Done([], toks[1..], asks);
    } else {
      assert r == UnpackFields(toks[1..], es, asks, fl, MarkOf(toks[0]), named);
      assert toks[1..] != [] && toks[1] == 125 && r == Done([], toks[1..][1..], asks);
    }
    hide UnpackFields, FieldAsks, FieldToks;
    NoItems(fl);
    EndTokens(toks, 125);
    assert [] + asks == asks;
  }

  lemma MoreFields(head: Field, rest: seq<Field>, mark: Mark, toks: bytes, asks: seq<Ask>, fl: Flags, u: Unpacking, r: Unpacking)
    requires Starts(head.shape, toks, asks, fl, u) && FieldsStart(rest, mark, u.toks, u.asks, fl, r)
    ensures FieldsStart([head] + rest, mark, [115] + toks, [Key(Some(head.key))] + asks, fl, Prepend(u.outs, r))
  {
    hide Toks, Asks, MarkToks, ShapeOk;
    var fields := [head] + rest;
    assert fields[1..] == rest && fields[0] == head;
    var end := MarkToks(mark) + ([125] + r.toks);
    var t, a := Toks(head.shape), Asks(head.shape, fl);
    assert [115] + (t + (FieldToks(rest) + end)) == ([115] + (t + FieldToks(rest))) + end;
    assert [Key(Some(head.key))] + (a + (FieldAsks(rest, fl) + r.asks)) == ([Key(Some(head.key))] + (a + FieldAsks(rest, fl))) + r.asks;
  }

  // ----------------------------------------------------------- whole formats

  /** A format without the characters between its tokens, and its arguments at the head of
      those given. */
  predicate Asked(shape: Shape, fmt: bytes, asks: seq<Ask>, fl: Flags) {
    ShapeOk(shape) && Tokens(fmt) == Toks(shape) && Asks(shape, fl) <= asks
  }

  /** json_unpack with a format and the arguments it asks for: success if the value fits, with
      what the format stores, and refusal if it does not. */
  lemma FormatDecides(shape: Shape, fmt: bytes, v: Value, asks: seq<Ask>, fl: Flags)
    requires Asked(shape, fmt, asks, fl) && WellFormed(v)
    ensures Unpack(fmt, v, asks, fl) == if Fits(shape, v, fl) then Done(Stores(shape, v, fl), [], asks[|Asks(shape, fl)|..]) else Refused
  {
    hide ShapeOk, Fits, Toks, Asks, UnpackValue, Stores;
    var a := Asks(shape, fl);
    assert Toks(shape) + [] == Toks(shape) && a + asks[|a|..] == asks;
    ShapeUnpacks(shape, v, [], asks[|a|..], fl);
  }

  /** json_unpack succeeds exactly if the format with its arguments spells a shape that the
      value fits. */
  lemma UnpackIff(fmt: bytes, v: Value, asks: seq<Ask>, fl: Flags)
    requires WellFormed(v)
    ensures Unpack(fmt, v, asks, fl).Done? <==> exists shape :: Asked(shape, fmt, asks, fl) && Fits(shape, v, fl)
  {
    hide Fits, UnpackValue, Stores;
    if Unpack(fmt, v, asks, fl).Done? {
      var shape := DoneStarts(Tokens(fmt), v, asks, fl);
      hide Toks, Asks, ShapeOk;
      assert Toks(shape) + [] == Toks(shape);
      assert Asked(shape, fmt, asks, fl);
      FormatDecides(shape, fmt, v, asks, fl);
    }
    if shape :| Asked(shape, fmt, asks, fl) && Fits(shape, v, fl) {
      FormatDecides(shape, fmt, v, asks, fl);
    }
  }
}
