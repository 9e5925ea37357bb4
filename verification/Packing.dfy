/**
  pack_unpack.c: one format scanner drives a builder and a destructurer of values. Format
  strings and argument lists are given explicitly.
 */
module Packing {
  import opened Bytes
  import opened Values
  import Utf8

  // ------------------------------------------------------------------ formats

  predicate Ignored(b: byte) { b == 32 || b == 9 || b == 10 || b == 44 || b == 58 }

  /** The tokens of a format: its characters without the ignored ones. */
  function Tokens(fmt: bytes): bytes {
    if fmt == [] then [] else if Ignored(fmt[0]) then Tokens(fmt[1..]) else [fmt[0]] + Tokens(fmt[1..])
  }

  function Kept(b: byte): bytes { if b == 32 || b == 9 || b == 10 || b == 44 || b == 58 then [] else [b] }

  lemma FirstPassed(b: byte, after: bytes)
    ensures Tokens([b] + after) == Kept(b) + Tokens(after)
  {
    assert ([b] + after)[1..] == after && [] + Tokens(after) == Tokens(after);
  }

  /** Spaces, tabs, newlines, commas and colons are passed over, wherever they are, and no
      other character is. */
  lemma {:induction false} PassedOver(before: bytes, b: byte, after: bytes)
    ensures Tokens(before + ([b] + after)) == Tokens(before) + (Kept(b) + Tokens(after))
  {
    FirstPassed(b, after);
    if before == [] {
      assert before + ([b] + after) == [b] + after && [] + Tokens([b] + after) == Tokens([b] + after);
    } else {
      var rest := before[1..];
      PassedOver(rest, b, after);
      FirstPassed(before[0], rest + ([b] + after));
      FirstPassed(before[0], rest);
      hide Tokens, Kept;
      assert before == [before[0]] + rest;
      Cat2([before[0]], rest, [b] + after);
      Cat2(Kept(before[0]), Tokens(rest), Kept(b) + Tokens(after));
    }
  }

  // ---------------------------------------------------------------- arguments

  /** An argument of pack: a C string or NULL, an int, a json_int_t, a double, a node or NULL. */
  datatype Arg = Str(text: Option<bytes>) | Int(n: int) | Long(n: int) | Double(d: bytes) | Json(v: Option<Value>)

  /** An argument of unpack: an object key or NULL, or where to store what is found. */
  datatype Ask = Key(text: Option<bytes>) | Store | NullStore

  /** What is stored through a pointer; AsDouble is an integer converted to double. */
  datatype Out = OutStr(text: bytes) | OutInt(n: int) | OutLong(n: int) | OutDouble(text: bytes) | AsDouble(n: int) | OutJson(v: Value)

  /** A conversion to int. */
  function ToInt(n: int): (r: int)
    ensures -0x8000_0000 <= r < 0x8000_0000 && (r - n) % 0x1_0000_0000 == 0
  {
    (n + 0x8000_0000) % 0x1_0000_0000 - 0x8000_0000
  }

  predicate IsInt(n: int) { -0x8000_0000 <= n < 0x8000_0000 }

  /** Misused: an argument is missing or of another type, which the caller must not let happen. */
  datatype Packing = Packed(value: Value, toks: bytes, args: seq<Arg>) | Failed | Misused

  function Boolean(n: int): Value { if n != 0 then True else False }

  /** pack, from the value's first token on. */
  function PackValue(toks: bytes, args: seq<Arg>): (r: Packing)
    ensures r.Packed? ==> |r.toks| < |toks|
    decreases |toks|, 0
  {
    if toks == [] then Failed
    else
      match toks[0] as int
      case 123 => PackFields(toks[1..], args, [], 0)
      case 91 => PackItems(toks[1..], args, [])
      case 115 =>
        if args == [] || !args[0].Str? then Misused
        else if args[0].text.None? || !Utf8.ValidText(args[0].text.value) then Failed
        else Packed(String(args[0].text.value), toks[1..], args[1..])
      case 110 => Packed(Null, toks[1..], args)
      case 98 => if args == [] || !args[0].Int? then Misused else Packed(Boolean(args[0].n), toks[1..], args[1..])
      case 105 => if args == [] || !args[0].Int? then Misused else Packed(Integer(args[0].n), toks[1..], args[1..])
      case 73 => if args == [] || !args[0].Long? then Misused else Packed(Integer(args[0].n), toks[1..], args[1..])
      case 102 => if args == [] || !args[0].Double? then Misused else Packed(Real(args[0].d), toks[1..], args[1..])
      case 79 => PackJson(toks, args)
      case 111 => PackJson(toks, args)
      case _ => Failed
  }

  function PackJson(toks: bytes, args: seq<Arg>): (r: Packing)
    requires toks != []
    ensures r.Packed? ==> |r.toks| < |toks|
  {
    if args == [] || !args[0].Json? then Misused
    else if args[0].v.None? then Failed
    else Packed(args[0].v.value, toks[1..], args[1..])
  }

  /** pack_array, after `[` and the items built so far. */
  function PackItems(toks: bytes, args: seq<Arg>, items: seq<Value>): (r: Packing)
    ensures r.Packed? ==> |r.toks| < |toks|
    decreases |toks|, 1
  {
    if toks == [] then Failed
    else if toks[0] == RBRACKET then Packed(Array(items), toks[1..], args)
    else
      match PackValue(toks, args)
      case Packed(v, toks1, args1) => PackItems(toks1, args1, items + [v])
      case Failed => Failed
      case Misused => Misused
  }

  /** pack_object, after `{` and the entries set so far. */
  function PackFields(toks: bytes, args: seq<Arg>, es: seq<Entry>, serial: nat): (r: Packing)
    ensures r.Packed? ==> |r.toks| < |toks|
    decreases |toks|, 1
  {
    if toks == [] then Failed
    else if toks[0] == RBRACE then Packed(Object(es), toks[1..], args)
    else if toks[0] != 115 then Failed
    else if args == [] || !args[0].Str? then Misused
    else if args[0].text.None? || !Utf8.ValidText(args[0].text.value) then Failed
    else
      match PackValue(toks[1..], args[1..])
      case Packed(v, toks1, args1) => PackFields(toks1, args1, Values.Set(es, serial, args[0].text.value, v), serial + 1)
      case Failed => Failed
      case Misused => Misused
  }

  /** json_vpack_ex */
  function Pack(fmt: bytes, args: seq<Arg>): Packing {
    match PackValue(Tokens(fmt), args)
    case Packed(v, toks, rest) => if toks == [] then Packed(v, [], rest) else Failed
    case Failed => Failed
    case Misused => Misused
  }

  /** What each token that takes no others makes of its argument. */
  lemma TokenPacks(arg: Arg, args: seq<Arg>, more: bytes)
    ensures PackValue([110] + more, args) == Packed(Null, more, args)
    ensures arg.Str? ==> PackValue([115] + more, [arg] + args) ==
                         if arg.text.Some? && Utf8.ValidText(arg.text.value) then Packed(String(arg.text.value), more, args) else Failed
    ensures arg.Int? ==> PackValue([98] + more, [arg] + args) == Packed(if arg.n == 0 then False else True, more, args)
    ensures arg.Int? ==> PackValue([105] + more, [arg] + args) == Packed(Integer(arg.n), more, args)
    ensures arg.Long? ==> PackValue([73] + more, [arg] + args) == Packed(Integer(arg.n), more, args)
    ensures arg.Double? ==> PackValue([102] + more, [arg] + args) == Packed(Real(arg.d), more, args)
    ensures arg.Json? ==> PackValue([111] + more, [arg] + args) == if arg.v.Some? then Packed(arg.v.value, more, args) else Failed
    ensures arg.Json? ==> PackValue([79] + more, [arg] + args) == if arg.v.Some? then Packed(arg.v.value, more, args) else Failed
  {
    hide Utf8.ValidText;
    assert ([arg] + args)[1..] == args;
    assert ([110] + more)[1..] == more && ([115] + more)[1..] == more && ([98] + more)[1..] == more && ([105] + more)[1..] == more;
    assert ([73] + more)[1..] == more && ([102] + more)[1..] == more && ([111] + more)[1..] == more && ([79] + more)[1..] == more;
  }

  // ------------------------------------------------------------------- unpack

  /** JSON_STRICT and JSON_VALIDATE_ONLY. */
  datatype Flags = Flags(strict: bool, validateOnly: bool)

  datatype Unpacking = Done(outs: seq<Out>, toks: bytes, asks: seq<Ask>) | Refused | Misasked

  /** Neither `!` nor `*` has been seen, or one of them. */
  datatype Mark = Unmarked | Strict | Loose

  predicate Starter(b: byte) {
    b == 123 || b == 91 || b == 115 || b == 105 || b == 73 || b == 98 || b == 102 || b == 70 || b == 79 || b == 111 || b == 110
  }

  function Stored(out: Out, toks: bytes, asks: seq<Ask>, fl: Flags): (r: Unpacking)
    requires toks != []
    ensures r.Done? ==> |r.toks| < |toks|
  {
    if fl.validateOnly then Done([], toks[1..], asks)
    else if asks == [] || !asks[0].Store? then (if asks != [] && asks[0].NullStore? && out.OutStr? then Refused else Misasked)
    else Done([out], toks[1..], asks[1..])
  }

  function UnpackValue(toks: bytes, root: Value, asks: seq<Ask>, fl: Flags): (r: Unpacking)
    ensures r.Done? ==> |r.toks| < |toks|
    decreases |toks|, 0
  {
    if toks == [] then Refused
    else
      match toks[0] as int
      case 123 => if root.Object? then UnpackFields(toks[1..], root.entries, asks, fl, Unmarked, {}) else Refused
      case 91 => if root.Array? then UnpackItems(toks[1..], root.items, 0, asks, fl, Unmarked) else Refused
      case 115 => if root.String? then Stored(OutStr(root.text), toks, asks, fl) else Refused
      case 105 => if root.Integer? then Stored(OutInt(ToInt(root.n)), toks, asks, fl) else Refused
      case 73 => if root.Integer? then Stored(OutLong(root.n), toks, asks, fl) else Refused
      case 98 => if root.True? || root.False? then Stored(OutInt(if root.True? then 1 else 0), toks, asks, fl) else Refused
      case 102 => if root.Real? then Stored(OutDouble(root.text), toks, asks, fl) else Refused
      case 70 =>
        if root.Real? then Stored(OutDouble(root.text), toks, asks, fl)
        else if root.Integer? then Stored(AsDouble(root.n), toks, asks, fl)
        else Refused
      case 79 => Stored(OutJson(root), toks, asks, fl)
      case 111 => Stored(OutJson(root), toks, asks, fl)
      case 110 => if root.Null? then Done([], toks[1..], asks) else Refused
      case _ => Refused
  }

  /** What the closing bracket decides. */
  function Closing(mark: Mark, fl: Flags, all: bool, toks: bytes, asks: seq<Ask>): (r: Unpacking)
    requires toks != []
    ensures r.Done? ==> |r.toks| < |toks|
  {
    var strict := mark == Strict || (mark == Unmarked && fl.strict);
    if strict && !all then Refused else Done([], toks[1..], asks)
  }

  function Prepend(outs: seq<Out>, r: Unpacking): Unpacking {
    if r.Done? then Done(outs + r.outs, r.toks, r.asks) else r
  }

  function MarkOf(b: byte): Mark { if b == 33 then Strict else Loose }

  /** unpack_object, after `{` and the keys named so far. */
  function UnpackFields(toks: bytes, es: seq<Entry>, asks: seq<Ask>, fl: Flags, mark: Mark, named: set<bytes>): (r: Unpacking)
    ensures r.Done? ==> |r.toks| < |toks|
    decreases |toks|, 1
  {
    if toks == [] then Refused
    else if toks[0] == RBRACE then Closing(mark, fl, |named| == |es|, toks, asks)
    else if mark != Unmarked then Refused
    else if toks[0] == 33 || toks[0] == 42 then UnpackFields(toks[1..], es, asks, fl, MarkOf(toks[0]), named)
    else if toks[0] != 115 then Refused
    else if asks == [] || !asks[0].Key? then Misasked
    else if asks[0].text.None? then Refused
    else
      match Get(es, asks[0].text.value)
      case None => Refused
      case Some(v) =>
        match UnpackValue(toks[1..], v, asks[1..], fl)
        case Done(outs, toks1, asks1) => Prepend(outs, UnpackFields(toks1, es, asks1, fl, mark, named + {asks[0].text.value}))
        case Refused => Refused
        case Misasked => Misasked
  }

  /** unpack_array, after `[` and i items. */
  function UnpackItems(toks: bytes, items: seq<Value>, i: nat, asks: seq<Ask>, fl: Flags, mark: Mark): (r: Unpacking)
    ensures r.Done? ==> |r.toks| < |toks|
    decreases |toks|, 1
  {
    if toks == [] then Refused
    else if toks[0] == RBRACKET then Closing(mark, fl, i == |items|, toks, asks)
    else if mark != Unmarked then Refused
    else if toks[0] == 33 || toks[0] == 42 then UnpackItems(toks[1..], items, i, asks, fl, MarkOf(toks[0]))
    else if !Starter(toks[0]) then Refused
    else if i >= |items| then Refused
    else
      match UnpackValue(toks, items[i], asks, fl)
      case Done(outs, toks1, asks1) => Prepend(outs, UnpackItems(toks1, items, i + 1, asks1, fl, mark))
      case Refused => Refused
      case Misasked => Misasked
  }

  /** json_vunpack_ex */
  function Unpack(fmt: bytes, root: Value, asks: seq<Ask>, fl: Flags): Unpacking {
    match UnpackValue(Tokens(fmt), root, asks, fl)
    case Done(outs, toks, rest) => if toks == [] then Done(outs, [], rest) else Refused
    case Refused => Refused
    case Misasked => Misasked
  }

  // ----------------------------------------------------------- strict objects

  /** Counting the named keys decides whether all have been named: they are keys of the
      object, and naming one twice does not count twice. */
  lemma CountDecides(es: seq<Entry>, named: set<bytes>)
    requires DistinctKeys(es) && named <= KeySet(es)
    ensures |named| == |es| <==> named == KeySet(es)
  {
    KeyCount(es);
    if named != KeySet(es) {
      var k :| k in KeySet(es) && k !in named;
      Fewer(named, KeySet(es), k);
    }
  }

  lemma Fewer(s: set<bytes>, t: set<bytes>, k: bytes)
    requires s <= t && k in t && k !in s
    ensures |s| < |t|
  {
    var rest := t - s;
    assert k in rest && t == s + rest;
  }

  /** The keys unpack_object has named when it closes, and the mark it closes with. */
  function Closed(toks: bytes, es: seq<Entry>, asks: seq<Ask>, fl: Flags, mark: Mark, named: set<bytes>): (set<bytes>, Mark)
    decreases |toks|
  {
    if toks == [] || toks[0] == RBRACE then (named, mark)
    else if toks[0] == 33 || toks[0] == 42 then Closed(toks[1..], es, asks, fl, MarkOf(toks[0]), named)
    else if asks == [] || !asks[0].Key? || asks[0].text.None? || Get(es, asks[0].text.value).None? then (named, mark)
    else
      match UnpackValue(toks[1..], Get(es, asks[0].text.value).value, asks[1..], fl)
      case Done(_, toks1, asks1) => Closed(toks1, es, asks1, fl, mark, named + {asks[0].text.value})
      case _ => (named, mark)
  }

  /** An object unpacked with `!`, or with JSON_STRICT and no `*`, has had every key named. */
  lemma {:induction false} StrictNamesAll(toks: bytes, es: seq<Entry>, asks: seq<Ask>, fl: Flags, mark: Mark, named: set<bytes>)
    requires DistinctKeys(es) && named <= KeySet(es)
    requires UnpackFields(toks, es, asks, fl, mark, named).Done?
    ensures var (all, last) := Closed(toks, es, asks, fl, mark, named);
            && all <= KeySet(es)
            && (last == Strict || (last == Unmarked && fl.strict) ==> all == KeySet(es))
    decreases |toks|
  {
    if toks[0] == RBRACE {
      CountDecides(es, named);
    } else if toks[0] == 33 || toks[0] == 42 {
      StrictNamesAll(toks[1..], es, asks, fl, MarkOf(toks[0]), named);
    } else {
      var key := asks[0].text.value;
      var Done(_, toks1, asks1) := UnpackValue(toks[1..], Get(es, key).value, asks[1..], fl);
      StrictNamesAll(toks1, es, asks1, fl, mark, named + {key});
    }
  }

  // ---------------------------------------------------------------- round trip

  /** For a pack that succeeds: the arguments to unpack with, what is to come back, and
      whether no node was passed and no object names a key twice. */
  datatype Echo = Echo(asks: seq<Ask>, outs: seq<Out>, plain: bool)

  function Then(e: Echo, f: Echo): Echo { Echo(e.asks + f.asks, e.outs + f.outs, e.plain && f.plain) }

  function EchoValue(toks: bytes, args: seq<Arg>): Echo
    requires PackValue(toks, args).Packed?
    decreases |toks|, 0
  {
    match toks[0] as int
    case 123 => EchoFields(toks[1..], args, [], 0)
    case 91 => EchoItems(toks[1..], args, [])
    case 115 => Echo([Store], [OutStr(args[0].text.value)], true)
    case 98 => Echo([Store], [OutInt(if args[0].n != 0 then 1 else 0)], true)
    case 105 => Echo([Store], [OutInt(args[0].n)], IsInt(args[0].n))
    case 73 => Echo([Store], [OutLong(args[0].n)], true)
    case 102 => Echo([Store], [OutDouble(args[0].d)], true)
    case 110 => Echo([], [], true)
    case _ => Echo([], [], false)
  }

  function EchoItems(toks: bytes, args: seq<Arg>, items: seq<Value>): Echo
    requires PackItems(toks, args, items).Packed?
    decreases |toks|, 1
  {
    if toks[0] == RBRACKET then Echo([], [], true)
    else
      var p := PackValue(toks, args);
      Then(EchoValue(toks, args), EchoItems(p.toks, p.args, items + [p.value]))
  }

  function EchoFields(toks: bytes, args: seq<Arg>, es: seq<Entry>, serial: nat): Echo
    requires PackFields(toks, args, es, serial).Packed?
    decreases |toks|, 1
  {
    if toks[0] == RBRACE then Echo([], [], true)
    else
      var key := args[0].text.value;
      var p := PackValue(toks[1..], args[1..]);
      Then(Echo([Key(Some(key))], [], key !in KeySet(es)),
           Then(EchoValue(toks[1..], args[1..]), EchoFields(p.toks, p.args, Values.Set(es, serial, key, p.value), serial + 1)))
  }

  /** The array that is built starts with the items built so far. */
  lemma {:induction false} ItemsStay(toks: bytes, args: seq<Arg>, items: seq<Value>)
    requires PackItems(toks, args, items).Packed?
    ensures var v := PackItems(toks, args, items).value; v.Array? && items <= v.items
    decreases |toks|
  {
    if toks[0] != RBRACKET {
      var p := PackValue(toks, args);
      ItemsStay(p.toks, p.args, items + [p.value]);
    }
  }

  /** If no key is named twice, the entries set so far are those of the object. */
  lemma {:induction false} FieldsStay(toks: bytes, args: seq<Arg>, es: seq<Entry>, serial: nat)
    requires PackFields(toks, args, es, serial).Packed? && EchoFields(toks, args, es, serial).plain && DistinctKeys(es)
    ensures var v := PackFields(toks, args, es, serial).value; v.Object? && es <= v.entries && DistinctKeys(v.entries)
    decreases |toks|
  {
    if toks[0] != RBRACE {
      var key := args[0].text.value;
      var p := PackValue(toks[1..], args[1..]);
      NewKey(es, serial, key, p.value);
      FieldsStay(p.toks, p.args, es + [Entry(key, serial, p.value)], serial + 1);
    }
  }

  lemma NewKey(es: seq<Entry>, serial: nat, key: bytes, v: Value)
    requires key !in KeySet(es) && DistinctKeys(es)
    ensures Values.Set(es, serial, key, v) == es + [Entry(key, serial, v)]
    ensures DistinctKeys(es + [Entry(key, serial, v)]) && KeySet(es + [Entry(key, serial, v)]) == KeySet(es) + {key}
  {
    assert forall i :: 0 <= i < |es| ==> es[i] in es;
    var r := es + [Entry(key, serial, v)];
    assert forall e <- es :: e.key in KeySet(es);
    assert r[|es|] in r && forall e <- es :: e in r;
  }

  /** Unpacking what was packed, with the same format, succeeds and stores the arguments
      again, integers for booleans normalised, strictly or not. */
  lemma {:induction false} ValueBack(toks: bytes, args: seq<Arg>, more: seq<Ask>, fl: Flags)
    requires PackValue(toks, args).Packed? && EchoValue(toks, args).plain && !fl.validateOnly
    ensures var p := PackValue(toks, args);
            var e := EchoValue(toks, args);
            UnpackValue(toks, p.value, e.asks + more, fl) == Done(e.outs, p.toks, more)
    decreases |toks|, 0
  {
    var c := toks[0];
    if c == 123 {
      assert DistinctKeys([]) && KeySet([]) == {};
      FieldsBack(toks[1..], args, [], 0, more, fl);
    } else if c == 91 {
      ItemsBack(toks[1..], args, [], more, fl);
    } else if c == 110 {
      assert [] + more == more;
    } else {
      assert ([Store] + more)[1..] == more;
    }
  }

  lemma {:induction false} ItemsBack(toks: bytes, args: seq<Arg>, items: seq<Value>, more: seq<Ask>, fl: Flags)
    requires PackItems(toks, args, items).Packed? && EchoItems(toks, args, items).plain && !fl.validateOnly
    ensures var p := PackItems(toks, args, items);
            var e := EchoItems(toks, args, items);
            p.value.Array? && UnpackItems(toks, p.value.items, |items|, e.asks + more, fl, Unmarked) == Done(e.outs, p.toks, more)
    decreases |toks|, 1
  {
    hide PackValue, UnpackValue, EchoValue, Starter;
    ItemsStay(toks, args, items);
    if toks[0] == RBRACKET {
      assert [] + more == more;
    } else {
      var p := PackValue(toks, args);
      var e, f := EchoValue(toks, args), EchoItems(p.toks, p.args, items + [p.value]);
      ValueBack(toks, args, f.asks + more, fl);
      ItemsBack(p.toks, p.args, items + [p.value], more, fl);
      ItemsStay(p.toks, p.args, items + [p.value]);
      Regroup(e.asks, f.asks, more);
      PackedStarts(toks, args);
      ItemStep(toks, PackItems(toks, args, items).value.items, |items|, e.asks + (f.asks + more), fl);
    }
  }

  lemma Regroup(a: seq<Ask>, b: seq<Ask>, c: seq<Ask>)
    ensures (a + b) + c == a + (b + c)
  {
  }

  /** One round of unpack_array. */
  lemma ItemStep(toks: bytes, items: seq<Value>, i: nat, asks: seq<Ask>, fl: Flags)
    requires toks != [] && Starter(toks[0]) && toks[0] != RBRACKET && toks[0] != 33 && toks[0] != 42 && i < |items|
    ensures var r := UnpackValue(toks, items[i], asks, fl);
            UnpackItems(toks, items, i, asks, fl, Unmarked) ==
            if r.Done? then Prepend(r.outs, UnpackItems(r.toks, items, i + 1, r.asks, fl, Unmarked)) else r
  {
    hide UnpackValue;
  }

  /** One round of unpack_object. */
  lemma FieldStep(toks: bytes, es: seq<Entry>, key: bytes, asks: seq<Ask>, fl: Flags, named: set<bytes>)
    requires toks != [] && toks[0] == 115 && key in KeySet(es)
    ensures var r := UnpackValue(toks[1..], At(es, key), asks, fl);
            UnpackFields(toks, es, [Key(Some(key))] + asks, fl, Unmarked, named) ==
            if r.Done? then Prepend(r.outs, UnpackFields(r.toks, es, r.asks, fl, Unmarked, named + {key})) else r
  {
    hide UnpackValue;
    assert ([Key(Some(key))] + asks)[1..] == asks;
  }

  lemma PackedStarts(toks: bytes, args: seq<Arg>)
    requires PackValue(toks, args).Packed?
    ensures Starter(toks[0]) && toks[0] != RBRACKET && toks[0] != 33 && toks[0] != 42
  {
  }

  lemma {:induction false} FieldsBack(toks: bytes, args: seq<Arg>, es: seq<Entry>, serial: nat, more: seq<Ask>, fl: Flags)
    requires PackFields(toks, args, es, serial).Packed? && EchoFields(toks, args, es, serial).plain && !fl.validateOnly
    requires DistinctKeys(es)
    ensures var p := PackFields(toks, args, es, serial);
            var e := EchoFields(toks, args, es, serial);
            && p.value.Object?
            && UnpackFields(toks, p.value.entries, e.asks + more, fl, Unmarked, KeySet(es)) == Done(e.outs, p.toks, more)
    decreases |toks|, 1
  {
    hide PackValue, UnpackValue, EchoValue, Utf8.ValidText, DistinctKeys;
    FieldsStay(toks, args, es, serial);
    if toks[0] == RBRACE {
      KeyCount(es);
      assert [] + more == more;
    } else {
      OneField(toks, args, es, serial);
      hide PackFields, UnpackFields, EchoFields;
      var key := args[0].text.value;
      var p := PackValue(toks[1..], args[1..]);
      var next := es + [Entry(key, serial, p.value)];
      var e, f := EchoValue(toks[1..], args[1..]), EchoFields(p.toks, p.args, next, serial + 1);
      ValueBack(toks[1..], args[1..], f.asks + more, fl);
      FieldsBack(p.toks, p.args, next, serial + 1, more, fl);
      FieldsStay(p.toks, p.args, next, serial + 1);
      var all := PackFields(toks, args, es, serial).value.entries;
      FindIs(all, |es|);
      assert all[|es|] == next[|es|];
      FieldStep(toks, all, key, e.asks + (f.asks + more), fl, KeySet(es));
      Regroup([Key(Some(key))], e.asks + f.asks, more);
      Regroup(e.asks, f.asks, more);
    }
  }

  /** One round of pack_object on a fresh key. */
  lemma OneField(toks: bytes, args: seq<Arg>, es: seq<Entry>, serial: nat)
    requires PackFields(toks, args, es, serial).Packed? && EchoFields(toks, args, es, serial).plain && DistinctKeys(es)
    requires toks[0] != RBRACE
    ensures toks[0] == 115 && args != [] && args[0].Str? && args[0].text.Some? && PackValue(toks[1..], args[1..]).Packed?
    ensures var key := args[0].text.value;
            var p := PackValue(toks[1..], args[1..]);
            var next := es + [Entry(key, serial, p.value)];
            && DistinctKeys(next) && KeySet(next) == KeySet(es) + {key}
            && PackFields(toks, args, es, serial) == PackFields(p.toks, p.args, next, serial + 1)
            && PackFields(p.toks, p.args, next, serial + 1).Packed?
            && var e, f := EchoValue(toks[1..], args[1..]), EchoFields(p.toks, p.args, next, serial + 1);
               && e.plain && f.plain
               && EchoFields(toks, args, es, serial).asks == [Key(Some(key))] + (e.asks + f.asks)
               && EchoFields(toks, args, es, serial).outs == e.outs + f.outs
  {
    hide PackValue, EchoValue, Utf8.ValidText;
    var key := args[0].text.value;
    var p := PackValue(toks[1..], args[1..]);
    NewKey(es, serial, key, p.value);
    var e, f := EchoValue(toks[1..], args[1..]), EchoFields(p.toks, p.args, es + [Entry(key, serial, p.value)], serial + 1);
    assert [] + (e.outs + f.outs) == e.outs + f.outs;
  }

  /** json_pack, then json_unpack with the same format. */
  lemma PackUnpack(fmt: bytes, args: seq<Arg>, fl: Flags)
    requires Pack(fmt, args).Packed? && EchoValue(Tokens(fmt), args).plain && !fl.validateOnly
    ensures var e := EchoValue(Tokens(fmt), args);
            Unpack(fmt, Pack(fmt, args).value, e.asks, fl) == Done(e.outs, [], [])
  {
    var e := EchoValue(Tokens(fmt), args);
    ValueBack(Tokens(fmt), args, [], fl);
    assert e.asks + [] == e.asks;
  }
}
