/**
  The scanner of pack_unpack.c and the methods it drives, which do what module Packing
  says. The scanner is never advanced past the end of the format: NextToken may only be
  called while the terminating NUL has not been read, and every path keeps to that.
 */
module PackScanner {
  import opened Bytes
  import opened Packing
  import opened Values
  import F = Formats
  import Utf8

  class Scanner {
    /** The format string, without its terminating NUL. */
    const format: bytes
    var fmt: nat
    var token: byte

    /** The position is at most one past the terminator, and only once that has been read. */
    ghost predicate Valid()
      reads this
    {
      0 !in format && fmt <= |format| + 1 && (token == 0 <==> fmt == |format| + 1)
    }

    /** The tokens from the current one on. */
    ghost function Ahead(): bytes
      requires Valid()
      reads this
    {
      if token == 0 then [] else [token] + Tokens(format[fmt..])
    }

    /** The tokens after the current one. */
    ghost function Later(): bytes
      requires Valid() && token != 0
      reads this
    {
      Tokens(format[fmt..])
    }

    /** scanner_init and the first next_token. */
    constructor (format: bytes)
      requires 0 !in format
      ensures Valid() && this.format == format && Ahead() == Tokens(format)
    {
      this.format := format;
      fmt := 0;
      token := 1;
      new;
      assert format[0..] == format;
      NextToken();
    }

    method NextToken()
      requires 0 !in format && fmt <= |format|
      modifies this
      ensures Valid() && Ahead() == old(Tokens(format[fmt..]))
    {
      var t := fmt;
      while t < |format| && Ignored(format[t])
        invariant t <= |format| && Tokens(format[fmt..]) == Tokens(format[t..])
      {
        assert format[t..][1..] == format[t+1..];
        t := t + 1;
      }
      if t < |format| {
        token := format[t];
        assert format[t..][1..] == format[t+1..];
      } else {
        token := 0;
      }
      fmt := t + 1;
    }
  }

  // --------------------------------------------------------------------- pack

  datatype Built = Value(v: Values.Value) | NoValue | BadArgs

  /** The outcome, the arguments left from k on and the scanner, at the value's last token,
      are as the specification says. */
  ghost predicate PackedAs(s: Scanner, p: Packing, out: Built, args: seq<Arg>, k: nat)
    requires k <= |args|
    reads s
  {
    && s.Valid()
    && match p
       case Packed(v, toks, rest) => out == Value(v) && s.token != 0 && s.Later() == toks && args[k..] == rest
       case Failed => out == NoValue
       case Misused => out == BadArgs
  }

  method PackNode(s: Scanner, args: seq<Arg>, k: nat) returns (out: Built, next: nat)
    requires s.Valid() && k <= |args|
    modifies s
    ensures next <= |args| && PackedAs(s, PackValue(old(s.Ahead()), args[k..]), out, args, next)
    decreases |s.Ahead()|, 0
  {
    next := k;
    ghost var toks := s.Ahead();
    if s.token == LBRACE {
      out, next := PackObject(s, args, k);
    } else if s.token == LBRACKET {
      out, next := PackArray(s, args, k);
    } else if s.token == 110 {
      out := Value(Null);
    } else if s.token == 115 {
      if k == |args| || !args[k].Str? {
        return BadArgs, k;
      }
      if args[k].text.None? {
        return NoValue, k;
      }
      var valid := Utf8.CheckString(args[k].text.value);
      if !valid {
        return NoValue, k;
      }
      out, next := Value(String(args[k].text.value)), k + 1;
    } else if s.token == 98 || s.token == 105 {
      if k == |args| || !args[k].Int? {
        return BadArgs, k;
      }
      out, next := Value(if s.token == 98 then Boolean(args[k].n) else Integer(args[k].n)), k + 1;
    } else if s.token == 73 {
      if k == |args| || !args[k].Long? {
        return BadArgs, k;
      }
      out, next := Value(Integer(args[k].n)), k + 1;
    } else if s.token == 102 {
      if k == |args| || !args[k].Double? {
        return BadArgs, k;
      }
      out, next := Value(Real(args[k].d)), k + 1;
    } else if s.token == 79 || s.token == 111 {
      if k == |args| || !args[k].Json? {
        return BadArgs, k;
      }
      if args[k].v.None? {
        return NoValue, k;
      }
      out, next := Value(args[k].v.value), k + 1;
    } else {
      out := NoValue;
    }
  }

  method PackArray(s: Scanner, args: seq<Arg>, k: nat) returns (out: Built, next: nat)
    requires s.Valid() && k <= |args| && s.token != 0
    modifies s
    ensures next <= |args| && PackedAs(s, PackItems(old(s.Later()), args[k..], []), out, args, next)
    decreases |s.Later()|, 1
  {
    hide PackValue;
    ghost var goal := PackItems(s.Later(), args[k..], []);
    s.NextToken();
    var items := [];
    next := k;
    while s.token != RBRACKET
      invariant s.Valid() && next <= |args| && |s.Ahead()| <= |old(s.Later())|
      invariant goal == PackItems(s.Ahead(), args[next..], items)
      decreases |s.Ahead()|
    {
      if s.token == 0 {
        return NoValue, next;
      }
      out, next := PackNode(s, args, next);
      if !out.Value? {
        return;
      }
      items := items + [out.v];
      s.NextToken();
    }
    out := Value(Array(items));
  }

  method PackObject(s: Scanner, args: seq<Arg>, k: nat) returns (out: Built, next: nat)
    requires s.Valid() && k <= |args| && s.token != 0
    modifies s
    ensures next <= |args| && PackedAs(s, PackFields(old(s.Later()), args[k..], [], 0), out, args, next)
    decreases |s.Later()|, 1
  {
    hide PackValue, Utf8.ValidText, Tokens, Values.Set;
    ghost var goal := PackFields(s.Later(), args[k..], [], 0);
    s.NextToken();
    var es, serial := [], 0;
    next := k;
    while s.token != RBRACE
      invariant s.Valid() && next <= |args| && |s.Ahead()| <= |old(s.Later())|
      invariant goal == PackFields(s.Ahead(), args[next..], es, serial)
      decreases |s.Ahead()|
    {
      if s.token == 0 {
        return NoValue, next;
      }
      if s.token != 115 {
        return NoValue, next;
      }
      if next == |args| || !args[next].Str? {
        return BadArgs, next;
      }
      if args[next].text.None? {
        return NoValue, next;
      }
      var key := args[next].text.value;
      var valid := Utf8.CheckString(key);
      if !valid {
        return NoValue, next;
      }
      assert args[next..][1..] == args[next+1..];
      s.NextToken();
      out, next := PackNode(s, args, next + 1);
      if !out.Value? {
        return;
      }
      es, serial := Values.Set(es, serial, key, out.v), serial + 1;
      s.NextToken();
    }
    out := Value(Object(es));
  }

  /** json_vpack_ex; an empty format is refused before it is scanned. */
  method PackFormat(format: bytes, args: seq<Arg>) returns (out: Built)
    requires 0 !in format
    ensures match Pack(format, args)
            case Packed(v, _, _) => out == Value(v)
            case Failed => out == NoValue
            case Misused => out == BadArgs
  {
    hide PackValue;
    if format == [] {
      EmptyFormat(args);
      return NoValue;
    }
    var s := new Scanner(format);
    var next;
    assert args[0..] == args;
    out, next := PackNode(s, args, 0);
    if !out.Value? {
      return;
    }
    s.NextToken();
    if s.token != 0 {
      out := NoValue;
    }
  }

  lemma EmptyFormat(args: seq<Arg>)
    ensures PackValue(Tokens([]), args) == Failed
  {
  }

  // ------------------------------------------------------------------- unpack

  datatype Unpacked = Success | Failure | BadAsks

  /** The outcome, what was stored after the values in `before`, the arguments left and the
      scanner, at the value's last token, are as the specification says. */
  ghost predicate UnpackedAs(s: Scanner, u: Unpacking, out: Unpacked, before: seq<Out>, outs: seq<Out>, asks: seq<Ask>, k: nat)
    requires k <= |asks|
    reads s
  {
    && s.Valid()
    && match u
       case Done(stored, toks, rest) =>
         out == Success && outs == before + stored && s.token != 0 && s.Later() == toks && asks[k..] == rest
       case Refused => out == Failure
       case Misasked => out == BadAsks
  }

  /** Stores one value, unless only validation is asked for. */
  method Put(s: Scanner, v: Out, asks: seq<Ask>, k: nat, fl: Flags, before: seq<Out>)
      returns (out: Unpacked, outs: seq<Out>, next: nat)
    requires s.Valid() && k <= |asks| && s.token != 0
    ensures next <= |asks| && UnpackedAs(s, Stored(v, s.Ahead(), asks[k..], fl), out, before, outs, asks, next)
  {
    outs, next := before, k;
    out := Success;
    assert s.Ahead()[1..] == s.Later() && before + [] == before;
    if !fl.validateOnly {
      if k == |asks| {
        return BadAsks, outs, next;
      }
      if asks[k] == NullStore && v.OutStr? {
        return Failure, outs, next;
      }
      if asks[k] != Store {
        return BadAsks, outs, next;
      }
      outs, next := before + [v], k + 1;
      assert asks[k..][1..] == asks[next..];
    }
  }

  method UnpackNode(s: Scanner, root: Values.Value, asks: seq<Ask>, k: nat, fl: Flags, before: seq<Out>)
      returns (out: Unpacked, outs: seq<Out>, next: nat)
    requires s.Valid() && k <= |asks|
    modifies s
    ensures next <= |asks| && UnpackedAs(s, UnpackValue(old(s.Ahead()), root, asks[k..], fl), out, before, outs, asks, next)
    decreases |s.Ahead()|, 0
  {
    hide Tokens, Stored;
    outs, next := before, k;
    out := Failure;
    if s.token == LBRACE {
      if root.Object? {
        out, outs, next := UnpackObject(s, root.entries, asks, k, fl, before);
      }
    } else if s.token == LBRACKET {
      if root.Array? {
        out, outs, next := UnpackArray(s, root.items, asks, k, fl, before);
      }
    } else if s.token == 115 {
      if root.String? {
        out, outs, next := Put(s, OutStr(root.text), asks, k, fl, before);
      }
    } else if s.token == 105 {
      if root.Integer? {
        out, outs, next := Put(s, OutInt(ToInt(root.n)), asks, k, fl, before);
      }
    } else if s.token == 73 {
      if root.Integer? {
        out, outs, next := Put(s, OutLong(root.n), asks, k, fl, before);
      }
    } else if s.token == 98 {
      if root.True? || root.False? {
        out, outs, next := Put(s, OutInt(if root.True? then 1 else 0), asks, k, fl, before);
      }
    } else if s.token == 102 {
      if root.Real? {
        out, outs, next := Put(s, OutDouble(root.text), asks, k, fl, before);
      }
    } else if s.token == 70 {
      if root.Real? {
        out, outs, next := Put(s, OutDouble(root.text), asks, k, fl, before);
      } else if root.Integer? {
        out, outs, next := Put(s, AsDouble(root.n), asks, k, fl, before);
      }
    } else if s.token == 79 || s.token == 111 {
      out, outs, next := Put(s, OutJson(root), asks, k, fl, before);
    } else if s.token == 110 {
      if root.Null? {
        out := Success;
        assert before + [] == before;
      }
    }
  }

  method UnpackArray(s: Scanner, items: seq<Values.Value>, asks: seq<Ask>, k: nat, fl: Flags, before: seq<Out>)
      returns (out: Unpacked, outs: seq<Out>, next: nat)
    requires s.Valid() && k <= |asks| && s.token != 0
    modifies s
    ensures next <= |asks|
    ensures UnpackedAs(s, UnpackItems(old(s.Later()), items, 0, asks[k..], fl, Unmarked), out, before, outs, asks, next)
    decreases |s.Later()|, 1
  {
    hide UnpackValue, Tokens, Starter;
    ghost var goal := UnpackItems(s.Later(), items, 0, asks[k..], fl, Unmarked);
    s.NextToken();
    var i, mark := 0, Unmarked;
    outs, next := before, k;
    ghost var stored := [];
    NothingStored(before, goal);
    while s.token != RBRACKET
      invariant s.Valid() && next <= |asks| && |s.Ahead()| <= |old(s.Later())| && outs == before + stored
      invariant goal == Prepend(stored, UnpackItems(s.Ahead(), items, i, asks[next..], fl, mark))
      decreases |s.Ahead()|
    {
      if mark != Unmarked || s.token == 0 {
        return Failure, outs, next;
      }
      if s.token == 33 || s.token == 42 {
        mark := MarkOf(s.token);
        s.NextToken();
        continue;
      }
      if !Starter(s.token) || i >= |items| {
        return Failure, outs, next;
      }
      ghost var u := UnpackValue(s.Ahead(), items[i], asks[next..], fl);
      out, outs, next := UnpackNode(s, items[i], asks, next, fl, outs);
      if out != Success {
        return;
      }
      StoredMore(before, stored, u.outs, UnpackItems(u.toks, items, i + 1, u.asks, fl, mark));
      stored := stored + u.outs;
      s.NextToken();
      i := i + 1;
    }
    assert stored + [] == stored;
    if (mark == Strict || (mark == Unmarked && fl.strict)) && i != |items| {
      return Failure, outs, next;
    }
    out := Success;
  }

  method UnpackObject(s: Scanner, es: seq<Entry>, asks: seq<Ask>, k: nat, fl: Flags, before: seq<Out>)
      returns (out: Unpacked, outs: seq<Out>, next: nat)
    requires s.Valid() && k <= |asks| && s.token != 0
    modifies s
    ensures next <= |asks|
    ensures UnpackedAs(s, UnpackFields(old(s.Later()), es, asks[k..], fl, Unmarked, {}), out, before, outs, asks, next)
    decreases |s.Later()|, 1
  {
    hide UnpackValue, Tokens, Get;
    ghost var goal := UnpackFields(s.Later(), es, asks[k..], fl, Unmarked, {});
    s.NextToken();
    var named, mark := {}, Unmarked;
    outs, next := before, k;
    ghost var stored := [];
    NothingStored(before, goal);
    while s.token != RBRACE
      invariant s.Valid() && next <= |asks| && |s.Ahead()| <= |old(s.Later())| && outs == before + stored
      invariant goal == Prepend(stored, UnpackFields(s.Ahead(), es, asks[next..], fl, mark, named))
      decreases |s.Ahead()|
    {
      if mark != Unmarked || s.token == 0 {
        return Failure, outs, next;
      }
      if s.token == 33 || s.token == 42 {
        mark := MarkOf(s.token);
        s.NextToken();
        continue;
      }
      if s.token != 115 {
        return Failure, outs, next;
      }
      if next == |asks| || !asks[next].Key? {
        return BadAsks, outs, next;
      }
      if asks[next].text.None? {
        return Failure, outs, next;
      }
      var key := asks[next].text.value;
      assert asks[next..][1..] == asks[next+1..];
      s.NextToken();
      var value := Get(es, key);
      if value.None? {
        return Failure, outs, next;
      }
      ghost var u := UnpackValue(s.Ahead(), value.value, asks[next+1..], fl);
      out, outs, next := UnpackNode(s, value.value, asks, next + 1, fl, outs);
      if out != Success {
        return;
      }
      StoredMore(before, stored, u.outs, UnpackFields(u.toks, es, u.asks, fl, mark, named + {key}));
      stored := stored + u.outs;
      named := named + {key};
      s.NextToken();
    }
    assert stored + [] == stored;
    if (mark == Strict || (mark == Unmarked && fl.strict)) && |named| != |es| {
      return Failure, outs, next;
    }
    out := Success;
  }

  lemma NothingStored(before: seq<Out>, u: Unpacking)
    ensures Prepend([], u) == u && before + [] == before
  {
    if u.Done? {
      assert [] + u.outs == u.outs;
    }
  }

  lemma StoredMore(before: seq<Out>, stored: seq<Out>, outs: seq<Out>, u: Unpacking)
    ensures Prepend(stored, Prepend(outs, u)) == Prepend(stored + outs, u)
    ensures (before + stored) + outs == before + (stored + outs)
  {
    if u.Done? {
      assert stored + (outs + u.outs) == (stored + outs) + u.outs;
    }
  }

  /** json_vunpack_ex; an empty format is refused before it is scanned. */
  method UnpackFormat(format: bytes, root: Values.Value, asks: seq<Ask>, fl: Flags) returns (out: Unpacked, outs: seq<Out>)
    requires 0 !in format
    ensures match Unpack(format, root, asks, fl)
            case Done(stored, _, _) => out == Success && outs == stored
            case Refused => out == Failure
            case Misasked => out == BadAsks
    ensures Values.WellFormed(root) ==>
              (out == Success <==> exists shape :: F.Asked(shape, format, asks, fl) && F.Fits(shape, root, fl))
  {
    hide UnpackValue, F.Asked, F.Fits;
    if Values.WellFormed(root) {
      F.UnpackIff(format, root, asks, fl);
    }
    outs := [];
    if format == [] {
      EmptyUnpack(root, asks, fl);
      return Failure, outs;
    }
    var s := new Scanner(format);
    var next;
    assert asks[0..] == asks;
    out, outs, next := UnpackNode(s, root, asks, 0, fl, []);
    if out != Success {
      return;
    }
    s.NextToken();
    if s.token != 0 {
      out := Failure;
    }
  }

  lemma EmptyUnpack(root: Values.Value, asks: seq<Ask>, fl: Flags)
    ensures UnpackValue(Tokens([]), root, asks, fl) == Refused
  {
  }
}
