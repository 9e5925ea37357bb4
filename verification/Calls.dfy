/**
  What do_dump does to its callback: a sequence of calls, each of which may be refused, and
  what becomes of the output then.
 */
module Calls {
  import opened Bytes
  import opened Printing
  import G = Grammar
  import Utf8

  /** A call whose result is checked, a return of -1, or calls after which a return of -1 is
      not noticed. */
  datatype Step = Put(text: bytes) | Stop | Unchecked(inner: seq<Step>)

  /** Whether all went well, what was written, and the number of the next call. */
  datatype Played = Played(ok: bool, out: bytes, calls: nat)

  function Then(head: bytes, p: Played): Played { Played(p.ok, head + p.out, p.calls) }

  /** The steps, with a callback that refuses some calls, from call k on. */
  function Play(steps: seq<Step>, refuses: nat -> bool, k: nat): Played
    decreases steps
  {
    if steps == [] then Played(true, [], k)
    else
      match steps[0]
      case Stop => Played(false, [], k)
      case Put(t) => if refuses(k) then Played(false, [], k + 1) else Then(t, Play(steps[1..], refuses, k + 1))
      case Unchecked(inner) =>
        var p := Play(inner, refuses, k);
        Then(p.out, Play(steps[1..], refuses, p.calls))
  }

  lemma ThenTwice(a: bytes, b: bytes, p: Played)
    ensures Then(a, Then(b, p)) == Then(a + b, p) && Then([], p) == p
  {
    Cat2(a, b, p.out);
    assert [] + p.out == p.out;
  }

  lemma {:induction false} PlayConcat(a: seq<Step>, b: seq<Step>, refuses: nat -> bool, k: nat)
    ensures var p := Play(a, refuses, k);
            Play(a + b, refuses, k) == if p.ok then Then(p.out, Play(b, refuses, p.calls)) else p
    decreases a
  {
    if a == [] {
      assert a + b == b;
      ThenTwice([], [], Play(b, refuses, k));
    } else {
      assert (a + b)[0] == a[0] && (a + b)[1..] == a[1..] + b;
      match a[0]
      case Stop =>
      case Put(t) =>
        if !refuses(k) {
          PlayConcat(a[1..], b, refuses, k + 1);
          var p := Play(a[1..], refuses, k + 1);
          ThenTwice(t, p.out, Play(b, refuses, p.calls));
        }
      case Unchecked(inner) =>
        var i := Play(inner, refuses, k);
        PlayConcat(a[1..], b, refuses, i.calls);
        var p := Play(a[1..], refuses, i.calls);
        ThenTwice(i.out, p.out, Play(b, refuses, p.calls));
    }
  }

  lemma PlayPut(t: bytes, rest: seq<Step>, refuses: nat -> bool, k: nat)
    ensures Play([Put(t)] + rest, refuses, k) == if refuses(k) then Played(false, [], k + 1) else Then(t, Play(rest, refuses, k + 1))
  {
    assert ([Put(t)] + rest)[1..] == rest;
  }

  lemma PlayOverlooked(inner: seq<Step>, rest: seq<Step>, refuses: nat -> bool, k: nat)
    ensures var p := Play(inner, refuses, k);
            Play([Unchecked(inner)] + rest, refuses, k) == Then(p.out, Play(rest, refuses, p.calls))
  {
    assert ([Unchecked(inner)] + rest)[1..] == rest;
  }

  // ---------------------------------------------- the output if nothing is refused

  function Glue(a: bytes, r: Option<bytes>): Option<bytes> {
    match r
    case None => None
    case Some(b) => Some(a + b)
  }

  /** All that is written if no call is refused; None if the steps stop. */
  function Flat(steps: seq<Step>): Option<bytes>
    decreases steps
  {
    if steps == [] then Some([])
    else
      match steps[0]
      case Stop => None
      case Put(t) => Glue(t, Flat(steps[1..]))
      case Unchecked(inner) => if Flat(inner).None? then None else Glue(Flat(inner).value, Flat(steps[1..]))
  }

  lemma GlueTwice(a: bytes, b: bytes, r: Option<bytes>)
    ensures Glue(a, Glue(b, r)) == Glue(a + b, r) && Glue([], r) == r
  {
    if r.Some? {
      Cat2(a, b, r.value);
      assert [] + r.value == r.value;
    }
  }

  lemma {:induction false} FlatConcat(a: seq<Step>, b: seq<Step>)
    ensures Flat(a + b) == if Flat(a).None? then None else Glue(Flat(a).value, Flat(b))
    decreases a
  {
    if a == [] {
      assert a + b == b;
      GlueTwice([], [], Flat(b));
    } else {
      assert (a + b)[0] == a[0] && (a + b)[1..] == a[1..] + b;
      FlatConcat(a[1..], b);
      if Flat(a).Some? {
        var head := if a[0].Put? then a[0].text else Flat(a[0].inner).value;
        GlueTwice(head, Flat(a[1..]).value, Flat(b));
      }
    }
  }

  lemma FlatPut(t: bytes, rest: seq<Step>)
    ensures Flat([Put(t)] + rest) == Glue(t, Flat(rest)) && Flat([Put(t)]) == Some(t)
  {
    assert ([Put(t)] + rest)[1..] == rest && [Put(t)][1..] == [];
    assert t + [] == t;
  }

  /** How many calls that takes. */
  function Count(steps: seq<Step>): nat
    decreases steps
  {
    if steps == [] then 0
    else
      match steps[0]
      case Stop => 0
      case Put(_) => 1 + Count(steps[1..])
      case Unchecked(inner) => Count(inner) + Count(steps[1..])
  }

  /** No call is for an empty piece, and what is not checked does not stop by itself. */
  predicate Proper(steps: seq<Step>)
    decreases steps
  {
    steps == [] || (Proper(steps[1..]) && match steps[0]
                                            case Stop => true
                                            case Put(t) => t != []
                                            case Unchecked(inner) => Proper(inner) && Flat(inner).Some?)
  }

  lemma {:induction false} ProperConcat(a: seq<Step>, b: seq<Step>)
    requires Proper(a) && Proper(b)
    ensures Proper(a + b)
  {
    if a == [] {
      assert a + b == b;
    } else {
      ProperConcat(a[1..], b);
      assert (a + b)[0] == a[0] && (a + b)[1..] == a[1..] + b;
    }
  }

  ghost predicate Accepts(refuses: nat -> bool, k: nat, n: nat) {
    forall i :: k <= i < k + n ==> !refuses(i)
  }

  /** Call i is one whose result is not checked, if the first call is number k and all the
      calls before it are accepted. */
  predicate UncheckedCall(steps: seq<Step>, k: nat, i: nat)
    decreases steps
  {
    steps != [] && match steps[0]
                   case Stop => false
                   case Put(_) => UncheckedCall(steps[1..], k + 1, i)
                   case Unchecked(inner) => k <= i < k + Count(inner) || UncheckedCall(steps[1..], k + Count(inner), i)
  }

  /** All is written exactly if no call is refused, and otherwise less. */
  lemma {:induction false} PlayAll(steps: seq<Step>, refuses: nat -> bool, k: nat)
    requires Flat(steps).Some? && Proper(steps)
    ensures var p := Play(steps, refuses, k);
            if Accepts(refuses, k, Count(steps)) then p == Played(true, Flat(steps).value, k + Count(steps))
            else |p.out| < |Flat(steps).value|
    decreases steps
  {
    if steps != [] {
      match steps[0]
      case Put(t) =>
        PlayAll(steps[1..], refuses, k + 1);
        AcceptsSum(refuses, k, 1, Count(steps[1..]));
        assert Accepts(refuses, k, 1) <==> !refuses(k);
      case Unchecked(inner) =>
        var p := Play(inner, refuses, k);
        PlayAll(inner, refuses, k);
        PlayAll(steps[1..], refuses, p.calls);
        AcceptsSum(refuses, k, Count(inner), Count(steps[1..]));
    }
  }

  lemma AcceptsSum(refuses: nat -> bool, k: nat, m: nat, n: nat)
    ensures Accepts(refuses, k, m + n) <==> Accepts(refuses, k, m) && Accepts(refuses, k + m, n)
  {
  }

  /** If all checked calls went well, everything was written exactly if none of the unchecked
      ones is refused. */
  lemma {:induction false} PlayUnchecked(steps: seq<Step>, refuses: nat -> bool, k: nat)
    requires Play(steps, refuses, k).ok && Flat(steps).Some? && Proper(steps)
    ensures Accepts(refuses, k, Count(steps)) <==> forall i: nat :: UncheckedCall(steps, k, i) ==> !refuses(i)
    decreases steps
  {
    UncheckedWithin(steps, k);
    if steps != [] && forall i: nat :: UncheckedCall(steps, k, i) ==> !refuses(i) {
      match steps[0]
      case Put(t) =>
        assert forall i: nat :: UncheckedCall(steps[1..], k + 1, i) ==> UncheckedCall(steps, k, i);
        PlayUnchecked(steps[1..], refuses, k + 1);
        AcceptsSum(refuses, k, 1, Count(steps[1..]));
      case Unchecked(inner) =>
        assert forall i: nat :: k <= i < k + Count(inner) ==> UncheckedCall(steps, k, i);
        assert forall i: nat :: UncheckedCall(steps[1..], k + Count(inner), i) ==> UncheckedCall(steps, k, i);
        PlayAll(inner, refuses, k);
        PlayUnchecked(steps[1..], refuses, k + Count(inner));
        AcceptsSum(refuses, k, Count(inner), Count(steps[1..]));
    }
  }

  lemma {:induction false} UncheckedWithin(steps: seq<Step>, k: nat)
    ensures forall i: nat :: UncheckedCall(steps, k, i) ==> k <= i < k + Count(steps)
    decreases steps
  {
    if steps != [] {
      match steps[0]
      case Stop =>
      case Put(_) => UncheckedWithin(steps[1..], k + 1);
      case Unchecked(inner) => UncheckedWithin(steps[1..], k + Count(inner));
    }
  }

  // ------------------------------------------------------------------ literals

  /** How far the cursor of dump_string moves over what needs no escape. */
  function PlainLen(t: bytes, ascii: bool): (n: nat)
    ensures n <= |t|
  {
    if t == [] || Utf8.Next(t).None? || NeedsEscape(Utf8.CodePoint(t), ascii) then 0
    else
      var m := Utf8.Next(t).value;
      m + PlainLen(t[m..], ascii)
  }

  /** It stops at the end, at what is no UTF-8, or at what needs an escape. */
  lemma {:induction false} PlainStops(t: bytes, ascii: bool)
    ensures var q := t[PlainLen(t, ascii)..]; q == [] || Utf8.Next(q).None? || NeedsEscape(Utf8.CodePoint(q), ascii)
  {
    hide Utf8.Next, Utf8.CodePoint, NeedsEscape;
    if t != [] && Utf8.Next(t).Some? && !NeedsEscape(Utf8.CodePoint(t), ascii) {
      var m := Utf8.Next(t).value;
      PlainStops(t[m..], ascii);
      assert t[m..][PlainLen(t[m..], ascii)..] == t[PlainLen(t, ascii)..];
    }
  }

  lemma PlainStep(t: bytes, ascii: bool)
    ensures t == [] || Utf8.Next(t).None? || NeedsEscape(Utf8.CodePoint(t), ascii) ==> PlainLen(t, ascii) == 0
    ensures t != [] && Utf8.Next(t).Some? && !NeedsEscape(Utf8.CodePoint(t), ascii) ==>
              PlainLen(t, ascii) == Utf8.Next(t).value + PlainLen(t[Utf8.Next(t).value..], ascii)
  {
    hide Utf8.Next, NeedsEscape, Utf8.CodePoint;
  }

  lemma Slices(t: bytes, a: nat, b: nat)
    requires a <= b <= |t|
    ensures t[a..][..b-a] == t[a..b] && t[a..][b-a..] == t[b..]
  {
  }

  function EscapeText(cp: int): bytes
    requires Utf8.IsScalar(cp)
  {
    G.UnitsText(EscapeUnits(cp))
  }

  /** The calls of dump_string from a sequence boundary on: runs of plain text, escapes, and
      the closing quote, up to invalid UTF-8. */
  function TailSteps(t: bytes, ascii: bool): seq<Step>
    decreases |t|, 1
  {
    var n := PlainLen(t, ascii);
    if n < |t| && Utf8.Next(t[n..]).None? then [Stop] else RunSteps(t[..n]) + AfterRun(t[n..], ascii)
  }

  /** What dump_string does where its cursor has come to rest. */
  function AfterRun(q: bytes, ascii: bool): seq<Step>
    requires q == [] || Utf8.Next(q).Some?
    decreases |q|, 0
  {
    if q == [] then [Put([QUOTE])] else [Put(EscapeText(Utf8.CodePoint(q)))] + TailSteps(q[Utf8.Next(q).value..], ascii)
  }

  function RunSteps(run: bytes): seq<Step> { if run == [] then [] else [Put(run)] }

  /** dump_string */
  function StringSteps(t: bytes, ascii: bool): seq<Step> { [Put([QUOTE])] + TailSteps(t, ascii) }

  /** dump_indent */
  function IndentSteps(fl: Flags, depth: nat, space: bool): seq<Step> {
    if fl.indent > 0 then [Put([10])] + Pads(fl.indent, depth)
    else if space && !fl.compact then [Put([32])]
    else []
  }

  function Pads(n: nat, depth: nat): seq<Step> {
    if depth == 0 then [] else Pads(n, depth - 1) + [Put(Spaces(n))]
  }
}
