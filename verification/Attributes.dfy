/**
  attrib.c: the six attributes of the player, their maxima and the exercise accumulated,
  for a fixed form. Attributes are signed chars. Random choices are parameters.
 */
module Attributes {
  import opened Advancement
  import opened Numbers

  const A_STR := 0
  const A_INT := 1
  const A_WIS := 2
  const A_CHA := 5
  const A_MAX := 6
  const AVAL := 50

  function Abs(a: int): int { if a < 0 then -a else a }
  function Sgn(a: int): int { if a < 0 then -1 else if a > 0 then 1 else 0 }

  /** Racial minimum, value, maximum and racial cap in their order. */
  predicate InBounds(lo: int, base: int, max: int, cap: int) {
    1 <= lo <= base <= max <= cap <= 100
  }

  // ---------------------------------------------------------------- adjattrib

  datatype Adjusted = Adjusted(base: int, max: int, changed: bool)

  /** adjattrib on one attribute: `current` is what acurr returns for it, `blocked` that
      abilities are fixed or a dunce cap is worn. */
  function Adjust(lo: int, base: int, max: int, cap: int, current: int, blocked: bool, incr: int): Adjusted {
    if blocked || incr == 0 then Adjusted(base, max, false)
    else if incr > 0 then
      if max >= cap && current >= max then Adjusted(cap, cap, false)
      else if base == cap then Adjusted(base, max, false)
      else
        var b := Schar(base + incr);
        if b > max then
          var m := Schar(max + (b - max));
          var m' := if m > cap then cap else m;
          Adjusted(m', m', true)
        else Adjusted(b, max, true)
    else if base <= lo then Adjusted(lo, max, false)
    else
      var b := Schar(base + incr);
      if b < lo then
        var m := Schar(max + (b - lo));
        Adjusted(lo, if m < lo then lo else m, true)
      else Adjusted(b, max, true)
  }

  /** Whether adjattrib gets as far as adding the change. */
  predicate Reached(lo: int, base: int, max: int, cap: int, current: int, blocked: bool, incr: int) {
    !blocked && incr != 0 && if incr > 0 then !(max >= cap && current >= max) && base != cap else base > lo
  }

  /** The bounds are kept exactly when the sum, as a signed char, has not come out on the
      wrong side. */
  lemma AdjustKeepsBounds(lo: int, base: int, max: int, cap: int, current: int, blocked: bool, incr: int)
    requires InBounds(lo, base, max, cap)
    ensures var r := Adjust(lo, base, max, cap, current, blocked, incr);
            InBounds(lo, r.base, r.max, cap) <==>
            (Reached(lo, base, max, cap, current, blocked, incr) ==>
               if incr > 0 then Schar(base + incr) >= lo else Schar(base + incr) <= max)
  {
  }

  /** A large enough change wraps around: strength 10 raised by 120 becomes -126. */
  lemma AdjustWraps()
    ensures Adjust(3, 10, 10, 18, 10, false, 120) == Adjusted(-126, 10, true)
  {
  }

  /** What a change does as long as the sum fits a signed char. */
  lemma AdjustIs(lo: int, base: int, max: int, cap: int, current: int, blocked: bool, incr: int)
    requires InBounds(lo, base, max, cap) && -128 <= base + incr < 128
    ensures var r := Adjust(lo, base, max, cap, current, blocked, incr);
            && InBounds(lo, r.base, r.max, cap)
            && (r.changed <==> Reached(lo, base, max, cap, current, blocked, incr))
            && (r.changed && incr > 0 ==> r.base == Min(base + incr, cap) && r.max == Max(max, r.base) && r.base > base)
            && (r.changed && incr < 0 ==> r.base == Max(base + incr, lo) && r.max == Max(lo, max - Max(0, lo - (base + incr))) && r.base < base)
            && (!r.changed ==> r.max == max && (r.base == base || (r.base == max == cap && incr > 0)))
  {
  }

  /** When FALSE means that nothing changed: always, unless a maximum that cannot rise, and
      is reached only with a bonus or by it, lifts a base below it. */
  lemma FalseUnchangedIff(lo: int, base: int, max: int, cap: int, current: int, blocked: bool, incr: int)
    requires InBounds(lo, base, max, cap) && -128 <= base + incr < 128
    ensures var r := Adjust(lo, base, max, cap, current, blocked, incr);
            !r.changed ==>
              (r.base == base && r.max == max <==> !(!blocked && incr > 0 && max >= cap && current >= max && base < cap))
  {
  }

  /** FALSE does not mean that nothing changed. */
  lemma FalseButRaised()
    ensures Adjust(3, 10, 18, 18, 18, false, 1) == Adjusted(18, 18, false)
  {
  }

  // ------------------------------------------------------------------- exerchk

  /** One attribute and the exercise accumulated for it. */
  datatype Trial = Trial(base: int, max: int, exe: int)

  /** Whether exerchk tries to change attribute i at all. */
  predicate Tries(i: nat, base: int, exe: int, roll: nat) {
    && base < 18 && exe != 0 && i != A_INT && i != A_CHA
    && roll <= if i != A_WIS then Abs(CDiv(exe * 2, 3)) else Abs(exe)
  }

  /** Strength, wisdom, dexterity and constitution are tried below 18: wisdom if the roll is at
      most what has been accumulated, the others if it is at most two thirds of that. */
  lemma TriesIff(i: nat, base: int, exe: int, roll: nat)
    ensures Tries(i, base, exe, roll) <==>
            && base < 18 && exe != 0 && i != 1 && i != 5
            && if i == 2 then roll <= exe || roll <= -exe else 3 * roll <= 2 * exe || 3 * roll <= -2 * exe
  {
    CDivIs(exe * 2, 3);
  }

  function Tried(i: nat, lo: int, t: Trial, cap: int, current: int, blocked: bool, roll: nat): Trial {
    if !Tries(i, t.base, t.exe, roll) then t
    else
      var r := Adjust(lo, t.base, t.max, cap, current, blocked, Sgn(t.exe));
      if r.changed then Trial(r.base, if t.exe < 0 then r.max - 1 else r.max, 0)
      else Trial(r.base, r.max, t.exe)
  }

  /** What the test comes to: abuse takes one point from value and maximum, unless the value is
      at the racial minimum; exercise adds one point, lifting the maximum only when the value was
      there, or, when the maximum cannot rise any more, lets the value recover to it. */
  lemma TriedIs(i: nat, lo: int, t: Trial, cap: int, current: int, blocked: bool, roll: nat)
    requires InBounds(lo, t.base, t.max, cap)
    ensures var r := Tried(i, lo, t, cap, current, blocked, roll);
            var tries := Tries(i, t.base, t.exe, roll) && !blocked;
            && InBounds(lo, r.base, r.max, cap)
            && (!tries ==> r == t)
            && (tries && t.exe < 0 ==> r == if t.base > lo then Trial(t.base - 1, t.max - 1, 0) else t)
            && (tries && t.exe > 0 && t.max == cap && current >= cap ==> r == Trial(cap, cap, t.exe))
            && (tries && t.exe > 0 && (t.max < cap || current < cap) ==>
                  r == if t.base == cap then t else Trial(t.base + 1, Max(t.max, t.base + 1), 0))
  {
    hide CDiv;
  }

  // ------------------------------------------------------------- sums of points

  function Sum(s: seq<int>): int { if s == [] then 0 else Sum(s[..|s|-1]) + s[|s|-1] }

  lemma SumSnoc(s: seq<int>, i: nat)
    requires i < |s|
    ensures Sum(s[..i+1]) == Sum(s[..i]) + s[i]
  {
    assert s[..i+1][..i] == s[..i];
  }

  lemma {:induction false} SumUpdate(s: seq<int>, i: nat, x: int)
    requires i < |s|
    ensures Sum(s[i := x]) == Sum(s) + x - s[i]
  {
    var t := s[i := x];
    if i == |s| - 1 {
      assert t[..|t|-1] == s[..|s|-1];
    } else {
      assert t[..|t|-1] == s[..|s|-1][i := x];
      SumUpdate(s[..|s|-1], i, x);
    }
  }

  // --------------------------------------------------------------- init_attr

  /** The first place at which the shares, from place i on, add up to x. */
  function Picked(x: int, shares: seq<int>, i: nat): nat
    decreases |shares| - i
  {
    if i >= |shares| || x - shares[i] <= 0 then i else Picked(x - shares[i], shares, i + 1)
  }

  lemma {:induction false} PickedIs(roll: int, shares: seq<int>, i: nat)
    requires i <= |shares| && roll <= Sum(shares) && (i > 0 ==> Sum(shares[..i]) < roll)
    requires shares != [] && forall j :: 0 < j < i ==> Sum(shares[..j]) < roll
    ensures var k := Picked(roll - Sum(shares[..i]), shares, i);
            && i <= k < |shares| && roll <= Sum(shares[..k+1])
            && forall j :: 0 < j <= k ==> Sum(shares[..j]) < roll
    decreases |shares| - i
  {
    assert shares[..|shares|] == shares;
    assert i < |shares|;
    SumSnoc(shares, i);
    hide Sum;
    var x := roll - Sum(shares[..i]);
    if x - shares[i] > 0 {
      PickedIs(roll, shares, i + 1);
      assert Picked(x, shares, i) == Picked(x - shares[i], shares, i + 1);
    } else {
      assert Picked(x, shares, i) == i;
    }
  }

  /** Points not dealt, attributes, and rolls used up. */
  datatype Dealing = Dealing(rest: int, base: seq<int>, used: nat)

  ghost predicate Shares(dist: seq<int>, rolls: nat -> int) {
    |dist| == A_MAX && Sum(dist) >= 99 && forall n :: 0 <= rolls(n) < 100
  }

  function Place(roll: int, dist: seq<int>): (i: nat)
    requires |dist| == A_MAX && Sum(dist) >= roll
    ensures i < A_MAX
  {
    PickedIs(roll, dist, 0);
    Picked(roll, dist, 0)
  }

  /** One pass: a point to each place rolled that is below its limit, until no points are left
      or a hundred rolls in a row were in vain. */
  function DealOut(np: int, base: seq<int>, limit: seq<int>, dist: seq<int>, rolls: nat -> int, n: nat, vain: nat): Dealing
    requires |base| == |limit| == A_MAX && Shares(dist, rolls)
    decreases if np > 0 then np else 0, if vain < 100 then 100 - vain else 0
  {
    if np <= 0 || vain >= 100 then Dealing(np, base, n)
    else
      var i := Place(rolls(n), dist);
      if base[i] >= limit[i] then DealOut(np, base, limit, dist, rolls, n + 1, vain + 1)
      else DealOut(np - 1, base[i := base[i] + 1], limit, dist, rolls, n + 1, 0)
  }

  predicate InVain(base: seq<int>, limit: seq<int>, dist: seq<int>, roll: int)
    requires |base| == |limit| == A_MAX == |dist| && Sum(dist) >= roll
  {
    base[Place(roll, dist)] >= limit[Place(roll, dist)]
  }

  /** A pass loses no point, takes nothing away, goes beyond no limit, and leaves points only
      after a hundred rolls in a row on places that are full. */
  lemma {:induction false} DealOutIs(np: int, base: seq<int>, limit: seq<int>, dist: seq<int>, rolls: nat -> int, n: nat, vain: nat)
    requires |base| == |limit| == A_MAX && Shares(dist, rolls)
    ensures var d := DealOut(np, base, limit, dist, rolls, n, vain);
            && |d.base| == A_MAX && d.rest + Sum(d.base) == np + Sum(base) && d.used >= n
            && (forall i :: 0 <= i < A_MAX ==> base[i] <= d.base[i] <= Max(base[i], limit[i]))
            && (np >= 0 ==> d.rest >= 0)
            && (d.rest > 0 ==> d.used >= n + 100 - vain)
            && (d.rest > 0 ==> forall m :: Max(n, d.used - 100) <= m < d.used ==> InVain(d.base, limit, dist, rolls(m)))
    decreases if np > 0 then np else 0, if vain < 100 then 100 - vain else 0
  {
    hide Place, Sum;
    if np > 0 && vain < 100 {
      var i := Place(rolls(n), dist);
      if base[i] >= limit[i] {
        DealOutIs(np, base, limit, dist, rolls, n + 1, vain + 1);
      } else {
        DealOutIs(np - 1, base[i := base[i] + 1], limit, dist, rolls, n + 1, 0);
        SumUpdate(base, i, base[i] + 1);
      }
    }
  }

  /** How many of the rolls from n up to the end fall on place i. */
  function Hits(i: nat, dist: seq<int>, rolls: nat -> int, n: nat, end: nat): nat
    requires Shares(dist, rolls) && n <= end
    decreases end - n
  {
    if n == end then 0 else (if Place(rolls(n), dist) == i then 1 else 0) + Hits(i, dist, rolls, n + 1, end)
  }

  /** Every place gains a point for each roll that falls on it, until it is full. */
  lemma {:induction false} DealtWhereRolled(np: int, base: seq<int>, limit: seq<int>, dist: seq<int>, rolls: nat -> int, n: nat, vain: nat,
                                            i: nat)
    requires |base| == |limit| == A_MAX && Shares(dist, rolls) && i < A_MAX
    ensures var d := DealOut(np, base, limit, dist, rolls, n, vain);
            && |d.base| == A_MAX && d.used >= n
            && d.base[i] == if base[i] >= limit[i] then base[i] else Min(limit[i], base[i] + Hits(i, dist, rolls, n, d.used))
    decreases if np > 0 then np else 0, if vain < 100 then 100 - vain else 0
  {
    hide Place, Sum;
    if np > 0 && vain < 100 {
      var k := Place(rolls(n), dist);
      if base[k] >= limit[k] {
        DealtWhereRolled(np, base, limit, dist, rolls, n + 1, vain + 1, i);
      } else {
        DealtWhereRolled(np - 1, base[k := base[k] + 1], limit, dist, rolls, n + 1, 0, i);
      }
    }
  }

  /** A roll falls on the first place at which the shares add up to it. */
  lemma PlaceIs(roll: int, dist: seq<int>, i: nat)
    requires |dist| == A_MAX && Sum(dist) >= roll && i < A_MAX
    ensures Place(roll, dist) == i <==> roll <= Sum(dist[..i+1]) && forall j :: 0 < j <= i ==> Sum(dist[..j]) < roll
  {
    PickedIs(roll, dist, 0);
    hide Sum, Picked;
    var k := Place(roll, dist);
    if i < k {
      assert Sum(dist[..i+1]) < roll;
    } else if k < i {
      assert Sum(dist[..k+1]) >= roll;
    }
  }

  /** What is above the racial cap is taken back. */
  function Cut(d: Dealing, cap: seq<int>): Dealing
    requires |d.base| == |cap| == A_MAX
  {
    var base := seq(A_MAX, i requires 0 <= i < A_MAX => Min(d.base[i], cap[i]));
    Dealing(d.rest + Sum(d.base) - Sum(base), base, d.used)
  }

  /** The limits of the second pass. */
  const SECOND: seq<int> := [21, 20, 20, 20, 20, 20]

  function DealTwice(np: int, attrbase: seq<int>, cap: seq<int>, dist: seq<int>, rolls: nat -> int, rolls2: nat -> int): Dealing
    requires |attrbase| == |cap| == A_MAX && Shares(dist, rolls) && Shares(dist, rolls2)
  {
    DealOutIs(np - Sum(attrbase), attrbase, cap, dist, rolls, 0, 0);
    var d := Cut(DealOut(np - Sum(attrbase), attrbase, cap, dist, rolls, 0, 0), cap);
    DealOutIs(d.rest, d.base, SECOND, dist, rolls2, 0, 0);
    Cut(DealOut(d.rest, d.base, SECOND, dist, rolls2, 0, 0), cap)
  }

  /** No point is lost, and no attribute is below what its role starts with, unless its race
      has a lower cap, or above its racial cap. If points are left over, either a hundred
      rolls in a row fell on attributes that the second pass held to be full, or it had
      brought some attribute beyond its cap. */
  lemma DealTwiceIs(np: int, attrbase: seq<int>, cap: seq<int>, dist: seq<int>, rolls: nat -> int, rolls2: nat -> int)
    requires |attrbase| == |cap| == A_MAX && Shares(dist, rolls) && Shares(dist, rolls2)
    ensures var d := DealTwice(np, attrbase, cap, dist, rolls, rolls2);
            && |d.base| == A_MAX && d.rest + Sum(d.base) == np
            && (forall i :: 0 <= i < A_MAX ==> Min(attrbase[i], cap[i]) <= d.base[i] <= cap[i])
            && (d.rest > 0 ==>
                  || (exists i :: 0 <= i < A_MAX && d.base[i] == cap[i] < SECOND[i])
                  || (d.used >= 100 && forall m :: d.used - 100 <= m < d.used ==> InVain(d.base, SECOND, dist, rolls2(m))))
  {
    hide Sum, DealOut, InVain;
    DealOutIs(np - Sum(attrbase), attrbase, cap, dist, rolls, 0, 0);
    var c := Cut(DealOut(np - Sum(attrbase), attrbase, cap, dist, rolls, 0, 0), cap);
    DealOutIs(c.rest, c.base, SECOND, dist, rolls2, 0, 0);
    var d := DealOut(c.rest, c.base, SECOND, dist, rolls2, 0, 0);
    if forall i :: 0 <= i < A_MAX ==> d.base[i] <= cap[i] {
      assert Cut(d, cap).base == d.base;
    } else {
      var i :| 0 <= i < A_MAX && d.base[i] > cap[i];
      assert Cut(d, cap).base[i] == cap[i] < SECOND[i];
    }
  }

  /** What happens to the attributes, each with what acurr returns and the dice show. */
  datatype Event =
    | Adjusting(i: nat, incr: int, current: int, blocked: bool)
    | Losing(num: nat, current: int, blocked: bool)
    | Exercising(i: nat, up: bool, current: int, elsewhere: bool, roll: int)
    | Testing(currents: seq<int>, blocks: seq<bool>, rolls: seq<nat>)
    | Polymorphing(dice: seq<nat>)

  /** Dice show what they can show, and no change is so large that a sum would wrap around
      for some value between the bounds. */
  predicate Legal(e: Event) {
    match e
    case Adjusting(i, incr, current, blocked) => i < A_MAX && -128 < incr < 28
    case Losing(num, current, blocked) => true
    case Exercising(i, up, current, elsewhere, roll) => i < A_MAX && 0 <= roll < if up then 19 else 2
    case Testing(currents, blocks, rolls) => |currents| == |blocks| == |rolls| == A_MAX
    case Polymorphing(dice) => |dice| == A_MAX && forall i :: 0 <= i < A_MAX ==> dice[i] < 5
  }

  lemma {:induction false} AllVain(np: int, base: seq<int>, limit: seq<int>, dist: seq<int>, rolls: nat -> int, n: nat, vain: nat)
    requires |base| == |limit| == A_MAX && Shares(dist, rolls) && forall m :: InVain(base, limit, dist, rolls(m))
    ensures var d := DealOut(np, base, limit, dist, rolls, n, vain); d.rest == np && d.base == base
    decreases if vain < 100 then 100 - vain else 0
  {
    hide Place, Sum;
    if np > 0 && vain < 100 {
      assert InVain(base, limit, dist, rolls(n));
      AllVain(np, base, limit, dist, rolls, n + 1, vain + 1);
    }
  }

  const ON_STRENGTH: seq<int> := [100, 0, 0, 0, 0, 0]

  lemma StrengthOnly()
    ensures Shares(ON_STRENGTH, _ => 0) && Place(0, ON_STRENGTH) == 0
  {
    var d := ON_STRENGTH;
    for i := 0 to 6
      invariant Sum(d[..i]) == if i == 0 then 0 else 100
    {
      SumSnoc(d, i);
    }
    assert d[..6] == d;
  }

  /** Points cut from the second pass are not dealt again: with a racial cap of 18 and all
      rolls on strength, three points are lost that another attribute could have taken. */
  lemma PointsLeftUndealt()
    ensures Shares(ON_STRENGTH, _ => 0)
    ensures var base, cap := [18, 10, 10, 10, 10, 10], [18, 18, 18, 18, 18, 18];
            var d := DealTwice(71, base, cap, ON_STRENGTH, _ => 0, _ => 0);
            d.rest == 3 && d.base == base
  {
    var base, cap := [18, 10, 10, 10, 10, 10], [18, 18, 18, 18, 18, 18];
    var rolls: nat -> int := _ => 0;
    StrengthOnly();
    SumOfBase(base);
    hide Place, Sum;
    FirstInVain(base, cap, rolls);
    SecondOnStrength(base, rolls);
    SumUpdate(base, 0, 21);
    hide DealOut;
    CutStrength(base, cap, 0, 3);
  }

  lemma SumOfBase(b: seq<int>)
    requires b == [18, 10, 10, 10, 10, 10]
    ensures Sum(b) == 68
  {
    for i := 0 to 6
      invariant Sum(b[..i]) == if i == 0 then 0 else 8 + 10 * i
    {
      SumSnoc(b, i);
    }
    assert b[..6] == b;
  }

  lemma FirstInVain(base: seq<int>, cap: seq<int>, rolls: nat -> int)
    requires base == [18, 10, 10, 10, 10, 10] && cap == [18, 18, 18, 18, 18, 18] && forall n :: rolls(n) == 0
    requires Shares(ON_STRENGTH, rolls) && Place(0, ON_STRENGTH) == 0
    ensures var first := DealOut(3, base, cap, ON_STRENGTH, rolls, 0, 0);
            |first.base| == A_MAX && Cut(first, cap).rest == 3 && Cut(first, cap).base == base
  {
    hide Place, Sum;
    AllVain(3, base, cap, ON_STRENGTH, rolls, 0, 0);
    DealOutIs(3, base, cap, ON_STRENGTH, rolls, 0, 0);
    assert Cut(DealOut(3, base, cap, ON_STRENGTH, rolls, 0, 0), cap).base == base;
  }

  lemma SecondOnStrength(base: seq<int>, rolls: nat -> int)
    requires base == [18, 10, 10, 10, 10, 10] && (forall n :: rolls(n) == 0) && Shares(ON_STRENGTH, rolls) && Place(0, ON_STRENGTH) == 0
    ensures DealOut(3, base, SECOND, ON_STRENGTH, rolls, 0, 0) == Dealing(0, base[0 := 21], 3)
  {
    hide Place, Sum;
    var s1, s2, s3 := base[0 := 19], base[0 := 20], base[0 := 21];
    assert SECOND[0] == 21;
    assert DealOut(3, base, SECOND, ON_STRENGTH, rolls, 0, 0) == DealOut(2, s1, SECOND, ON_STRENGTH, rolls, 1, 0);
    assert DealOut(2, s1, SECOND, ON_STRENGTH, rolls, 1, 0) == DealOut(1, s2, SECOND, ON_STRENGTH, rolls, 2, 0);
    assert DealOut(1, s2, SECOND, ON_STRENGTH, rolls, 2, 0) == Dealing(0, s3, 3);
  }

  lemma CutStrength(base: seq<int>, cap: seq<int>, rest: int, used: nat)
    requires base == [18, 10, 10, 10, 10, 10] && cap == [18, 18, 18, 18, 18, 18]
    ensures var s := base[0 := 21]; Cut(Dealing(rest, s, used), cap) == Dealing(rest + Sum(s) - Sum(base), base, used)
  {
    hide Sum;
    assert Cut(Dealing(rest, base[0 := 21], used), cap).base == base;
  }

  class You {
    /** u.acurr.a, u.amax.a and u.aexe.a. */
    const base: array<int>
    const max: array<int>
    const exe: array<int>

    /** ATTRMIN and ATTRMAX for the form the player is in. */
    const lo: seq<int>
    const cap: seq<int>

    var hp: int
    var hpmax: int

    ghost predicate Valid() {
      && base.Length == A_MAX && max.Length == A_MAX && exe.Length == A_MAX
      && base != max && max != exe && base != exe
      && |lo| == A_MAX && |cap| == A_MAX && forall i :: 0 <= i < A_MAX ==> 1 <= lo[i] <= cap[i] <= 100
    }

    ghost predicate BoundedAt(i: nat)
      requires Valid() && i < A_MAX
      reads base, max
    {
      InBounds(lo[i], base[i], max[i], cap[i])
    }

    ghost predicate Bounded()
      requires Valid()
      reads base, max
    {
      forall i :: 0 <= i < A_MAX ==> BoundedAt(i)
    }

    ghost predicate Exercised()
      requires Valid()
      reads exe
    {
      forall i :: 0 <= i < A_MAX ==> -AVAL <= exe[i] <= AVAL
    }

    constructor (lo: seq<int>, cap: seq<int>)
      requires |lo| == A_MAX && |cap| == A_MAX && forall i :: 0 <= i < A_MAX ==> 1 <= lo[i] <= cap[i] <= 100
      ensures Valid() && Exercised() && fresh(base) && fresh(max) && fresh(exe) && this.lo == lo && this.cap == cap
    {
      this.lo := lo;
      this.cap := cap;
      base := new int[A_MAX](_ => 0);
      max := new int[A_MAX](_ => 0);
      exe := new int[A_MAX](_ => 0);
      hp, hpmax := 1, 1;
    }

    method AdjAttrib(i: nat, incr: int, current: int, blocked: bool) returns (changed: bool)
      requires Valid() && i < A_MAX
      modifies base, max
      ensures Adjusted(base[i], max[i], changed) == Adjust(lo[i], old(base[i]), old(max[i]), cap[i], current, blocked, incr)
      ensures forall j :: 0 <= j < A_MAX && j != i ==> base[j] == old(base[j]) && max[j] == old(max[j])
    {
      if blocked || incr == 0 {
        return false;
      }
      if incr > 0 {
        if max[i] >= cap[i] && current >= max[i] {
          base[i], max[i] := cap[i], cap[i];
          return false;
        }
        if base[i] == cap[i] {
          return false;
        }
        base[i] := Schar(base[i] + incr);
        if base[i] > max[i] {
          var more := base[i] - max[i];
          max[i] := Schar(max[i] + more);
          if max[i] > cap[i] {
            max[i] := cap[i];
          }
          base[i] := max[i];
        }
      } else {
        if base[i] <= lo[i] {
          base[i] := lo[i];
          return false;
        }
        base[i] := Schar(base[i] + incr);
        if base[i] < lo[i] {
          var less := base[i] - lo[i];
          base[i] := lo[i];
          max[i] := Schar(max[i] + less);
          if max[i] < lo[i] {
            max[i] := lo[i];
          }
        }
      }
      changed := true;
    }

    /** losestr, short of death: each point that strength would fall below 3 is spared, and
        costs six hit points instead. */
    method LoseStr(num: nat, current: int, blocked: bool)
      requires Valid() && Bounded()
      modifies this`hp, this`hpmax, base, max
      ensures Bounded()
      ensures forall j :: 0 < j < A_MAX ==> base[j] == old(base[j]) && max[j] == old(max[j])
      ensures var spared := Max(0, 3 - (old(base[A_STR]) - num));
              && hp == old(hp) - 6 * spared && hpmax == old(hpmax) - 6 * spared
              && var r := Adjust(lo[A_STR], old(base[A_STR]), old(max[A_STR]), cap[A_STR], current, blocked, spared - num);
                 base[A_STR] == r.base && max[A_STR] == r.max
    {
      var ustr: int := base[A_STR] - num;
      var less: int := num;
      ghost var start := ustr;
      while ustr < 3
        invariant ustr == base[A_STR] - less && start <= ustr && (ustr <= 3 || ustr == start)
        invariant hp == old(hp) - 6 * (ustr - start) && hpmax == old(hpmax) - 6 * (ustr - start)
        modifies this`hp, this`hpmax
        decreases 3 - ustr
      {
        ustr := ustr + 1;
        less := less - 1;
        hp := hp - 6;
        hpmax := hpmax - 6;
      }
      assert BoundedAt(A_STR);
      AdjustIs(lo[A_STR], base[A_STR], max[A_STR], cap[A_STR], current, blocked, -less);
      hide Adjust;
      var changed := AdjAttrib(A_STR, -less, current, blocked);
      Elsewhere(A_STR);
    }

    /** Bounds at all places but one. */
    twostate lemma Elsewhere(i: nat)
      requires Valid() && i < A_MAX && BoundedAt(i) && old(Bounded())
      requires forall j :: 0 <= j < A_MAX && j != i ==> base[j] == old(base[j]) && max[j] == old(max[j])
      ensures Bounded()
    {
      forall j | 0 <= j < A_MAX
        ensures BoundedAt(j)
      {
        assert j != i ==> old(BoundedAt(j));
      }
    }

    /** exercise, with the roll of rn2(19) or rn2(2). */
    method Exercise(i: nat, up: bool, current: int, elsewhere: bool, roll: int)
      requires Valid() && i < A_MAX && Exercised() && 0 <= roll < if up then 19 else 2
      modifies exe
      ensures Exercised() && forall j :: 0 <= j < A_MAX && j != i ==> exe[j] == old(exe[j])
      ensures if i == A_INT || i == A_CHA || (elsewhere && i != A_WIS) || Abs(old(exe[i])) >= AVAL then exe[i] == old(exe[i])
              else exe[i] == old(exe[i]) + if up then (if roll > current then 1 else 0) else -roll
    {
      if i == A_INT || i == A_CHA {
        return;
      }
      if elsewhere && i != A_WIS {
        return;
      }
      if Abs(exe[i]) < AVAL {
        exe[i] := exe[i] + if up then (if roll > current then 1 else 0) else -roll;
      }
    }

    /** The periodic test of exerchk: accumulated exercise may turn into a point gained or
        lost for good, and what is left of it is halved. */
    method ExerChk(current: seq<int>, blocked: seq<bool>, rolls: seq<nat>)
      requires Valid() && Bounded() && Exercised()
      requires |current| == |blocked| == |rolls| == A_MAX
      modifies base, max, exe
      ensures Bounded() && Exercised()
      ensures forall i :: 0 <= i < A_MAX ==>
                var t := Tried(i, lo[i], old(At(i)), cap[i], current[i], blocked[i], rolls[i]);
                At(i) == t.(exe := CDiv(t.exe, 2))
    {
      for i := 0 to A_MAX
        invariant Bounded() && Exercised()
        invariant forall j :: i <= j < A_MAX ==> At(j) == old(At(j))
        invariant forall j :: 0 <= j < i ==>
                    var t := Tried(j, lo[j], old(At(j)), cap[j], current[j], blocked[j], rolls[j]);
                    At(j) == t.(exe := CDiv(t.exe, 2))
      {
        hide Tried;
        label Before:
        assert BoundedAt(i);
        assert At(i) == old(At(i));
        TriedIs(i, lo[i], At(i), cap[i], current[i], blocked[i], rolls[i]);
        ExerTest(i, current[i], blocked[i], rolls[i]);
        Elsewhere@Before(i);
        exe[i] := CDiv(exe[i], 2);
      }
    }

    ghost function At(i: nat): Trial
      requires Valid() && i < A_MAX
      reads base, max, exe
    {
      Trial(base[i], max[i], exe[i])
    }

    method ExerTest(i: nat, current: int, blocked: bool, roll: nat)
      requires Valid() && i < A_MAX && BoundedAt(i)
      modifies base, max, exe
      ensures At(i) == Tried(i, lo[i], old(At(i)), cap[i], current, blocked, roll)
      ensures BoundedAt(i) && (exe[i] == old(exe[i]) || exe[i] == 0)
      ensures forall j :: 0 <= j < A_MAX && j != i ==> base[j] == old(base[j]) && max[j] == old(max[j]) && exe[j] == old(exe[j])
    {
      TriedIs(i, lo[i], At(i), cap[i], current, blocked, roll);
      hide Adjust, CDiv;
      if base[i] >= 18 || exe[i] == 0 {
        return;
      }
      if i == A_INT || i == A_CHA {
        return;
      }
      if roll > if i != A_WIS then Abs(CDiv(exe[i] * 2, 3)) else Abs(exe[i]) {
        return;
      }
      var mod := Sgn(exe[i]);
      var changed := AdjAttrib(i, mod, current, blocked);
      if changed {
        if mod < 0 {
          max[i] := max[i] - 1;
        }
        exe[i] := 0;
      }
    }

    /** redist_attr, with a roll of rn2(5) for each attribute. */
    method RedistAttr(rolls: seq<nat>)
      requires Valid() && Bounded() && |rolls| == A_MAX && forall i :: 0 <= i < A_MAX ==> rolls[i] < 5
      modifies base, max
      ensures Bounded()
      ensures base[A_INT] == old(base[A_INT]) && base[A_WIS] == old(base[A_WIS])
      ensures max[A_INT] == old(max[A_INT]) && max[A_WIS] == old(max[A_WIS])
      ensures forall i :: 0 <= i < A_MAX && i != A_INT && i != A_WIS ==>
                && max[i] == Max(lo[i], Min(cap[i], old(max[i]) + rolls[i] - 2))
                && old(BoundedAt(i)) && base[i] == Max(lo[i], old(base[i]) * max[i] / old(max[i]))
    {
      for i := 0 to A_MAX
        invariant Bounded()
        invariant forall j :: i <= j < A_MAX ==> base[j] == old(base[j]) && max[j] == old(max[j])
        invariant forall j :: 0 <= j < i && (j == A_INT || j == A_WIS) ==> base[j] == old(base[j]) && max[j] == old(max[j])
        invariant forall j :: 0 <= j < i && j != A_INT && j != A_WIS ==>
                    && max[j] == Max(lo[j], Min(cap[j], old(max[j]) + rolls[j] - 2))
                    && old(BoundedAt(j)) && base[j] == Max(lo[j], old(base[j]) * max[j] / old(max[j]))
      {
        if i == A_INT || i == A_WIS {
          continue;
        }
        assert BoundedAt(i) && old(BoundedAt(i));
        Redistribute(i, rolls[i]);
      }
    }

    method Redistribute(i: nat, roll: int)
      requires Valid() && i < A_MAX && Bounded() && BoundedAt(i) && 0 <= roll < 5
      modifies base, max
      ensures Bounded() && forall j :: 0 <= j < A_MAX && j != i ==> base[j] == old(base[j]) && max[j] == old(max[j])
      ensures max[i] == Max(lo[i], Min(cap[i], old(max[i]) + roll - 2))
      ensures base[i] == Max(lo[i], old(base[i]) * max[i] / old(max[i]))
    {
      var tmp := max[i];
      max[i] := max[i] + (roll - 2);
      if max[i] > cap[i] {
        max[i] := cap[i];
      }
      if max[i] < lo[i] {
        max[i] := lo[i];
      }
      Rescaled(base[i], max[i], tmp);
      base[i] := base[i] * max[i] / tmp;
      if base[i] < lo[i] {
        base[i] := lo[i];
      }
      Elsewhere(i);
    }

    // ----------------------------------------------------------------- whole runs

    /** Whatever happens to the attributes, in whatever order, they keep their bounds, and
        accumulated exercise stays within 50. */
    method Run(events: seq<Event>)
      requires Valid() && Bounded() && Exercised() && forall e :: e in events ==> Legal(e)
      modifies this`hp, this`hpmax, base, max, exe
      ensures Bounded() && Exercised()
    {
      for n := 0 to |events|
        invariant Bounded() && Exercised()
      {
        assert events[n] in events;
        match events[n]
        case Adjusting(i, incr, current, blocked) => AdjustModestly(i, incr, current, blocked);
        case Losing(num, current, blocked) => LoseStr(num, current, blocked);
        case Exercising(i, up, current, elsewhere, roll) => Exercise(i, up, current, elsewhere, roll);
        case Testing(current, blocked, rolls) => ExerChk(current, blocked, rolls);
        case Polymorphing(rolls) => RedistAttr(rolls);
      }
    }

    method AdjustModestly(i: nat, incr: int, current: int, blocked: bool)
      requires Valid() && Bounded() && i < A_MAX && -128 < incr < 28
      modifies base, max
      ensures Bounded()
    {
      assert BoundedAt(i);
      AdjustIs(lo[i], base[i], max[i], cap[i], current, blocked, incr);
      hide Adjust;
      var changed := AdjAttrib(i, incr, current, blocked);
      Elsewhere(i);
    }

    // ----------------------------------------------------------- starting values

    /** While init_attr is at work bases equal maxima. */
    ghost predicate Level()
      requires Valid()
      reads base, max
    {
      forall i :: 0 <= i < A_MAX ==> base[i] == max[i]
    }

    /** init_attr: deals np points, with the rolls of rn2(100) that the two passes see. */
    method InitAttr(np: int, attrbase: seq<int>, attrdist: seq<int>, rolls: nat -> int, rolls2: nat -> int)
      requires Valid() && |attrbase| == A_MAX && forall i :: 0 <= i < A_MAX ==> lo[i] <= attrbase[i]
      requires Shares(attrdist, rolls) && Shares(attrdist, rolls2)
      modifies base, max
      ensures Bounded() && Level()
      ensures base[..] == DealTwice(np, attrbase, cap, attrdist, rolls, rolls2).base
    {
      hide DealOut, Cut, Sum;
      DealTwiceIs(np, attrbase, cap, attrdist, rolls, rolls2);
      var rest := StartBases(np, attrbase);
      DealOutIs(rest, attrbase, cap, attrdist, rolls, 0, 0);
      rest := Deal(rest, cap, attrdist, rolls);
      rest := CutToCaps(rest, DealOut(np - Sum(attrbase), attrbase, cap, attrdist, rolls, 0, 0));
      ghost var d := Dealing(rest, base[..], 0);
      DealOutIs(rest, base[..], SECOND, attrdist, rolls2, 0, 0);
      rest := Deal(rest, SECOND, attrdist, rolls2);
      rest := CutToCaps(rest, DealOut(d.rest, d.base, SECOND, attrdist, rolls2, 0, 0));
      forall i | 0 <= i < A_MAX
        ensures BoundedAt(i)
      {
        assert base[..][i] == base[i];
      }
    }

    method StartBases(np: int, attrbase: seq<int>) returns (rest: int)
      requires Valid() && |attrbase| == A_MAX
      modifies base, max
      ensures Level() && base[..] == attrbase && rest == np - Sum(attrbase)
    {
      rest := np;
      for i := 0 to A_MAX
        invariant forall j :: 0 <= j < i ==> base[j] == max[j] == attrbase[j]
        invariant rest == np - Sum(attrbase[..i])
      {
        base[i], max[i] := attrbase[i], attrbase[i];
        rest := rest - attrbase[i];
        SumSnoc(attrbase, i);
      }
      assert attrbase[..A_MAX] == attrbase;
    }

    /** Deals points until none are left or a hundred tries in a row have failed. */
    method Deal(np: int, limit: seq<int>, attrdist: seq<int>, rolls: nat -> int) returns (rest: int)
      requires Valid() && Level() && |limit| == A_MAX && Shares(attrdist, rolls)
      modifies base, max
      ensures var d := DealOut(np, old(base[..]), limit, attrdist, rolls, 0, 0);
              rest == d.rest && base[..] == d.base
      ensures Level()
    {
      hide Place;
      rest := np;
      var tryct := 0;
      var n := 0;
      while rest > 0 && tryct < 100
        invariant Level() && tryct <= 100
        invariant DealOut(rest, base[..], limit, attrdist, rolls, n, tryct)
               == DealOut(np, old(base[..]), limit, attrdist, rolls, 0, 0)
        decreases rest, 100 - tryct
      {
        var i := Pick(rolls(n), attrdist);
        n := n + 1;
        if base[i] >= limit[i] {
          tryct := tryct + 1;
          continue;
        }
        tryct := 0;
        ghost var now := base[..][i := base[i] + 1];
        base[i] := base[i] + 1;
        max[i] := max[i] + 1;
        assert base[..] == now;
        rest := rest - 1;
      }
    }

    /** Brings what is above the racial cap down to it and takes the points back. */
    method CutToCaps(np: int, ghost d: Dealing) returns (rest: int)
      requires Valid() && Level() && |d.base| == A_MAX && base[..] == d.base && np == d.rest
      modifies base, max
      ensures Level() && rest == Cut(d, cap).rest && base[..] == Cut(d, cap).base
    {
      rest := np;
      for i := 0 to A_MAX
        invariant Level() && rest + Sum(base[..]) == np + Sum(d.base)
        invariant forall j :: 0 <= j < A_MAX ==> base[j] == if j < i then Min(d.base[j], cap[j]) else d.base[j]
      {
        if base[i] > cap[i] {
          SumUpdate(base[..], i, cap[i]);
          ghost var now := base[..][i := cap[i]];
          rest := rest + (base[i] - cap[i]);
          max[i] := max[i] - (base[i] - cap[i]);
          base[i] := cap[i];
          assert base[..] == now;
        }
      }
      assert base[..] == Cut(d, cap).base;
    }
  }

  /** The attribute a roll falls on. */
  method Pick(roll: int, attrdist: seq<int>) returns (i: nat)
    requires |attrdist| == A_MAX && Sum(attrdist) >= roll
    ensures i == Place(roll, attrdist)
  {
    PickedIs(roll, attrdist, 0);
    var x := roll;
    i := 0;
    while true
      invariant i < A_MAX && Picked(x, attrdist, i) == Place(roll, attrdist)
      decreases A_MAX - i
    {
      x := x - attrdist[i];
      if x <= 0 {
        return;
      }
      i := i + 1;
    }
  }

  /** Rescaling by the ratio of the maxima keeps a value at or below its maximum. */
  lemma Rescaled(base: int, max: int, was: int)
    requires 0 <= base <= was && 0 < was && 0 < max
    ensures 0 <= base * max / was <= max
  {
    MulMono(base, was, max);
    assert was * (max + 1) == was * max + was;
    DivBelow(base * max, was, max + 1);
  }

  lemma MulMono(a: int, b: int, c: int)
    requires 0 <= a <= b && 0 <= c
    ensures 0 <= a * c <= b * c
  {
  }

  lemma DivBelow(a: int, d: int, q: int)
    requires 0 <= a < d * q && d > 0
    ensures 0 <= a / d < q
  {
    assert d * (a / d) <= a;
  }
}
