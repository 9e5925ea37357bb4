/**
  attrib.c: hit points and energy contributed by Constitution and Wisdom over the levels,
  and how the maxima follow when an attribute changes.
 */
module Advancement {

  /** A value stored in a signed char. */
  function Schar(n: int): (r: int)
    ensures -128 <= r < 128 && (-128 <= n < 128 ==> r == n)
  {
    (n + 128) % 256 - 128
  }

  /** C's division, which truncates toward zero. */
  function CDiv(a: int, b: nat): int
    requires b > 0
  {
    if a >= 0 then a / b else -((-a) / b)
  }

  /** struct RoleAdvance: a starting value and a modifier for each band of the attribute. */
  datatype Advance = Advance(init: int, a4: int, a7: int, a10: int, a13: int, a16: int, a19: int, a22: int, a25: int)

  function Band(attrib: int, a: Advance): int {
    if attrib < 7 then a.a4
    else if attrib < 10 then a.a7
    else if attrib < 13 then a.a10
    else if attrib < 16 then a.a13
    else if attrib < 19 then a.a16
    else if attrib < 22 then a.a19
    else if attrib < 25 then a.a22
    else a.a25
  }

  /** Each band of the attribute, up to 6, then of three values each, and from 25 on. */
  lemma BandIs(attrib: int, a: Advance)
    ensures attrib <= 6 ==> Band(attrib, a) == a.a4
    ensures attrib in {7, 8, 9} ==> Band(attrib, a) == a.a7
    ensures attrib in {10, 11, 12} ==> Band(attrib, a) == a.a10
    ensures attrib in {13, 14, 15} ==> Band(attrib, a) == a.a13
    ensures attrib in {16, 17, 18} ==> Band(attrib, a) == a.a16
    ensures attrib in {19, 20, 21} ==> Band(attrib, a) == a.a19
    ensures attrib in {22, 23, 24} ==> Band(attrib, a) == a.a22
    ensures attrib >= 25 ==> Band(attrib, a) == a.a25
  {
  }

  /** The quotient that is rounded toward zero: what is left has the sign of the dividend. */
  lemma CDivIs(a: int, b: nat)
    requires b > 0
    ensures var r := a - CDiv(a, b) * b; if a >= 0 then 0 <= r < b else -(b as int) < r <= 0
  {
  }

  /** A signed char keeps a number modulo 256. */
  lemma ScharIs(n: int)
    ensures (Schar(n) - n) % 256 == 0
  {
  }

  /** Percent of the modifier that each level gives. */
  function Rate(level: int): int { if level < 10 then 150 else if level < 20 then 100 else 50 }

  function Upto(m: int, rate: int, level: int): int { CDiv(rate * m * level, 100) }

  /** get_advmod */
  function AdvMod(level: nat, attrib: int, role: Advance, race: Advance): int {
    if level == 0 then Schar(role.init + race.init)
    else if attrib == 3 then 0
    else
      var m := Band(attrib, role) + Band(attrib, race);
      Schar(Upto(m, Rate(level), level) - Upto(m, Rate(level), level - 1))
  }

  method GetAdvMod(level: nat, attrib: int, role: Advance, race: Advance) returns (r: int)
    ensures r == AdvMod(level, attrib, role, race)
  {
    if level == 0 {
      return Schar(role.init + race.init);
    }
    if attrib == 3 {
      return 0;
    }
    var mod;
    if attrib < 7 {
      mod := role.a4 + race.a4;
    } else if attrib < 10 {
      mod := role.a7 + race.a7;
    } else if attrib < 13 {
      mod := role.a10 + race.a10;
    } else if attrib < 16 {
      mod := role.a13 + race.a13;
    } else if attrib < 19 {
      mod := role.a16 + race.a16;
    } else if attrib < 22 {
      mod := role.a19 + race.a19;
    } else if attrib < 25 {
      mod := role.a22 + race.a22;
    } else {
      mod := role.a25 + race.a25;
    }
    assert mod == Band(attrib, role) + Band(attrib, race);
    hide Band;
    var modOld, modNew := 0, 0;
    for i := 1 to level + 1
      invariant modNew == Rate(level) * mod * (i - 1)
      invariant i > 1 ==> modOld == Rate(level) * mod * (i - 2)
    {
      modOld := modNew;
      OneMore(Rate(level) * mod, i);
      if level < 10 {
        modNew := modNew + 150 * mod;
      } else if level < 20 {
        modNew := modNew + 100 * mod;
      } else {
        modNew := modNew + 50 * mod;
      }
    }
    r := Schar(CDiv(modNew, 100) - CDiv(modOld, 100));
  }

  lemma OneMore(a: int, i: int)
    ensures a * (i - 1) + a == a * i && a * (i + 1 - 2) == a * (i - 1)
  {
  }

  /** What one level gives for the modifier of the attribute's band: up to level 9 it is the
      difference of two multiples of one and a half, from 10 to 19 the modifier, and from 20 on
      the difference of two multiples of a half; each as a signed char. */
  lemma AdvModIs(level: nat, attrib: int, role: Advance, race: Advance)
    ensures AdvMod(0, attrib, role, race) == Schar(role.init + race.init)
    ensures level > 0 && attrib == 3 ==> AdvMod(level, attrib, role, race) == 0
    ensures var m := Band(attrib, role) + Band(attrib, race);
            && (1 <= level <= 9 && attrib != 3 ==>
                  AdvMod(level, attrib, role, race) == Schar(CDiv(150 * m * level, 100) - CDiv(150 * m * (level - 1), 100)))
            && (10 <= level <= 19 && attrib != 3 ==> AdvMod(level, attrib, role, race) == Schar(m))
            && (20 <= level && attrib != 3 ==>
                  AdvMod(level, attrib, role, race) == Schar(CDiv(50 * m * level, 100) - CDiv(50 * m * (level - 1), 100)))
  {
    hide Band, Schar, CDiv;
    if 10 <= level <= 19 {
      var m := Band(attrib, role) + Band(attrib, race);
      ExactDiv(m, level);
      ExactDiv(m, level - 1);
      assert AdvMod(level, attrib, role, race) == if attrib == 3 then 0 else Schar(Upto(m, 100, level) - Upto(m, 100, level - 1));
      hide Upto, AdvMod;
      assert m * level - m * (level - 1) == m;
    }
  }

  /** get_advmod_total */
  function Total(xl: nat, attrib: int, role: Advance, race: Advance): int {
    if xl <= 1 then AdvMod(0, attrib, role, race)
    else Total(xl - 1, attrib, role, race) + AdvMod(xl - 1, attrib, role, race)
  }

  method GetAdvModTotal(xl: nat, attrib: int, role: Advance, race: Advance) returns (total: int)
    ensures total == Total(xl, attrib, role, race)
  {
    total := GetAdvMod(0, attrib, role, race);
    var i := 1;
    while i < xl
      invariant 1 <= i && (i <= xl || i == 1) && total == Total(i, attrib, role, race)
    {
      var m := GetAdvMod(i, attrib, role, race);
      total := total + m;
      i := i + 1;
    }
  }

  /** What levels 1 to n give for a modifier: up to level 9 the sum telescopes, from 10 to 19
      each level gives the modifier, and from 20 on it telescopes again. */
  function Levels(m: int, n: nat): int {
    if n < 10 then Upto(m, 150, n)
    else if n < 20 then Upto(m, 150, 9) + m * (n - 9)
    else Upto(m, 150, 9) + m * 10 + Upto(m, 50, n) - Upto(m, 50, 19)
  }

  lemma ExactDiv(m: int, n: int)
    requires n >= 0
    ensures Upto(m, 100, n) == m * n
  {
    assert 100 * m * n == 100 * (m * n);
    if m * n >= 0 {
      assert 100 * (m * n) / 100 == m * n;
    } else {
      assert -(100 * (m * n)) == 100 * -(m * n) && 100 * -(m * n) / 100 == -(m * n);
    }
  }

  /** One level's gain is within a char. */
  lemma GainFits(m: int, rate: int, n: nat)
    requires -85 <= m <= 84 && 0 < rate <= 150 && n > 0
    ensures -128 <= Upto(m, rate, n) - Upto(m, rate, n - 1) < 128
  {
    var a := rate * m;
    var b := a * (n - 1);
    assert a * n == b + a;
    assert -12750 <= a <= 12600 by {
      RateBound(rate, m);
    }
    Gap(b, a);
  }

  lemma RateBound(rate: int, m: int)
    requires -85 <= m <= 84 && 0 < rate <= 150
    ensures -12750 <= rate * m <= 12600
  {
    if m >= 0 {
      assert rate * m <= 150 * m;
    } else {
      assert rate * -m <= 150 * -m && rate * m == -(rate * -m);
    }
  }

  lemma Gap(b: int, a: int)
    requires -12750 <= a <= 12600
    ensures -128 <= CDiv(b + a, 100) - CDiv(b, 100) < 128
  {
  }

  lemma NoLevels(m: int)
    ensures Upto(m, 150, 0) == 0
  {
    assert 150 * m * 0 == 0;
  }

  /** The modifier that applies to an attribute. */
  function Modifier(attrib: int, role: Advance, race: Advance): int {
    if attrib == 3 then 0 else Band(attrib, role) + Band(attrib, race)
  }

  function Closed(xl: nat, attrib: int, role: Advance, race: Advance): int
    requires xl >= 1
  {
    role.init + race.init + Levels(Modifier(attrib, role, race), xl - 1)
  }

  predicate Congruent(a: int, b: int) { (a - b) % 256 == 0 }

  /** Each level's gain is returned as a char, so in general the total is the closed form
      modulo 256; no gain is cut for modifiers from -85 to 84. */
  lemma {:induction false} ClosedForm(xl: nat, attrib: int, role: Advance, race: Advance)
    requires xl >= 1
    ensures Congruent(Total(xl, attrib, role, race), Closed(xl, attrib, role, race))
    ensures -128 <= role.init + race.init < 128 && -85 <= Modifier(attrib, role, race) <= 84 ==>
              Total(xl, attrib, role, race) == Closed(xl, attrib, role, race)
  {
    var m := Modifier(attrib, role, race);
    hide Band;
    if xl == 1 {
      FirstLevel(attrib, role, race);
    } else {
      var n := xl - 1;
      var gain := Upto(m, Rate(n), n) - Upto(m, Rate(n), n - 1);
      ClosedForm(n, attrib, role, race);
      LevelGain(n, attrib, role, race);
      if -85 <= m <= 84 {
        GainFits(m, Rate(n), n);
      }
      hide Upto, Rate, Modifier, Congruent, Total, Closed, Levels;
      SumCongruent(Total(n, attrib, role, race), Closed(n, attrib, role, race), gain);
    }
  }

  lemma FirstLevel(attrib: int, role: Advance, race: Advance)
    ensures Congruent(Total(1, attrib, role, race), Closed(1, attrib, role, race))
    ensures -128 <= role.init + race.init < 128 ==> Total(1, attrib, role, race) == Closed(1, attrib, role, race)
  {
    hide Upto, Modifier;
    NoLevels(Modifier(attrib, role, race));
    assert Closed(1, attrib, role, race) == role.init + race.init;
    assert Total(1, attrib, role, race) == Schar(role.init + race.init);
    hide Closed, Total;
  }

  /** What one level more adds to the total and to the closed form. */
  lemma LevelGain(n: nat, attrib: int, role: Advance, race: Advance)
    requires n >= 1
    ensures var m := Modifier(attrib, role, race);
            var gain := Upto(m, Rate(n), n) - Upto(m, Rate(n), n - 1);
            && Total(n + 1, attrib, role, race) == Total(n, attrib, role, race) + Schar(gain)
            && Closed(n + 1, attrib, role, race) == Closed(n, attrib, role, race) + gain
  {
    var m := Modifier(attrib, role, race);
    assert AdvMod(n, attrib, role, race) == Schar(Upto(m, Rate(n), n) - Upto(m, Rate(n), n - 1));
    hide Upto, AdvMod, Schar, Levels;
    LevelsStep(m, n);
  }

  lemma SumCongruent(total: int, closed: int, gain: int)
    requires Congruent(total, closed)
    ensures Congruent(total + Schar(gain), closed + gain)
  {
  }

  /** The closed form is exact at every level for no other tables: with them the first value is
      cut, or one of the two gains after it. */
  lemma ClosedFormIff(attrib: int, role: Advance, race: Advance)
    ensures (forall xl :: xl >= 1 ==> Total(xl, attrib, role, race) == Closed(xl, attrib, role, race))
            <==> -128 <= role.init + race.init < 128 && -85 <= Modifier(attrib, role, race) <= 84
  {
    if -128 <= role.init + race.init < 128 && -85 <= Modifier(attrib, role, race) <= 84 {
      forall xl | xl >= 1
        ensures Total(xl, attrib, role, race) == Closed(xl, attrib, role, race)
      {
        ClosedForm(xl, attrib, role, race);
      }
    }
    if forall xl :: xl >= 1 ==> Total(xl, attrib, role, race) == Closed(xl, attrib, role, race) {
      assert Total(1, attrib, role, race) == Closed(1, attrib, role, race);
      assert Total(2, attrib, role, race) == Closed(2, attrib, role, race);
      assert Total(3, attrib, role, race) == Closed(3, attrib, role, race);
      ExactStart(attrib, role, race);
    }
  }

  lemma ExactStart(attrib: int, role: Advance, race: Advance)
    requires Total(1, attrib, role, race) == Closed(1, attrib, role, race)
    requires Total(2, attrib, role, race) == Closed(2, attrib, role, race)
    requires Total(3, attrib, role, race) == Closed(3, attrib, role, race)
    ensures -128 <= role.init + race.init < 128 && -85 <= Modifier(attrib, role, race) <= 84
  {
    var m := Modifier(attrib, role, race);
    NoLevels(m);
    assert Closed(1, attrib, role, race) == role.init + race.init;
    LevelGain(1, attrib, role, race);
    LevelGain(2, attrib, role, race);
    hide Modifier, Total, Closed;
    FirstGains(m);
  }

  lemma FirstGains(m: int)
    requires -128 <= Upto(m, 150, 1) - Upto(m, 150, 0) < 128 && -128 <= Upto(m, 150, 2) - Upto(m, 150, 1) < 128
    ensures -85 <= m <= 84
  {
    assert 150 * m * 1 == 150 * m && 150 * m * 2 == 300 * m && 150 * m * 0 == 0;
  }

  /** A modifier of 2k gives 3k at each of the levels 1 to 9, 2k from 10 to 19, and k from 20 on;
      the total at level xl is without what that level itself gives. */
  lemma EvenModifier(k: int, xl: nat, attrib: int, role: Advance, race: Advance)
    requires Modifier(attrib, role, race) == 2 * k && -42 <= k <= 42 && -128 <= role.init + race.init < 128 && xl >= 1
    ensures Total(xl, attrib, role, race) == role.init + race.init +
                                             if xl <= 10 then 3 * k * (xl - 1)
                                             else if xl <= 20 then 27 * k + 2 * k * (xl - 10)
                                             else 47 * k + k * (xl - 20)
  {
    ClosedForm(xl, attrib, role, race);
    hide Modifier, Total;
    var n := xl - 1;
    EvenUpto(k, n);
    EvenUpto(k, 9);
    EvenUpto(k, 19);
    assert Closed(xl, attrib, role, race) == role.init + race.init + Levels(2 * k, n);
    hide Closed, Upto;
    if xl > 20 {
      assert k * n - 19 * k == k * (xl - 20);
    }
  }

  lemma EvenUpto(k: int, n: nat)
    ensures Upto(2 * k, 150, n) == 3 * k * n && Upto(2 * k, 50, n) == k * n
  {
    assert 150 * (2 * k) * n == 100 * (3 * k * n) && 50 * (2 * k) * n == 100 * (k * n);
    Hundreds(3 * k * n);
    Hundreds(k * n);
  }

  lemma Hundreds(x: int)
    ensures CDiv(100 * x, 100) == x
  {
  }

  /** A modifier of 85 is too large: the second level's gain of 128 comes out as -128. */
  lemma GainIsCut(race: Advance)
    requires race.a4 == 0
    ensures AdvMod(2, 4, Advance(0, 85, 0, 0, 0, 0, 0, 0, 0), race) == -128
  {
  }

  /** An attribute of 3 gives nothing at any level, which is what the table's declaration says
      exactly where an attribute of 4 would not take anything away. */
  lemma ThreeGivesNothing(level: nat, role: Advance, race: Advance)
    requires level > 0
    ensures AdvMod(level, 3, role, race) == 0
    ensures var four := AdvMod(level, 4, role, race);
            AdvMod(level, 3, role, race) == (if four < 0 then four else 0) <==> four >= 0
  {
  }

  lemma LevelsStep(m: int, n: nat)
    requires n >= 1
    ensures Levels(m, n) == Levels(m, n - 1) + Upto(m, Rate(n), n) - Upto(m, Rate(n), n - 1)
  {
    if 10 <= n < 20 {
      ExactDiv(m, n);
      ExactDiv(m, n - 1);
      assert m * n - m * (n - 1) == m && m * (n - 9) == m * (n - 1 - 9) + m;
    }
  }

  // ------------------------------------------------------------------- maxima

  /** What update_hpen_attrib reads and writes of one monster; mh and mhmax are those of the
      player's polymorphed form. */
  class Mon {
    const isYou: bool
    const role: Advance
    const race: Advance
    const hpRole: Advance
    const hpRace: Advance
    var level: nat
    var oldcon: int
    var oldwis: int
    var hp: int
    var hpmax: int
    var mh: int
    var mhmax: int
    var pw: int
    var pwmax: int

    constructor (isYou: bool, role: Advance, race: Advance, hpRole: Advance, hpRace: Advance)
      ensures this.isYou == isYou && this.role == role && this.race == race && this.hpRole == hpRole && this.hpRace == hpRace
      ensures oldcon == 0 && oldwis == 0
    {
      this.isYou := isYou;
      this.role := role;
      this.race := race;
      this.hpRole := hpRole;
      this.hpRace := hpRace;
      level, oldcon, oldwis := 0, 0, 0;
      hp, hpmax, mh, mhmax, pw, pwmax := 1, 1, 1, 1, 0, 0;
    }

    /** update_hpen_attrib, given what acurr returns for Constitution and Wisdom. */
    method UpdateHpEnAttrib(con: int, wis: int)
      modifies this
      ensures level == old(level) && oldcon == con && oldwis == wis
      ensures old(oldcon) == 0 || old(oldwis) == 0 ==>
                && pwmax == old(pwmax) && hpmax == old(hpmax) && pw == old(pw) && hp == old(hp)
                && mh == old(mh) && mhmax == old(mhmax)
      ensures old(oldcon) != 0 && old(oldwis) != 0 ==>
                && EnergyMoved(old(level), old(oldwis), old(pw), old(pwmax))
                && HitPointsMoved(old(level), old(oldcon), old(hp), old(hpmax))
                && FormMoved(old(level), old(oldcon), old(mh), old(mhmax))
    {
      hide Total;
      if oldcon == 0 || oldwis == 0 {
        oldcon := con;
        oldwis := wis;
        return;
      }
      if oldcon != con {
        UpdateHitPoints(con);
      }
      if oldwis != wis {
        UpdateEnergy(wis);
      }
    }

    /** Energy has followed the change of Wisdom from `was` to the remembered one. */
    ghost predicate EnergyMoved(level: nat, was: int, pw: int, pwmax: int)
      reads this
    {
      var change := Total(level, oldwis, role, race) - Total(level, was, role, race);
      && this.pwmax == NewMax(pwmax, 0, change, oldwis != was)
      && this.pw == (if oldwis != was && pw > this.pwmax then this.pwmax else pw)
      && this.pwmax - Total(level, oldwis, role, race) >= pwmax - Total(level, was, role, race)
    }

    ghost predicate HitPointsMoved(level: nat, was: int, hp: int, hpmax: int)
      reads this
    {
      var change := Total(level, oldcon, hpRole, hpRace) - Total(level, was, hpRole, hpRace);
      && this.hpmax == NewMax(hpmax, 1, change, oldcon != was)
      && this.hp == (if oldcon != was && hp > this.hpmax then this.hpmax else hp)
      && this.hpmax - Total(level, oldcon, hpRole, hpRace) >= hpmax - Total(level, was, hpRole, hpRace)
    }

    /** For the player the polymorphed form's hit points follow as well, and for nobody else. */
    ghost predicate FormMoved(level: nat, was: int, mh: int, mhmax: int)
      reads this
    {
      var change := Total(level, oldcon, hpRole, hpRace) - Total(level, was, hpRole, hpRace);
      var moves := isYou && oldcon != was;
      && this.mhmax == NewMax(mhmax, 1, change, moves)
      && this.mh == (if moves && mh > this.mhmax then this.mhmax else mh)
    }

    method UpdateHitPoints(con: int)
      requires oldcon != con
      modifies this`hp, this`hpmax, this`mh, this`mhmax, this`oldcon
      ensures oldcon == con && HitPointsMoved(level, old(oldcon), old(hp), old(hpmax))
      ensures FormMoved(level, old(oldcon), old(mh), old(mhmax))
    {
      hide Total;
      var oldadv := GetAdvModTotal(level, oldcon, hpRole, hpRace);
      var newadv := GetAdvModTotal(level, con, hpRole, hpRace);
      hpmax := hpmax + (newadv - oldadv);
      if hpmax < 1 {
        hpmax := 1;
      }
      if hp > hpmax {
        hp := hpmax;
      }
      if isYou {
        mhmax := mhmax + (newadv - oldadv);
        if mhmax < 1 {
          mhmax := 1;
        }
        if mh > mhmax {
          mh := mhmax;
        }
      }
      oldcon := con;
    }

    method UpdateEnergy(wis: int)
      requires oldwis != wis
      modifies this`pw, this`pwmax, this`oldwis
      ensures oldwis == wis && EnergyMoved(level, old(oldwis), old(pw), old(pwmax))
    {
      hide Total;
      var oldadv := GetAdvModTotal(level, oldwis, role, race);
      var newadv := GetAdvModTotal(level, wis, role, race);
      pwmax := pwmax + (newadv - oldadv);
      if pwmax < 0 {
        pwmax := 0;
      }
      if pw > pwmax {
        pw := pwmax;
      }
      oldwis := wis;
    }
  }

  /** A maximum moved by the change of a total, not below its floor if it moves at all. */
  function NewMax(max: int, floor: int, change: int, moves: bool): int {
    if !moves then max else if max + change < floor then floor else max + change
  }

  /** It is the larger of the floor and the sum. */
  lemma NewMaxIs(max: int, floor: int, change: int)
    ensures var r := NewMax(max, floor, change, true);
            r >= floor && r >= max + change && (r == floor || r == max + change) && NewMax(max, floor, change, false) == max
  {
  }

  // --------------------------------------------------------------- whole runs

  /** A maximum after its attribute has taken the given values one after another, from `was`
      on: floor 1 for hit points and Constitution, 0 for energy and Wisdom. */
  function MaxAfter(level: nat, role: Advance, race: Advance, floor: int, max: int, was: int, values: seq<int>): int
    decreases |values|
  {
    if values == [] then max
    else
      var change := Total(level, values[0], role, race) - Total(level, was, role, race);
      MaxAfter(level, role, race, floor, NewMax(max, floor, change, values[0] != was), values[0], values[1..])
  }

  /** The clamp at the floor is never hit on the way. */
  predicate Unclamped(level: nat, role: Advance, race: Advance, floor: int, max: int, was: int, values: seq<int>)
    decreases |values|
  {
    values == []
    || var change := Total(level, values[0], role, race) - Total(level, was, role, race);
       && (values[0] != was ==> max + change >= floor)
       && Unclamped(level, role, race, floor, NewMax(max, floor, change, values[0] != was), values[0], values[1..])
  }

  /** At a fixed level, a maximum beyond what its attribute accounts for never decreases, and
      stays the same exactly when the clamp is never hit. */
  lemma {:induction false} NeverLost(level: nat, role: Advance, race: Advance, floor: int, max: int, was: int, values: seq<int>)
    ensures var last := if values == [] then was else values[|values|-1];
            var base := MaxAfter(level, role, race, floor, max, was, values) - Total(level, last, role, race);
            && base >= max - Total(level, was, role, race)
            && (base == max - Total(level, was, role, race) <==> Unclamped(level, role, race, floor, max, was, values))
    decreases |values|
  {
    hide Total;
    if values != [] {
      var change := Total(level, values[0], role, race) - Total(level, was, role, race);
      NeverLost(level, role, race, floor, NewMax(max, floor, change, values[0] != was), values[0], values[1..]);
    }
  }

  /** Boosting an attribute and letting it fall back gains only if the floor was hit. */
  lemma BackAgain(level: nat, role: Advance, race: Advance, floor: int, max: int, was: int, other: int)
    requires max >= floor && other != was
    ensures var after := MaxAfter(level, role, race, floor, max, was, [other, was]);
            && after >= max
            && (after == max <==> max + Total(level, other, role, race) - Total(level, was, role, race) >= floor)
  {
    hide Total;
    assert [other, was][1..] == [was] && [was][1..] == [];
    var change := Total(level, other, role, race) - Total(level, was, role, race);
    var mid := NewMax(max, floor, change, true);
    assert MaxAfter(level, role, race, floor, mid, other, [was]) == NewMax(mid, floor, -change, true);
  }

  lemma {:induction false} MaxAfterMore(level: nat, role: Advance, race: Advance, floor: int, max: int, was: int, values: seq<int>, x: int)
    ensures var last := if values == [] then was else values[|values|-1];
            MaxAfter(level, role, race, floor, max, was, values + [x])
            == NewMax(MaxAfter(level, role, race, floor, max, was, values), floor,
                      Total(level, x, role, race) - Total(level, last, role, race), x != last)
    decreases |values|
  {
    hide Total;
    if values == [] {
      assert [] + [x] == [x] && [x][1..] == [];
    } else {
      var change := Total(level, values[0], role, race) - Total(level, was, role, race);
      MaxAfterMore(level, role, race, floor, NewMax(max, floor, change, values[0] != was), values[0], values[1..], x);
      assert (values + [x])[1..] == values[1..] + [x];
    }
  }

  /** Calls of update_hpen_attrib, one for each pair of values of Constitution and Wisdom. */
  method Follow(mon: Mon, cons: seq<int>, wiss: seq<int>)
    requires mon.oldcon != 0 && mon.oldwis != 0 && |cons| == |wiss|
    requires forall i :: 0 <= i < |cons| ==> cons[i] != 0 && wiss[i] != 0
    modifies mon
    ensures mon.level == old(mon.level)
    ensures mon.pwmax == MaxAfter(mon.level, mon.role, mon.race, 0, old(mon.pwmax), old(mon.oldwis), wiss)
    ensures mon.hpmax == MaxAfter(mon.level, mon.hpRole, mon.hpRace, 1, old(mon.hpmax), old(mon.oldcon), cons)
  {
    hide Total;
    assert cons[..0] == [] == wiss[..0];
    for i := 0 to |cons|
      invariant mon.level == old(mon.level)
      invariant mon.oldcon == (if i == 0 then old(mon.oldcon) else cons[i-1])
      invariant mon.oldwis == (if i == 0 then old(mon.oldwis) else wiss[i-1])
      invariant mon.pwmax == MaxAfter(mon.level, mon.role, mon.race, 0, old(mon.pwmax), old(mon.oldwis), wiss[..i])
      invariant mon.hpmax == MaxAfter(mon.level, mon.hpRole, mon.hpRace, 1, old(mon.hpmax), old(mon.oldcon), cons[..i])
    {
      MaxAfterMore(mon.level, mon.role, mon.race, 0, old(mon.pwmax), old(mon.oldwis), wiss[..i], wiss[i]);
      MaxAfterMore(mon.level, mon.hpRole, mon.hpRace, 1, old(mon.hpmax), old(mon.oldcon), cons[..i], cons[i]);
      assert wiss[..i] + [wiss[i]] == wiss[..i+1] && cons[..i] + [cons[i]] == cons[..i+1];
      mon.UpdateHpEnAttrib(cons[i], wiss[i]);
    }
    assert cons[..|cons|] == cons && wiss[..|wiss|] == wiss;
  }
}
