/** utf.c: encoding, checking and iterating UTF-8 (RFC 3629). */
module Utf8 {
  import opened Bytes

  /** The code points RFC 3629 section 3 lets UTF-8 encode. */
  predicate IsScalar(cp: int) {
    0 <= cp < 0xD800 || 0xE000 <= cp <= 0x10FFFF
  }

  /** The bytes utf8_encode writes, or None for its -1. */
  function Encode(cp: int): (r: Option<bytes>) {
    if cp < 0 then None
    else if cp < 0x80 then Some([cp as byte])
    else if cp < 0x800 then Some([(0xC0 + cp / 64) as byte, (0x80 + cp % 64) as byte])
    else if cp < 0x10000 then
      Some([(0xE0 + cp / 4096) as byte, (0x80 + cp / 64 % 64) as byte, (0x80 + cp % 64) as byte])
    else if cp <= 0x10FFFF then
      Some([(0xF0 + cp / 262144) as byte, (0x80 + cp / 4096 % 64) as byte,
            (0x80 + cp / 64 % 64) as byte, (0x80 + cp % 64) as byte])
    else None
  }

  /** RFC 3629 section 3: how many bytes a code point takes, the range of each, and that their
      value bits, put together, are the code point. */
  lemma EncodedBits(cp: int)
    requires 0 <= cp <= 0x10FFFF
    ensures Encode(cp).Some?
    ensures var e := Encode(cp).value;
            && (cp < 0x80 ==> e == [cp as byte])
            && (0x80 <= cp < 0x800 ==>
                  |e| == 2 && 0xC2 <= e[0] <= 0xDF && 0x80 <= e[1] <= 0xBF && (e[0] as int - 0xC0) * 64 + (e[1] as int - 0x80) == cp)
            && (0x800 <= cp < 0x10000 ==>
                  && |e| == 3 && 0xE0 <= e[0] <= 0xEF && 0x80 <= e[1] <= 0xBF && 0x80 <= e[2] <= 0xBF
                  && ((e[0] as int - 0xE0) * 64 + (e[1] as int - 0x80)) * 64 + (e[2] as int - 0x80) == cp)
            && (0x10000 <= cp ==>
                  && |e| == 4 && 0xF0 <= e[0] <= 0xF4 && 0x80 <= e[1] <= 0xBF && 0x80 <= e[2] <= 0xBF && 0x80 <= e[3] <= 0xBF
                  && (((e[0] as int - 0xF0) * 64 + (e[1] as int - 0x80)) * 64 + (e[2] as int - 0x80)) * 64 + (e[3] as int - 0x80) == cp)
  {
    assert cp / 64 / 64 == cp / 4096 && cp / 4096 / 64 == cp / 262144;
  }

  /** utf8_encode: writes into a buffer of four bytes. */
  method EncodeInto(cp: int, buffer: array<byte>) returns (ok: bool, size: nat)
    requires buffer.Length >= 4
    modifies buffer
    ensures ok <==> Encode(cp).Some?
    ensures ok ==> size <= 4 && buffer[..size] == Encode(cp).value
  {
    if cp < 0 {
      return false, 0;
    } else if cp < 0x80 {
      buffer[0] := cp as byte;
      size := 1;
    } else if cp < 0x800 {
      buffer[0] := (0xC0 + cp / 64 % 32) as byte;
      buffer[1] := (0x80 + cp % 64) as byte;
      size := 2;
    } else if cp < 0x10000 {
      buffer[0] := (0xE0 + cp / 4096 % 16) as byte;
      buffer[1] := (0x80 + cp / 64 % 64) as byte;
      buffer[2] := (0x80 + cp % 64) as byte;
      size := 3;
    } else if cp <= 0x10FFFF {
      buffer[0] := (0xF0 + cp / 262144 % 8) as byte;
      buffer[1] := (0x80 + cp / 4096 % 64) as byte;
      buffer[2] := (0x80 + cp / 64 % 64) as byte;
      buffer[3] := (0x80 + cp % 64) as byte;
      size := 4;
    } else {
      return false, 0;
    }
    ok := true;
  }

  /** utf8_check_first: how long a sequence this byte starts, or 0. */
  function CheckFirst(b: byte): (n: nat)
    ensures n <= 4
  {
    if b < 0x80 then 1
    else if b <= 0xBF then 0
    else if b == 0xC0 || b == 0xC1 then 0
    else if b <= 0xDF then 2
    else if b <= 0xEF then 3
    else if b <= 0xF4 then 4
    else 0
  }

  /** The value bits of a leading byte. */
  function LeadBits(b: byte, size: nat): int {
    if size == 2 then (b % 32) as int else if size == 3 then (b % 16) as int else (b % 8) as int
  }

  predicate IsContinuation(b: byte) { 0x80 <= b <= 0xBF }

  /** The code point of a lead value followed by continuation bytes. */
  function Accumulate(value: int, tail: bytes): Option<int> {
    if tail == [] then Some(value)
    else
      var k := |tail| - 1;
      match Accumulate(value, tail[..k])
      case None => None
      case Some(v) => if IsContinuation(tail[k]) then Some(v * 64 + (tail[k] % 64) as int) else None
  }

  /** The checks utf8_check_full makes on the accumulated value. */
  predicate InRange(value: int, size: nat) {
    && value <= 0x10FFFF
    && !(0xD800 <= value <= 0xDFFF)
    && !((size == 2 && value < 0x80) || (size == 3 && value < 0x800) || (size == 4 && value < 0x10000))
  }

  /** The code point utf8_check_full finds in a whole sequence, or None for its 0. */
  function FullValue(s: bytes): Option<int> {
    if 2 <= |s| <= 4 then
      match Accumulate(LeadBits(s[0], |s|), s[1..])
      case None => None
      case Some(v) => if InRange(v, |s|) then Some(v) else None
    else None
  }

  /** utf8_check_full. The buffer may be shorter than the sequence if it ends in a byte,
      such as a terminating NUL, at which the check stops. */
  method CheckFull(buffer: bytes, size: int) returns (r: Option<int>)
    requires 0 < size && (size <= |buffer| || (|buffer| > 1 && !IsContinuation(buffer[|buffer|-1])))
    ensures r == if size <= |buffer| then FullValue(buffer[..size]) else None
  {
    hide Accumulate;
    var value;
    var u := buffer[0];
    if size == 2 {
      value := (u % 32) as int;
    } else if size == 3 {
      value := (u % 16) as int;
    } else if size == 4 {
      value := (u % 8) as int;
    } else {
      return None;
    }
    ghost var lead := value;
    ghost var tail := buffer[1..if size <= |buffer| then size else |buffer|];
    assert size <= |buffer| ==> buffer[..size][1..] == tail;
    AccumulateNothing(lead, tail);
    for i := 1 to size
      invariant i <= |buffer| && (i == |buffer| ==> i == size)
      invariant Accumulate(lead, tail[..i-1]) == Some(value)
    {
      u := buffer[i];
      assert i - 1 < |tail| && tail[i-1] == u;
      AccumulateMore(lead, tail, i);
      if u < 0x80 || u > 0xBF {
        AccumulateNone(lead, tail, i);
        return None;
      }
      value := value * 64 + (u % 64) as int;
    }
    assert tail[..size-1] == tail;
    if value > 0x10FFFF || 0xD800 <= value <= 0xDFFF
       || (size == 2 && value < 0x80) || (size == 3 && value < 0x800) || (size == 4 && value < 0x10000) {
      return None;
    }
    return Some(value);
  }

  lemma AccumulateNothing(value: int, tail: bytes)
    ensures Accumulate(value, tail[..0]) == Some(value)
  {
  }

  lemma AccumulateMore(value: int, tail: bytes, i: nat)
    requires 0 < i <= |tail|
    ensures Accumulate(value, tail[..i]) ==
            match Accumulate(value, tail[..i-1])
            case None => None
            case Some(v) => if IsContinuation(tail[i-1]) then Some(v * 64 + (tail[i-1] % 64) as int) else None
  {
    assert tail[..i][..i-1] == tail[..i-1];
  }

  lemma {:induction false} AccumulateNone(value: int, tail: bytes, i: nat)
    requires i <= |tail| && Accumulate(value, tail[..i]).None?
    ensures Accumulate(value, tail).None?
    decreases |tail| - i
  {
    if i == |tail| {
      assert tail[..i] == tail;
    } else {
      AccumulateMore(value, tail, i + 1);
      AccumulateNone(value, tail, i + 1);
    }
  }

  // ---------------------------------------------------------- the codec's laws

  function Join2(a: int, b: byte): int { a * 64 + (b % 64) as int }

  lemma AccumulateOne(value: int, b: byte)
    ensures Accumulate(value, [b]) == if IsContinuation(b) then Some(Join2(value, b)) else None
  {
    assert [b][..0] == [];
  }

  lemma AccumulateTwo(value: int, b: byte, c: byte)
    ensures Accumulate(value, [b, c]) ==
            if IsContinuation(b) && IsContinuation(c) then Some(Join2(Join2(value, b), c)) else None
  {
    AccumulateOne(value, b);
    assert [b, c][..1] == [b];
  }

  lemma AccumulateThree(value: int, b: byte, c: byte, d: byte)
    ensures Accumulate(value, [b, c, d]) ==
            if IsContinuation(b) && IsContinuation(c) && IsContinuation(d) then Some(Join2(Join2(Join2(value, b), c), d)) else None
  {
    AccumulateTwo(value, b, c);
    assert [b, c, d][..2] == [b, c];
  }

  /** What FullValue computes, written out for two, three and four bytes. */
  lemma Full2(a: byte, b: byte)
    ensures FullValue([a, b]) ==
            var v := Join2(LeadBits(a, 2), b); if IsContinuation(b) && InRange(v, 2) then Some(v) else None
  {
    hide LeadBits, IsContinuation, InRange, Join2, Accumulate;
    AccumulateOne(LeadBits(a, 2), b);
    assert [a, b][1..] == [b];
  }

  lemma Full3(a: byte, b: byte, c: byte)
    ensures FullValue([a, b, c]) ==
            var v := Join2(Join2(LeadBits(a, 3), b), c);
            if IsContinuation(b) && IsContinuation(c) && InRange(v, 3) then Some(v) else None
  {
    hide LeadBits, IsContinuation, InRange, Join2, Accumulate;
    AccumulateTwo(LeadBits(a, 3), b, c);
    assert [a, b, c][1..] == [b, c];
  }

  lemma Full4(a: byte, b: byte, c: byte, d: byte)
    ensures FullValue([a, b, c, d]) ==
            var v := Join2(Join2(Join2(LeadBits(a, 4), b), c), d);
            if IsContinuation(b) && IsContinuation(c) && IsContinuation(d) && InRange(v, 4) then Some(v) else None
  {
    hide LeadBits, IsContinuation, InRange, Join2, Accumulate;
    AccumulateThree(LeadBits(a, 4), b, c, d);
    assert [a, b, c, d][1..] == [b, c, d];
  }

  /** Base-64 digits of a number, and back. */
  lemma Digits64(x: nat, y: nat, z: nat)
    requires y < 64 && z < 64
    ensures var v := (x * 64 + y) * 64 + z; v / 4096 == x && v / 64 % 64 == y && v % 64 == z
  {
    var v := (x * 64 + y) * 64 + z;
    assert v / 64 == x * 64 + y;
    assert v == 4096 * x + (64 * y + z);
  }

  lemma Low6(b: byte, d: nat)
    requires d < 64 && b as int == 0x80 + d
    ensures IsContinuation(b) && (b % 64) as int == d
  {
  }

  lemma Sum64(v: nat)
    ensures v == v / 64 * 64 + v % 64 && v / 64 == v / 4096 * 64 + v / 64 % 64
  {
  }

  lemma DecodeEncode3(cp: int)
    requires IsScalar(cp) && 0x800 <= cp < 0x10000
    ensures var s := Encode(cp).value; |s| == 3 && CheckFirst(s[0]) == 3 && FullValue(s) == Some(cp)
  {
    var a, b, c := (0xE0 + cp / 4096) as byte, (0x80 + cp / 64 % 64) as byte, (0x80 + cp % 64) as byte;
    assert LeadBits(a, 3) == cp / 4096;
    Low6(b, cp / 64 % 64);
    Low6(c, cp % 64);
    Sum64(cp);
    Full3(a, b, c);
    hide FullValue;
    assert Join2(Join2(LeadBits(a, 3), b), c) == cp;
  }

  lemma DecodeEncode4(cp: int)
    requires 0x10000 <= cp <= 0x10FFFF
    ensures var s := Encode(cp).value; |s| == 4 && CheckFirst(s[0]) == 4 && FullValue(s) == Some(cp)
  {
    var a, b, c, d := (0xF0 + cp / 262144) as byte, (0x80 + cp / 4096 % 64) as byte,
                      (0x80 + cp / 64 % 64) as byte, (0x80 + cp % 64) as byte;
    assert LeadBits(a, 4) == cp / 262144;
    Low6(b, cp / 4096 % 64);
    Low6(c, cp / 64 % 64);
    Low6(d, cp % 64);
    Sum64(cp);
    Sum64(cp / 64);
    assert cp / 64 / 64 == cp / 4096 && cp / 64 / 4096 == cp / 262144;
    Full4(a, b, c, d);
    hide FullValue;
    assert Join2(LeadBits(a, 4), b) == cp / 4096;
    assert Join2(Join2(LeadBits(a, 4), b), c) == cp / 64;
    assert Join2(Join2(Join2(LeadBits(a, 4), b), c), d) == cp;
    hide LeadBits, Join2;
  }

  /** Decoding inverts encoding on every scalar value. */
  lemma DecodeEncode(cp: int)
    requires IsScalar(cp)
    ensures Encode(cp).Some?
    ensures var s := Encode(cp).value; 1 <= |s| == CheckFirst(s[0]) && (|s| == 1 ==> cp == s[0] as int)
    ensures var s := Encode(cp).value; |s| > 1 ==> FullValue(s) == Some(cp)
  {
    if 0x80 <= cp < 0x800 {
      var a, b := (0xC0 + cp / 64) as byte, (0x80 + cp % 64) as byte;
      Low6(b, cp % 64);
      assert LeadBits(a, 2) == cp / 64;
      Full2(a, b);
    } else if 0x800 <= cp < 0x10000 {
      DecodeEncode3(cp);
    } else if 0x10000 <= cp {
      DecodeEncode4(cp);
    }
  }

  lemma EncodeDecode3(a: byte, b: byte, c: byte)
    requires CheckFirst(a) == 3 && FullValue([a, b, c]).Some?
    ensures var v := FullValue([a, b, c]).value;
            IsScalar(v) && v >= 0x800 && Encode(v) == Some([a, b, c]) && b >= 0x80 && c >= 0x80
  {
    Full3(a, b, c);
    var x, y, z := LeadBits(a, 3), (b % 64) as int, (c % 64) as int;
    Digits64(x, y, z);
    assert a as int == 0xE0 + x && b as int == 0x80 + y && c as int == 0x80 + z;
  }

  lemma EncodeDecode4(a: byte, b: byte, c: byte, d: byte)
    requires CheckFirst(a) == 4 && FullValue([a, b, c, d]).Some?
    ensures var v := FullValue([a, b, c, d]).value;
            IsScalar(v) && v >= 0x10000 && Encode(v) == Some([a, b, c, d]) && b >= 0x80 && c >= 0x80 && d >= 0x80
  {
    Full4(a, b, c, d);
    hide FullValue, Encode;
    var v := FullValue([a, b, c, d]).value;
    var x, y, z, w := LeadBits(a, 4), (b % 64) as int, (c % 64) as int, (d % 64) as int;
    assert v == ((x * 64 + y) * 64 + z) * 64 + w && 0x10000 <= v <= 0x10FFFF;
    assert a as int == 0xF0 + x && b as int == 0x80 + y && c as int == 0x80 + z && d as int == 0x80 + w;
    Recoded4(a, b, c, d, x, y, z, w);
  }

  lemma Recoded4(a: byte, b: byte, c: byte, d: byte, x: nat, y: nat, z: nat, w: nat)
    requires y < 64 && z < 64 && w < 64
    requires a as int == 0xF0 + x && b as int == 0x80 + y && c as int == 0x80 + z && d as int == 0x80 + w
    requires 0x10000 <= ((x * 64 + y) * 64 + z) * 64 + w <= 0x10FFFF
    ensures Encode(((x * 64 + y) * 64 + z) * 64 + w) == Some([a, b, c, d])
  {
    var v := ((x * 64 + y) * 64 + z) * 64 + w;
    Digits64(x * 64 + y, z, w);
    Digits64(x, y, z);
    assert v / 64 == (x * 64 + y) * 64 + z && v / 4096 == x * 64 + y;
    assert v / 262144 == v / 4096 / 64;
  }

  /** Encoding inverts decoding on every sequence that passes both checks. */
  lemma EncodeDecode(s: bytes)
    requires 2 <= |s| && |s| == CheckFirst(s[0]) && FullValue(s).Some?
    ensures IsScalar(FullValue(s).value) && FullValue(s).value >= 0x80
    ensures Encode(FullValue(s).value) == Some(s)
    ensures forall i :: 0 <= i < |s| ==> s[i] >= 0x80
  {
    if |s| == 2 {
      Full2(s[0], s[1]);
      assert s == [s[0], s[1]];
    } else if |s| == 3 {
      assert s == [s[0], s[1], s[2]];
      EncodeDecode3(s[0], s[1], s[2]);
    } else {
      assert s == [s[0], s[1], s[2], s[3]];
      EncodeDecode4(s[0], s[1], s[2], s[3]);
    }
  }

  lemma FullContinues(s: bytes)
    requires FullValue(s).Some?
    ensures forall i :: 1 <= i < |s| ==> IsContinuation(s[i])
  {
    if |s| == 2 {
      Full2(s[0], s[1]);
      assert s == [s[0], s[1]];
    } else if |s| == 3 {
      Full3(s[0], s[1], s[2]);
      assert s == [s[0], s[1], s[2]];
    } else {
      Full4(s[0], s[1], s[2], s[3]);
      assert s == [s[0], s[1], s[2], s[3]];
    }
  }

  // ------------------------------------------------------------- whole strings

  /** How many bytes the first whole sequence of a text takes: what utf8_iterate advances by. */
  function Next(s: bytes): (r: Option<nat>)
    ensures r.Some? ==> 1 <= r.value <= |s|
  {
    if s == [] then None
    else
      var n := CheckFirst(s[0]);
      if n == 1 then Some(1)
      else if 2 <= n <= |s| && FullValue(s[..n]).Some? then Some(n)
      else None
  }

  /** The code point utf8_iterate reports. */
  function CodePoint(s: bytes): (cp: int)
    requires Next(s).Some?
    ensures IsScalar(cp)
  {
    if CheckFirst(s[0]) == 1 then s[0] as int
    else
      EncodeDecode(s[..CheckFirst(s[0])]);
      FullValue(s[..CheckFirst(s[0])]).value
  }

  /** utf8_iterate on a NUL-terminated buffer: how far to advance, and the code point. It
      reads nothing behind the terminator. */
  method Iterate(buffer: bytes) returns (r: Option<nat>, cp: int)
    requires |buffer| > 0 && buffer[|buffer|-1] == 0 && 0 !in buffer[..|buffer|-1]
    ensures |buffer| == 1 ==> r == Some(0)
    ensures var text := buffer[..|buffer|-1]; text != [] ==> r == Next(text) && (r.Some? ==> cp == CodePoint(text))
  {
    cp := 0;
    assert |buffer| > 1 ==> buffer[..|buffer|-1][0] == buffer[0];
    if buffer[0] == 0 {
      return Some(0), cp;
    }
    var count := CheckFirst(buffer[0]);
    if count == 0 {
      return None, cp;
    }
    if count == 1 {
      return Some(1), buffer[0] as int;
    }
    var full := CheckFull(buffer, count);
    ghost var text := buffer[..|buffer|-1];
    if full.None? {
      assert count <= |text| ==> buffer[..count] == text[..count];
      return None, cp;
    }
    FullContinues(buffer[..count]);
    assert buffer[..count] == text[..count];
    return Some(count), full.value;
  }

  function Decode(s: bytes): Option<seq<int>> {
    if s == [] then Some([])
    else
      match Next(s)
      case None => None
      case Some(n) =>
        match Decode(s[n..])
        case None => None
        case Some(cps) => Some([CodePoint(s)] + cps)
  }

  predicate ValidText(s: bytes) { Decode(s).Some? }

  /** The text RFC 3629 gives a sequence of scalar values. */
  ghost function TextOf(cps: seq<int>): bytes
    requires forall cp <- cps :: IsScalar(cp)
  {
    if cps == [] then []
    else
      assert IsScalar(cps[0]);
      Encode(cps[0]).value + TextOf(cps[1..])
  }

  lemma NextEncoded(cp: int, rest: bytes)
    requires IsScalar(cp)
    ensures var e := Encode(cp).value; Next(e + rest) == Some(|e|) && CodePoint(e + rest) == cp
  {
    DecodeEncode(cp);
    var e := Encode(cp).value;
    assert (e + rest)[..|e|] == e;
  }

  lemma NextEncodes(s: bytes)
    requires Next(s).Some?
    ensures Encode(CodePoint(s)) == Some(s[..Next(s).value])
  {
    var n := Next(s).value;
    if n == 1 {
      assert s[..1] == [s[0]];
    } else {
      EncodeDecode(s[..n]);
    }
  }

  lemma {:induction false} DecodeSound(s: bytes)
    requires ValidText(s)
    ensures (forall cp <- Decode(s).value :: IsScalar(cp)) && TextOf(Decode(s).value) == s
    decreases |s|
  {
    hide CodePoint, Encode, IsScalar, Next;
    if s != [] {
      NextEncodes(s);
      var n := Next(s).value;
      DecodeSound(s[n..]);
      var cps := Decode(s).value;
      assert cps[1..] == Decode(s[n..]).value;
      assert forall cp <- cps :: cp == cps[0] || cp in cps[1..];
      assert s == s[..n] + s[n..];
    }
  }

  lemma {:induction false} DecodeComplete(cps: seq<int>)
    requires forall cp <- cps :: IsScalar(cp)
    ensures Decode(TextOf(cps)) == Some(cps)
  {
    if cps != [] {
      assert cps[0] in cps;
      var rest := TextOf(cps[1..]);
      NextEncoded(cps[0], rest);
      DecodeComplete(cps[1..]);
      var e := Encode(cps[0]).value;
      assert (e + rest)[|e|..] == rest && cps == [cps[0]] + cps[1..];
    }
  }

  /** The strings utf8_check_string accepts are exactly the concatenations of encodings
      of scalar values, each in one way. */
  lemma DecodeIff(s: bytes, cps: seq<int>)
    ensures Decode(s) == Some(cps) <==> (forall cp <- cps :: IsScalar(cp)) && TextOf(cps) == s
  {
    if Decode(s) == Some(cps) {
      DecodeSound(s);
    }
    if forall cp <- cps :: IsScalar(cp) {
      DecodeComplete(cps);
    }
  }

  /** utf8_check_string. */
  method CheckString(s: bytes) returns (r: bool)
    ensures r <==> ValidText(s)
  {
    var i := 0;
    assert s[0..] == s;
    while i < |s|
      invariant i <= |s| && (ValidText(s) <==> ValidText(s[i..]))
    {
      var count := CheckFirst(s[i]);
      if count == 0 {
        return false;
      } else if count > 1 {
        if i + count > |s| {
          return false;
        }
        assert s[i..][..count] == s[i..i+count];
        var full := CheckFull(s[i..], count);
        if full.None? {
          return false;
        }
        i := i + count - 1;
      }
      assert s[i+1-count..][count..] == s[i+1..];
      i := i + 1;
    }
    return true;
  }

  lemma FirstOfConcat(s: bytes, t: bytes)
    requires Next(s).Some?
    ensures Next(s + t) == Next(s) && CodePoint(s + t) == CodePoint(s) && (s + t)[Next(s).value..] == s[Next(s).value..] + t
  {
    var n := Next(s).value;
    assert (s + t)[..n] == s[..n] && (s + t)[n..] == s[n..] + t;
  }

  lemma {:induction false} ValidConcat(s: bytes, t: bytes)
    requires ValidText(s)
    ensures Decode(s + t) == match Decode(t) case None => None case Some(cps) => Some(Decode(s).value + cps)
    decreases |s|
  {
    if s == [] {
      assert s + t == t;
      if Decode(t).Some? {
        assert [] + Decode(t).value == Decode(t).value;
      }
    } else {
      var n := Next(s).value;
      FirstOfConcat(s, t);
      hide CodePoint, Next;
      ValidConcat(s[n..], t);
      if Decode(t).Some? {
        var cp, u, v := CodePoint(s), Decode(s[n..]).value, Decode(t).value;
        assert [cp] + (u + v) == ([cp] + u) + v;
      }
    }
  }

  /** The longest prefix made of whole sequences: the bytes a stream delivers. */
  function Deliverable(s: bytes): (r: bytes)
    ensures r <= s
    ensures r == s <==> ValidText(s)
  {
    match Next(s)
    case None => []
    case Some(n) =>
      assert s == s[..n] + s[n..];
      s[..n] + Deliverable(s[n..])
  }
}
