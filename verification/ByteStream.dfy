/**
  The byte stream of load.c: whole UTF-8 sequences are read into a five-byte buffer
  and handed out byte by byte, with push-back and line/column bookkeeping.
 */
module ByteStream {
  import opened Bytes
  import opened Numbers
  import Utf8

  const OK: int := 0
  const EOF: int := -1
  const ERROR: int := -2

  predicate IsEnd(c: int) { c == EOF || c == ERROR }

  /** The character a call returned, as bytes. */
  function Cur(c: int): bytes
    requires -128 <= c < 256
  {
    if IsEnd(c) then [] else [AsByte(c)]
  }

  function Newlines(s: bytes): nat {
    if s == [] then 0 else Newlines(s[..|s|-1]) + if s[|s|-1] == 10 then 1 else 0
  }

  /** Code points since the last newline; only the first byte of a sequence counts. */
  function Column(s: bytes): nat {
    if s == [] then 0
    else if s[|s|-1] == 10 then 0
    else Column(s[..|s|-1]) + if Utf8.CheckFirst(s[|s|-1]) != 0 then 1 else 0
  }

  lemma Extended(s: bytes, b: byte)
    ensures (s + [b])[..|s|] == s
    ensures Newlines(s + [b]) == Newlines(s) + if b == 10 then 1 else 0
    ensures Column(s + [b]) == if b == 10 then 0 else Column(s) + if Utf8.CheckFirst(b) != 0 then 1 else 0
  {
    assert (s + [b])[..|s|] == s;
  }

  /** A character moves on by one column, whatever its length, and a newline to the next line. */
  lemma CharacterCounts(s: bytes, cp: int)
    requires Utf8.IsScalar(cp)
    ensures var e := Utf8.Encode(cp);
            && e.Some? && Column(s + e.value) == (if cp == 10 then 0 else Column(s) + 1)
            && Newlines(s + e.value) == Newlines(s) + (if cp == 10 then 1 else 0)
  {
    Utf8.EncodedBits(cp);
    var e := Utf8.Encode(cp).value;
    hide Utf8.Encode, Column, Newlines;
    Extended(s, e[0]);
    if |e| > 1 {
      Extended(s + [e[0]], e[1]);
      assert s + e[..2] == s + [e[0]] + [e[1]];
    }
    if |e| > 2 {
      Extended(s + e[..2], e[2]);
      assert s + e[..3] == s + e[..2] + [e[2]];
    }
    if |e| > 3 {
      Extended(s + e[..3], e[3]);
      assert s + e[..4] == s + e[..3] + [e[3]];
    }
    assert e == [e[0]] || e == e[..2] || e == e[..3] || e == e[..4];
  }

  /** Position, line and column say what has been consumed. */
  ghost predicate MarksAt(position: int, line: int, column: int, consumed: bytes) {
    position == |consumed| && line == 1 + Newlines(consumed) && column == Column(consumed)
  }

  /** What has been consumed is what the source holds before what is still to be delivered.
      (A NUL that was pushed back is lost to both.) */
  ghost predicate TracedAt(data: bytes, consumed: bytes, rest: bytes) {
    0 !in data ==> consumed + rest == Utf8.Deliverable(data)
  }

  class Stream {
    /** What the get callback delivers, and how far it has got. */
    const data: bytes
    var dataPos: nat

    const buffer: array<byte>
    var bufferPos: nat
    var state: int
    var line: int
    var column: int
    var lastColumn: int
    var position: int

    /** How much of the buffer is filled, the bytes delivered and not pushed back, and
        the bytes still to be delivered: up to the first invalid sequence. */
    ghost var len: nat
    ghost var consumed: bytes
    ghost var rest: bytes

    ghost predicate Valid()
      reads this, buffer
    {
      && buffer.Length == 5 && bufferPos <= len <= 4 && dataPos <= |data|
      && Marks() && Traced()
      && (if state == OK then
            && Buffered(buffer[..], bufferPos, len, consumed, lastColumn) && rest == buffer[..][bufferPos..len] + Utf8.Deliverable(data[dataPos..])
            && (Utf8.ValidText(data) <==> Utf8.ValidText(data[dataPos..]))
          else state == End() && rest == [])
    }

    /** The last call of Get returned this, so it can be pushed back. */
    ghost predicate Last(c: int)
      reads this, buffer
    {
      && -128 <= c < 128
      && if IsEnd(c) then rest == []
         else state == OK && bufferPos > 0 && bufferPos <= buffer.Length && c == AsChar(buffer[bufferPos-1])
              && consumed != [] && consumed[|consumed|-1] == AsByte(c)
    }

    /** The character just read and everything after it. */
    ghost function Ahead(c: int): bytes
      requires -128 <= c < 256
      reads this
    {
      Cur(c) + rest
    }

    ghost predicate Marks()
      reads this
    {
      MarksAt(position, line, column, consumed)
    }

    ghost predicate Traced()
      reads this
    {
      TracedAt(data, consumed, rest)
    }

    /** Position, line and column in terms of the source. */
    lemma Bookkeeping()
      requires Valid() && 0 !in data
      ensures var source := Utf8.Deliverable(data);
              && position == |source| - |rest| && rest == source[position..]
              && line == 1 + Newlines(source[..position]) && column == Column(source[..position])
    {
      hide Utf8.Deliverable, Utf8.ValidText, Newlines, Column, Buffered;
      var source := Utf8.Deliverable(data);
      assert source[..position] == consumed && source[position..] == rest;
    }

    /** What comes after the last byte. */
    ghost function End(): int { if Utf8.ValidText(data) then EOF else ERROR }

    constructor (data: bytes)
      ensures Valid() && this.data == data && fresh(buffer)
      ensures state == OK && consumed == [] && rest == Utf8.Deliverable(data)
    {
      this.data := data;
      dataPos := 0;
      var b := new byte[5](_ => 0);
      buffer := b;
      bufferPos := 0;
      state := OK;
      line := 1;
      column := 0;
      lastColumn := 0;
      position := 0;
      len := 0;
      consumed := [];
      rest := Utf8.Deliverable(data);
      new;
      hide Utf8.Deliverable, Utf8.ValidText;
      assert data[0..] == data && buffer[0..0] == [] && buffer[..][..0] == [];
      assert [] + rest == rest;
    }

    /** buffer_get: the next byte of the source, or EOF. */
    method Fetch() returns (c: int)
      requires dataPos <= |data|
      modifies this`dataPos
      ensures dataPos <= |data|
      ensures old(dataPos) == |data| ==> c == EOF && dataPos == old(dataPos)
      ensures old(dataPos) < |data| ==> c == data[old(dataPos)] as int && dataPos == old(dataPos) + 1
    {
      if dataPos >= |data| {
        return EOF;
      }
      c := data[dataPos] as int;
      dataPos := dataPos + 1;
    }

    /** Reads the tail of a sequence into the buffer. */
    method FetchTail(count: nat)
      requires buffer.Length == 5 && 1 <= count <= 4 && 1 <= dataPos <= |data| && buffer[0] == data[dataPos-1]
      modifies this`dataPos, buffer
      ensures dataPos == Min(old(dataPos) - 1 + count, |data|)
      ensures forall j :: 0 <= j < count ==> buffer[j] == SourceByte(data, old(dataPos) - 1 + j)
    {
      ghost var start := dataPos - 1;
      for i := 1 to count
        invariant dataPos == Min(start + i, |data|)
        invariant forall j :: 0 <= j < i ==> buffer[j] == SourceByte(data, start + j)
      {
        var c := Fetch();
        buffer[i] := AsByte(c);
      }
    }

    /** Puts the next character of the source into the empty buffer. */
    method Fill()
      requires buffer.Length == 5 && dataPos <= |data| && state == OK
      requires Utf8.ValidText(data) <==> Utf8.ValidText(data[dataPos..])
      modifies this`dataPos, this`bufferPos, this`state, this`len, buffer
      ensures dataPos <= |data|
      ensures state != OK ==> len == old(len) && (bufferPos == old(bufferPos) || bufferPos == 0)
      ensures old(Utf8.Deliverable(data[dataPos..])) == [] ==> state == End()
      ensures old(Utf8.Deliverable(data[dataPos..])) != [] ==>
                && state == OK && bufferPos == 0 && Filled() && Took(data, old(data[dataPos..]), data[dataPos..], buffer[..len])
    {
      ghost var rest := data[dataPos..];
      TakesFirst(data, rest);
      hide Utf8.Deliverable, Utf8.ValidText, Utf8.Next, Took;
      var c := Fetch();
      if c == EOF {
        state := EOF;
        return;
      }
      assert rest[1..] == data[dataPos..];
      buffer[0] := AsByte(c);
      bufferPos := 0;
      if 0x80 <= c <= 0xFF {
        FillSequence(rest);
      } else {
        buffer[1] := 0;
        len := 1;
        assert rest[..1] == buffer[..1];
      }
    }

    /** The rest of a multi-byte sequence, and the check of the whole. */
    method FillSequence(ghost rest: bytes)
      requires buffer.Length == 5 && 1 <= dataPos <= |data| && rest == data[dataPos-1..]
      requires state == OK && buffer[0] == rest[0] >= 0x80
      modifies this`dataPos, this`state, this`len, buffer
      ensures dataPos <= |data|
      ensures Utf8.Next(rest).None? ==> state == ERROR && len == old(len)
      ensures Utf8.Next(rest).Some? ==>
                && state == OK && Filled() && len == Utf8.Next(rest).value
                && buffer[..len] == rest[..len] && data[dataPos..] == rest[len..]
    {
      var count := Utf8.CheckFirst(buffer[0]);
      if count == 0 {
        state := ERROR;
        return;
      }
      FetchTail(count);
      var full := Utf8.CheckFull(buffer[..], count);
      assert buffer[..][..count] == buffer[..count];
      Sequence(rest, buffer[..count], count);
      if full.None? {
        state := ERROR;
        return;
      }
      buffer[count] := 0;
      len := count;
    }

    /** A buffered character: an ASCII byte, or bytes from 0x80 to 0xF7. */
    ghost predicate Filled()
      reads this, buffer
    {
      && buffer.Length == 5 && 1 <= len <= 4 && buffer[len] == 0
      && (forall i :: 0 <= i < len ==> buffer[i] < 0xF8)
      && (len > 1 ==> forall i :: 0 <= i < len ==> buffer[i] >= 0x80)
    }

    /** stream_get: the next byte as a char, or EOF or ERROR from then on. */
    method Get() returns (c: int)
      requires Valid()
      modifies this, buffer
      ensures Valid() && Last(c) && Ahead(c) == old(rest)
      ensures IsEnd(c) <==> old(rest) == []
      ensures IsEnd(c) ==> c == End()
      ensures consumed == old(consumed) + Cur(c)
    {
      hide MarksAt, TracedAt, Utf8.Deliverable, Utf8.ValidText, Utf8.CheckFirst, Buffered, Ready;
      if state != OK {
        return state;
      }
      BufferedReady(buffer[..], bufferPos, len, consumed, lastColumn);
      if buffer[bufferPos] == 0 {
        Refill();
        if state != OK {
          return state;
        }
      }
      HeadTail(rest);
      c := Deliver();
    }

    /** The refilling branch of stream_get. */
    method Refill()
      requires Valid() && state == OK && buffer[bufferPos] == 0
      modifies this`dataPos, this`bufferPos, this`state, this`len, buffer
      ensures if rest == [] then Valid() && state == End()
              else
                && state == OK && dataPos <= |data| && Ready(buffer[..], bufferPos, len, consumed)
                && rest == buffer[..][bufferPos..len] + Utf8.Deliverable(data[dataPos..])
                && (Utf8.ValidText(data) <==> Utf8.ValidText(data[dataPos..]))
    {
      hide Utf8.Deliverable, Utf8.ValidText, MarksAt, TracedAt;
      assert rest == Utf8.Deliverable(data[dataPos..]) by {
        assert buffer[..][bufferPos] == 0 && bufferPos == len;
        assert buffer[..][bufferPos..len] == [];
      }
      Fill();
      if state == OK {
        assert buffer[..][0..len] == buffer[..len] && buffer[..][..0] == [] == consumed[|consumed|..];
      }
    }

    method Deliver() returns (c: int)
      requires buffer.Length == 5 && state == OK && dataPos <= |data| && Ready(buffer[..], bufferPos, len, consumed) && Marks() && Traced()
      requires rest == buffer[..][bufferPos..len] + Utf8.Deliverable(data[dataPos..])
      requires Utf8.ValidText(data) <==> Utf8.ValidText(data[dataPos..])
      modifies this`bufferPos, this`position, this`line, this`lastColumn, this`column, this`consumed, this`rest
      ensures Valid() && old(rest) != [] && rest == old(rest)[1..] && bufferPos > 0 && buffer[bufferPos-1] == old(rest)[0]
      ensures c == AsChar(old(rest)[0]) && !IsEnd(c) && consumed == old(consumed) + [old(rest)[0]]
    {
      hide MarksAt, TracedAt, Utf8.Deliverable, Utf8.ValidText, Utf8.CheckFirst, Buffered;
      var b := buffer[bufferPos];
      c := AsChar(b);
      Pending(buffer[..], bufferPos, len, Utf8.Deliverable(data[dataPos..]));
      TracedOn(data, consumed, rest);
      bufferPos := bufferPos + 1;
      rest := rest[1..];
      Advance(c, b);
      ReadyBuffered(buffer[..], bufferPos - 1, len, old(consumed), lastColumn);
    }

    /** The bookkeeping for a delivered byte. */
    method Advance(c: int, b: byte)
      requires Marks() && c == AsChar(b)
      modifies this`position, this`line, this`lastColumn, this`column, this`consumed
      ensures Marks() && consumed == old(consumed) + [b]
      ensures b == 10 ==> lastColumn == Column(old(consumed))
    {
      Extended(consumed, b);
      position := position + 1;
      if c == 10 {
        line := line + 1;
        lastColumn := column;
        column := 0;
      } else if Utf8.CheckFirst(b) != 0 {
        column := column + 1;
      }
      consumed := consumed + [b];
    }

    /** The bookkeeping for a byte pushed back; the last column is only remembered for a newline. */
    method Retreat(c: int, ghost b: byte)
      requires Marks() && consumed != [] && consumed[|consumed|-1] == b && c == AsChar(b)
      requires b == 10 ==> lastColumn == Column(consumed[..|consumed|-1])
      modifies this`position, this`line, this`column, this`consumed
      ensures Marks() && consumed == old(consumed)[..|old(consumed)|-1]
    {
      ghost var before := consumed[..|consumed|-1];
      Extended(before, b);
      assert consumed == before + [b];
      position := position - 1;
      if c == 10 {
        line := line - 1;
        column := lastColumn;
      } else if Utf8.CheckFirst(AsByte(c)) != 0 {
        column := column - 1;
      }
      consumed := before;
    }

    /** stream_unget: undoes the last get, except that a NUL byte is lost. */
    method Unget(c: int)
      requires Valid() && Last(c)
      modifies this
      ensures Valid() && state == old(state)
      ensures rest == if c == 0 then old(rest) else old(Ahead(c))
      ensures consumed == old(consumed)[..|old(consumed)|-|Cur(c)|]
    {
      hide Newlines, Column, Utf8.Deliverable, Utf8.ValidText, Utf8.CheckFirst, Buffered;
      if IsEnd(c) {
        assert Cur(c) + rest == rest && consumed[..|consumed|-0] == consumed;
        return;
      }
      if c == 0 {
        UngetNul();
      } else {
        UngetByte(c);
      }
    }

    /** The place in the buffer now looks empty, so the rest of the buffer is given up. */
    method UngetNul()
      requires Valid() && Last(0)
      modifies this
      ensures Valid() && state == old(state) && rest == old(rest)
      ensures consumed == old(consumed)[..|old(consumed)|-1]
    {
      hide MarksAt, TracedAt, Utf8.Deliverable, Utf8.ValidText, Utf8.CheckFirst, Buffered;
      BufferedBack(buffer[..], bufferPos, len, consumed, lastColumn);
      TracedNul(data, consumed, rest);
      Retreat(0, 0);
      NoBytes(buffer[..], len);
      bufferPos := bufferPos - 1;
      NoBytes(buffer[..], bufferPos);
      len := bufferPos;
    }

    method UngetByte(c: int)
      requires Valid() && Last(c) && !IsEnd(c) && c != 0
      modifies this
      ensures Valid() && state == old(state) && rest == [AsByte(c)] + old(rest)
      ensures consumed == old(consumed)[..|old(consumed)|-1]
    {
      hide MarksAt, TracedAt, Utf8.Deliverable, Utf8.ValidText, Utf8.CheckFirst, Buffered;
      ghost var b := buffer[bufferPos-1];
      ghost var more := [b] + rest;
      BackOne(data, buffer[..], bufferPos, len, consumed, rest, Utf8.Deliverable(data[dataPos..]), lastColumn);
      Retreat(c, b);
      bufferPos := bufferPos - 1;
      rest := more;
    }
  }

  lemma HeadTail(s: bytes)
    ensures s != [] ==> s == [s[0]] + s[1..]
  {
  }

  lemma NoBytes(buf: bytes, i: nat)
    requires i <= |buf|
    ensures buf[i..i] == []
  {
  }

  /** The buffer ends in a NUL after the bytes still to be delivered; what was delivered
      from it is the latest that was consumed. */
  ghost predicate Buffered(buf: bytes, pos: nat, len: nat, consumed: bytes, lastColumn: int)
    requires |buf| == 5 && pos <= len <= 4
  {
    && buf[len] == 0
    && (forall i :: pos <= i < len ==> buf[i] != 0)
    && (forall i :: 0 <= i < len ==> buf[i] < 0xF8)
    && pos <= |consumed| && buf[..pos] == consumed[|consumed|-pos..]
    && (len > 1 ==> forall i :: 0 <= i < len ==> buf[i] >= 0x80)
    && (pos > 0 && buf[pos-1] == 10 ==> lastColumn == Column(consumed[..|consumed|-1]))
  }

  /** The same, with a byte ready to be delivered that may be NUL. */
  ghost predicate Ready(buf: bytes, pos: nat, len: nat, consumed: bytes)
    requires |buf| == 5
  {
    && pos < len <= 4 && buf[len] == 0
    && (forall i :: 0 <= i < len ==> buf[i] < 0xF8)
    && (len > 1 ==> forall i :: 0 <= i < len ==> buf[i] >= 0x80)
    && pos <= |consumed| && buf[..pos] == consumed[|consumed|-pos..]
  }

  lemma BufferedReady(buf: bytes, pos: nat, len: nat, consumed: bytes, lastColumn: int)
    requires |buf| == 5 && pos <= len <= 4 && Buffered(buf, pos, len, consumed, lastColumn)
    ensures buf[pos] != 0 ==> Ready(buf, pos, len, consumed)
    ensures buf[pos] == 0 ==> pos == len
  {
  }

  lemma ReadyBuffered(buf: bytes, pos: nat, len: nat, consumed: bytes, lastColumn: int)
    requires |buf| == 5 && Ready(buf, pos, len, consumed)
    requires buf[pos] == 10 ==> lastColumn == Column(consumed)
    ensures Buffered(buf, pos + 1, len, consumed + [buf[pos]], lastColumn)
    ensures buf[pos] < 0xF8
  {
    Consumed(buf, pos, consumed);
  }

  lemma BufferedBack(buf: bytes, pos: nat, len: nat, consumed: bytes, lastColumn: int)
    requires |buf| == 5 && 0 < pos <= len <= 4 && Buffered(buf, pos, len, consumed, lastColumn)
    ensures consumed[|consumed|-1] == buf[pos-1]
    ensures buf[pos-1] == 0 ==> pos == len
    ensures buf[pos-1] == 10 ==> lastColumn == Column(consumed[..|consumed|-1])
    ensures Buffered(buf, pos - 1, if buf[pos-1] == 0 then pos - 1 else len, consumed[..|consumed|-1], lastColumn)
  {
    LastConsumed(buf, pos, consumed);
  }

  /** What is true of the buffer and the bookkeeping with the last byte pushed back. */
  lemma BackOne(data: bytes, buf: bytes, pos: nat, len: nat, consumed: bytes, rest: bytes, later: bytes, lastColumn: int)
    requires |buf| == 5 && 0 < pos <= len <= 4 && Buffered(buf, pos, len, consumed, lastColumn) && buf[pos-1] != 0
    requires rest == buf[pos..len] + later && TracedAt(data, consumed, rest)
    ensures consumed != [] && consumed[|consumed|-1] == buf[pos-1]
    ensures buf[pos-1] == 10 ==> lastColumn == Column(consumed[..|consumed|-1])
    ensures Buffered(buf, pos - 1, len, consumed[..|consumed|-1], lastColumn)
    ensures [buf[pos-1]] + rest == buf[pos-1..len] + later && TracedAt(data, consumed[..|consumed|-1], [buf[pos-1]] + rest)
  {
    BufferedBack(buf, pos, len, consumed, lastColumn);
    hide Buffered, TracedAt;
    Pending(buf, pos - 1, len, later);
    TracedBack(data, consumed, rest);
  }

  lemma TracedOn(data: bytes, consumed: bytes, rest: bytes)
    requires TracedAt(data, consumed, rest) && rest != []
    ensures TracedAt(data, consumed + [rest[0]], rest[1..])
  {
    assert (consumed + [rest[0]]) + rest[1..] == consumed + rest;
  }

  lemma TracedBack(data: bytes, consumed: bytes, rest: bytes)
    requires TracedAt(data, consumed, rest) && consumed != []
    ensures TracedAt(data, consumed[..|consumed|-1], [consumed[|consumed|-1]] + rest)
  {
    assert consumed[..|consumed|-1] + ([consumed[|consumed|-1]] + rest) == consumed + rest;
  }

  /** A NUL that was delivered is one of the source. */
  lemma TracedNul(data: bytes, consumed: bytes, rest: bytes)
    requires TracedAt(data, consumed, rest) && consumed != [] && consumed[|consumed|-1] == 0
    ensures TracedAt(data, consumed[..|consumed|-1], rest)
  {
    assert consumed[|consumed|-1] in consumed + rest;
    assert Utf8.Deliverable(data) <= data;
    hide Utf8.Deliverable;
  }

  /** A byte of the source; EOF stored in a char reads as 0xFF. */
  function SourceByte(data: bytes, k: nat): byte {
    if k < |data| then data[k] else 0xFF
  }

  /** The next character of the source, taken from what is left of it. */
  ghost predicate Took(data: bytes, was: bytes, now: bytes, character: bytes) {
    Utf8.Deliverable(was) == character + Utf8.Deliverable(now) && (Utf8.ValidText(data) <==> Utf8.ValidText(now))
  }

  lemma TakesFirst(data: bytes, s: bytes)
    requires Utf8.ValidText(data) <==> Utf8.ValidText(s)
    ensures Utf8.Next(s).Some? ==>
              var n := Utf8.Next(s).value;
              Utf8.Deliverable(s) != [] && Took(data, s, s[n..], s[..n])
    ensures Utf8.Next(s).None? ==> Utf8.Deliverable(s) == [] && (Utf8.ValidText(data) <==> s == [])
    ensures s != [] && s[0] < 0x80 ==> Utf8.Next(s) == Some(1)
    ensures s == [] ==> Utf8.Next(s).None?
  {
  }

  /** The bytes pending from position i on, with and without the first of them. */
  lemma Pending(buf: bytes, i: nat, n: nat, later: bytes)
    requires i < n <= |buf|
    ensures buf[i..n] + later == [buf[i]] + (buf[i+1..n] + later)
    ensures (buf[i..n] + later)[1..] == buf[i+1..n] + later && (buf[i..n] + later)[0] == buf[i]
  {
    assert buf[i..n] == [buf[i]] + buf[i+1..n];
  }

  lemma Consumed(buf: bytes, n: nat, consumed: bytes)
    requires n < |buf| && n <= |consumed| && buf[..n] == consumed[|consumed|-n..]
    ensures var after := consumed + [buf[n]]; after[|after|-(n+1)..] == buf[..n+1] && after[..|after|-1] == consumed
  {
    var after := consumed + [buf[n]];
    assert after[|after|-(n+1)..] == consumed[|consumed|-n..] + [buf[n]];
    assert buf[..n+1] == buf[..n] + [buf[n]];
  }

  lemma LastConsumed(buf: bytes, n: nat, consumed: bytes)
    requires 0 < n <= |buf| && n <= |consumed| && buf[..n] == consumed[|consumed|-n..]
    ensures consumed[|consumed|-1] == buf[n-1] && consumed == consumed[..|consumed|-1] + [buf[n-1]]
    ensures var before := consumed[..|consumed|-1]; before[|before|-(n-1)..] == buf[..n-1]
  {
    assert buf[..n][n-1] == consumed[|consumed|-n..][n-1];
    assert buf[..n-1] == buf[..n][..n-1];
  }

  /** The checks on a sequence in the buffer agree with those on the source, even where
      the source ended early. */
  lemma Sequence(rest: bytes, t: bytes, count: nat)
    requires rest != [] && count == Utf8.CheckFirst(rest[0]) == |t| && count >= 2
    requires forall j :: 0 <= j < count ==> t[j] == SourceByte(rest, j)
    ensures Utf8.FullValue(t).Some? <==> Utf8.Next(rest) == Some(count)
    ensures Utf8.Next(rest).Some? ==> Utf8.Next(rest) == Some(count)
    ensures Utf8.FullValue(t).Some? ==> count <= |rest| && t == rest[..count] && forall j :: 0 <= j < count ==> 0x80 <= t[j] < 0xF8
  {
    if Utf8.FullValue(t).Some? {
      Utf8.FullContinues(t);
      assert t[count-1] == SourceByte(rest, count - 1) && Utf8.IsContinuation(t[count-1]);
    }
    if count <= |rest| {
      assert t == rest[..count];
    }
  }
}
