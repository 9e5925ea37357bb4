/**
  strbuffer.c: the growing, NUL-terminated buffer behind the lexer's saved text and the
  dumped text. Both are modelled as byte sequences; this is why that is right.
 */
module StringBuffer {
  import opened Bytes
  import opened Numbers

  const MIN_SIZE: nat := 16
  const SIZE_MAX: nat := 0xFFFF_FFFF_FFFF_FFFF

  /** The tests that keep the computation of a new size from wrapping around. */
  predicate WouldOverflow(size: nat, length: nat, more: nat) {
    size > SIZE_MAX / 2 || more > SIZE_MAX - 1 || length > SIZE_MAX - 1 - more
  }

  class StrBuffer {
    var value: array<byte>
    var length: nat

    /** There is room for the text and its terminating NUL. */
    ghost predicate Valid()
      reads this, value
    {
      MIN_SIZE <= value.Length <= SIZE_MAX && length < value.Length && value[length] == 0
    }

    ghost function Contents(): (s: bytes)
      requires Valid()
      reads this, value
      ensures |s| == length
    {
      value[..length]
    }

    constructor ()
      ensures Valid() && Contents() == [] && fresh(value) && value.Length == MIN_SIZE
    {
      length := 0;
      value := new byte[MIN_SIZE](_ => 0);
    }

    method Clear()
      requires Valid()
      modifies this`length, value
      ensures Valid() && Contents() == []
    {
      length := 0;
      value[0] := 0;
    }

    /** jsonp_strdup of the value: a copy up to the first NUL. */
    method Duplicate() returns (result: array<byte>)
      requires Valid()
      ensures fresh(result) && result[..] == UpToNul(Contents()) + [0]
    {
      var n := 0;
      while value[n] != 0
        invariant n <= length && 0 !in value[..n]
        decreases length - n
      {
        n := n + 1;
      }
      UpToNulIs(Contents(), n);
      result := new byte[n + 1];
      forall i | 0 <= i < n {
        result[i] := value[i];
      }
      result[n] := 0;
      assert result[..] == value[..n] + [0];
    }

    /** strbuffer_steal_value: hands the buffer over and starts a new one. */
    method StealValue() returns (result: array<byte>)
      requires Valid()
      modifies this
      ensures Valid() && Contents() == [] && fresh(value)
      ensures result == old(value) && result[..old(length)] == old(Contents()) && result[old(length)] == 0
    {
      result := value;
      length := 0;
      value := new byte[MIN_SIZE](_ => 0);
    }

    /** Fails, changing nothing, exactly when more room is needed than a size_t can count. */
    method AppendBytes(data: bytes) returns (ok: bool)
      requires Valid() && |data| <= SIZE_MAX
      modifies this, value
      ensures Valid() && (value == old(value) || fresh(value))
      ensures ok <==> |data| < old(value.Length - length) || !WouldOverflow(old(value.Length), old(length), |data|)
      ensures Contents() == old(Contents()) + if ok then data else []
      ensures ok && |data| >= old(value.Length - length) ==> value.Length == Max(2 * old(value.Length), length + 1)
      ensures |data| < old(value.Length - length) ==> value.Length == old(value.Length)
    {
      if |data| >= value.Length - length {
        if WouldOverflow(value.Length, length, |data|) {
          assert Contents() + [] == Contents();
          return false;
        }
        Enlarge(|data|);
      }
      Put(data);
      ok := true;
    }

    method Enlarge(more: nat)
      requires Valid() && more >= value.Length - length && !WouldOverflow(value.Length, length, more)
      modifies this`value
      ensures Valid() && fresh(value) && Contents() == old(Contents())
      ensures value.Length == Max(2 * old(value.Length), length + more + 1)
    {
      var bigger := new byte[Max(value.Length * 2, length + more + 1)];
      forall i | 0 <= i < length {
        bigger[i] := value[i];
      }
      bigger[length] := 0;
      value := bigger;
    }

    method Put(data: bytes)
      requires Valid() && |data| < value.Length - length
      modifies this`length, value
      ensures Valid() && Contents() == old(Contents()) + data
    {
      ghost var s := Contents();
      var n := length + |data|;
      forall i | 0 <= i < |data| {
        value[length+i] := data[i];
      }
      assert value[..n] == s + data;
      length := n;
      value[n] := 0;
    }

    /** strbuffer_pop: the last byte, or NUL from an empty buffer. */
    method Pop() returns (c: byte)
      requires Valid()
      modifies this`length, value
      ensures Valid()
      ensures old(length) == 0 ==> c == 0 && Contents() == []
      ensures old(length) > 0 ==> old(Contents()) == Contents() + [c]
    {
      if length > 0 {
        c := value[length-1];
        length := length - 1;
        value[length] := 0;
      } else {
        c := 0;
      }
    }
  }

  /** A buffer is at most twice as large as its text, or as small as it can be. */
  predicate Snug(size: nat, length: nat) { size <= 2 * length || size == MIN_SIZE }

  /** json_dumps: the pieces are appended one by one and the text is duplicated. It fails
      only for more than SIZE_MAX / 2 bytes. */
  method Collect(pieces: seq<bytes>) returns (ok: bool, text: bytes)
    requires forall p <- pieces :: |p| <= SIZE_MAX
    ensures ok ==> text == UpToNul(Joined(pieces))
    ensures |Joined(pieces)| <= SIZE_MAX / 2 ==> ok
  {
    var b := new StrBuffer();
    ok := true;
    for i := 0 to |pieces|
      invariant ok && b.Valid() && fresh(b) && fresh(b.value) && b.Contents() == Joined(pieces[..i])
      invariant Snug(b.value.Length, b.length)
    {
      assert pieces[i] in pieces && pieces[..i+1][..i] == pieces[..i];
      PartShorter(pieces, i + 1);
      ok := b.AppendBytes(pieces[i]);
      if !ok {
        return ok, [];
      }
    }
    assert pieces[..|pieces|] == pieces;
    var result := b.Duplicate();
    text := result[..result.Length-1];
  }

  function Joined(pieces: seq<bytes>): bytes {
    if pieces == [] then [] else Joined(pieces[..|pieces|-1]) + pieces[|pieces|-1]
  }

  lemma {:induction false} PartShorter(pieces: seq<bytes>, i: nat)
    requires i <= |pieces|
    ensures |Joined(pieces[..i])| <= |Joined(pieces)|
  {
    if i < |pieces| {
      PartShorter(pieces[..|pieces|-1], i);
      assert pieces[..|pieces|-1][..i] == pieces[..i];
    } else {
      assert pieces[..i] == pieces;
    }
  }

  /** The C string that starts a sequence of bytes. */
  function UpToNul(s: bytes): bytes {
    if s == [] || s[0] == 0 then [] else [s[0]] + UpToNul(s[1..])
  }

  lemma {:induction false} UpToNulIs(s: bytes, n: nat)
    requires n <= |s| && 0 !in s[..n] && (n < |s| ==> s[n] == 0)
    ensures UpToNul(s) == s[..n]
  {
    if n > 0 {
      assert s[0] == s[..n][0] && s[1..][..n-1] == s[..n][1..];
      UpToNulIs(s[1..], n - 1);
      assert s[..n] == [s[0]] + s[1..][..n-1];
    }
  }
}
