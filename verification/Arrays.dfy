/**
  The growable array of value.c, refined to a sequence, with what growth copies.
 */
module Arrays {
  import opened Bytes
  import opened Numbers

  datatype Op<T> = Append(x: T) | InsertAt(i: nat, x: T) | RemoveAt(i: nat) | SetAt(i: nat, x: T) | ExtendSelf | ExtendBy(xs: seq<T>) | Clear

  /** What an operation does to the sequence, and whether it returns 0. */
  function Apply<T>(s: seq<T>, op: Op<T>): (seq<T>, bool) {
    match op
    case Append(x) => (s + [x], true)
    case InsertAt(i, x) => if i <= |s| then (s[..i] + [x] + s[i..], true) else (s, false)
    case RemoveAt(i) => if i < |s| then (s[..i] + s[i+1..], true) else (s, false)
    case SetAt(i, x) => if i < |s| then (s[i := x], true) else (s, false)
    case ExtendSelf => (s + s, true)
    case ExtendBy(xs) => (s + xs, true)
    case Clear => ([], true)
  }

  /** An insertion takes any index up to the length; what was from there on moves up by one. */
  lemma InsertIs<T>(s: seq<T>, i: nat, x: T)
    ensures var (r, ok) := Apply(s, InsertAt(i, x));
            && (ok <==> i <= |s|) && (!ok ==> r == s)
            && (ok ==> |r| == |s| + 1 && r[i] == x && r[..i] == s[..i] && r[i+1..] == s[i..])
  {
  }

  /** A removal takes any index below the length; what came after it moves down by one. */
  lemma RemoveIs<T>(s: seq<T>, i: nat)
    ensures var (r, ok) := Apply(s, RemoveAt(i));
            && (ok <==> i < |s|) && (!ok ==> r == s)
            && (ok ==> |r| == |s| - 1 && r[..i] == s[..i] && r[i..] == s[i+1..])
  {
  }

  /** A replacement changes the element at an index below the length and no other. */
  lemma SetIs<T>(s: seq<T>, i: nat, x: T)
    ensures var (r, ok) := Apply(s, SetAt(i, x));
            && (ok <==> i < |s|) && (!ok ==> r == s)
            && (ok ==> |r| == |s| && r[i] == x && forall j :: 0 <= j < |s| && j != i ==> r[j] == s[j])
  {
  }

  /** What is appended comes after all there was. */
  lemma ExtendIs<T>(s: seq<T>, x: T, xs: seq<T>)
    ensures Apply(s, Append(x)).1 && Apply(s, Append(x)).0[..|s|] == s && Apply(s, Append(x)).0[|s|..] == [x]
    ensures Apply(s, ExtendBy(xs)).1 && Apply(s, ExtendBy(xs)).0[..|s|] == s && Apply(s, ExtendBy(xs)).0[|s|..] == xs
    ensures Apply(s, ExtendSelf) == Apply(s, ExtendBy(s)) && Apply(s, Clear).1 && Apply(s, Clear).0 == []
  {
  }

  function ApplyAll<T>(ops: seq<Op<T>>): (seq<T>, seq<bool>) {
    if ops == [] then ([], [])
    else
      var (s, oks) := ApplyAll(ops[..|ops|-1]);
      var (t, ok) := Apply(s, ops[|ops|-1]);
      (t, oks + [ok])
  }

  lemma Pieces<T>(t: seq<T>, i: nat, n: nat)
    requires i < n <= |t|
    ensures t[..n] == t[..i] + [t[i]] + t[i+1..n]
  {
  }

  class JsonArray<T(0)> {
    /** The slots; their number is the source's size field. */
    var table: array<T>
    var entries: nat

    /** The elements growth has copied so far. */
    ghost var copied: nat

    ghost predicate Valid()
      reads this, table
    {
      8 <= table.Length && entries <= table.Length
    }

    ghost function Contents(): (s: seq<T>)
      requires Valid()
      reads this, table
      ensures |s| == entries
    {
      table[..entries]
    }

    /** What holds after appends alone. */
    ghost predicate Frugal()
      reads this, table
    {
      copied + 8 == table.Length && (table.Length == 8 || table.Length < 2 * entries)
    }

    constructor ()
      ensures Valid() && Contents() == [] && Frugal() && fresh(table)
    {
      entries := 0;
      table := new T[8];
      copied := 0;
    }

    method Get(i: nat) returns (r: Option<T>)
      requires Valid()
      ensures r == if i < |Contents()| then Some(Contents()[i]) else None
    {
      r := if i >= entries then None else Some(table[i]);
    }

    method Set(i: nat, x: T) returns (ok: bool)
      requires Valid()
      modifies table
      ensures Valid() && (Contents(), ok) == Apply(old(Contents()), SetAt(i, x))
    {
      if i >= entries {
        return false;
      }
      table[i] := x;
      ok := true;
    }

    /** json_array_grow: makes room for more entries. The result is the table that now holds
        the entries: with `copy` the new one, otherwise the one the caller has to copy from. */
    method Grow(amount: nat, copy: bool) returns (from: array<T>)
      requires Valid()
      modifies this`table, this`copied
      ensures Valid() && entries + amount <= table.Length
      ensures from.Length >= entries && from[..entries] == old(Contents())
      ensures if entries + amount <= old(table.Length)
              then from == table == old(table) && copied == old(copied)
              else fresh(table) && table.Length == Max(old(table.Length) + amount, 2 * old(table.Length))
                   && from == (if copy then table else old(table)) && copied == old(copied) + if copy then entries else 0
    {
      if entries + amount <= table.Length {
        return table;
      }
      var oldTable := table;
      table := new T[Max(table.Length + amount, table.Length * 2)];
      if copy {
        Copy(table, 0, oldTable, 0, entries);
        copied := copied + entries;
        return table;
      }
      return oldTable;
    }

    method PushBack(x: T)
      requires Valid()
      modifies this, table
      ensures Valid() && Contents() == old(Contents()) + [x]
      ensures if old(entries) < old(table.Length) then table == old(table) else fresh(table)
      ensures old(Frugal()) ==> Frugal()
    {
      var _ := Grow(1, true);
      table[entries] := x;
      entries := entries + 1;
    }

    /** The part of json_array_insert_new that opens a gap for the new element. */
    method OpenGap(i: nat)
      requires Valid() && i <= entries
      modifies this`table, this`copied, table
      ensures Valid() && entries < table.Length && (table == old(table) || fresh(table))
      ensures table[..i] == old(Contents())[..i] && table[i+1..entries+1] == old(Contents())[i..]
    {
      var from := Grow(1, false);
      if from != table {
        CopyAround(from, i);
        copied := copied + entries;
      } else {
        Copy(table, i + 1, table, i, entries - i);
        assert table[..i] == table[..i+1][..i];
      }
    }

    method CopyAround(from: array<T>, i: nat)
      requires i <= entries < table.Length && entries <= from.Length && from != table
      modifies table
      ensures table[..i] == from[..i] && table[i+1..entries+1] == from[i..entries]
    {
      Copy(table, 0, from, 0, i);
      assert table[..i] == table[0..0+i];
      Copy(table, i + 1, from, i, entries - i);
      assert table[..i] == table[..i+1][..i];
    }

    method Insert(i: nat, x: T) returns (ok: bool)
      requires Valid()
      modifies this, table
      ensures Valid() && (Contents(), ok) == Apply(old(Contents()), InsertAt(i, x)) && (table == old(table) || fresh(table))
    {
      if i > entries {
        return false;
      }
      ghost var s := Contents();
      OpenGap(i);
      assert table[..i] == s[..i] && table[i+1..entries+1] == s[i..];
      ghost var tail := table[i+1..entries+1];
      table[i] := x;
      entries := entries + 1;
      assert table[..i] == s[..i] && table[i+1..entries] == tail;
      Pieces(table[..], i, entries);
      ok := true;
    }

    /** json_array_remove. The move takes one slot more than the live tail: harmlessly so if
        the table has one, and beyond the table's end exactly when it is full. */
    method Remove(i: nat) returns (ok: bool, beyond: bool)
      requires Valid()
      modifies this`entries, table
      ensures Valid() && (Contents(), ok) == Apply(old(Contents()), RemoveAt(i))
      ensures beyond <==> ok && old(entries) == table.Length
      ensures ok && !beyond ==> table[old(entries)-1] == old(table[entries])
    {
      if i >= entries {
        return false, false;
      }
      ghost var s := Contents();
      beyond := entries == table.Length;
      Copy(table, i, table, i + 1, if beyond then entries - i - 1 else entries - i);
      entries := entries - 1;
      assert table[..entries] == s[..i] + s[i+1..];
      ok := true;
    }

    method Empty()
      requires Valid()
      modifies this`entries
      ensures Valid() && Contents() == []
    {
      entries := 0;
    }

    /** json_array_extend; the other array may be this one. */
    method Extend(other: JsonArray<T>)
      requires Valid() && other.Valid() && (other != this ==> other.table != table)
      modifies this, table
      ensures Valid() && Contents() == old(Contents()) + old(other.Contents()) && (table == old(table) || fresh(table))
      ensures other != this ==> other.Valid() && other.Contents() == old(other.Contents())
    {
      var _ := Grow(other.entries, true);
      AppendFrom(other.table, other.entries);
    }

    method AppendFrom(src: array<T>, count: nat)
      requires Valid() && entries + count <= table.Length && count <= src.Length
      modifies this`entries, table
      ensures Valid() && Contents() == old(Contents()) + old(src[..count])
      ensures src != table ==> src[..] == old(src[..])
    {
      var n := entries;
      ghost var t := src[0..count];
      assert src[..count] == t;
      Copy(table, n, src, 0, count);
      entries := n + count;
      Halves(table[..], n, count);
    }

    method Step(op: Op<T>) returns (ok: bool)
      requires Valid()
      modifies this, table
      ensures Valid() && (Contents(), ok) == Apply(old(Contents()), op) && (table == old(table) || fresh(table))
    {
      ok := true;
      match op {
        case Append(x) => PushBack(x);
        case InsertAt(i, x) => ok := Insert(i, x);
        case RemoveAt(i) =>
          var beyond;
          ok, beyond := Remove(i);
        case SetAt(i, x) => ok := Set(i, x);
        case ExtendSelf => Extend(this);
        case ExtendBy(xs) =>
          var other := AppendAll(xs);
          Extend(other);
        case Clear => Empty();
      }
    }
  }

  lemma Halves<T>(s: seq<T>, n: nat, count: nat)
    requires n + count <= |s|
    ensures s[..n+count] == s[..n] + s[n..n+count]
  {
  }

  /** memmove: the ranges may overlap. */
  method Copy<T>(dest: array<T>, d: nat, src: array<T>, s: nat, count: nat)
    requires d + count <= dest.Length && s + count <= src.Length
    modifies dest
    ensures dest[d..d+count] == old(src[s..s+count])
    ensures dest[..d] == old(dest[..d]) && dest[d+count..] == old(dest[d+count..])
  {
    forall i | 0 <= i < count {
      dest[d+i] := src[s+i];
    }
  }

  /** Any run of operations on a new array does what it does to a sequence. */
  method Run<T(0)>(ops: seq<Op<T>>) returns (a: JsonArray<T>, oks: seq<bool>)
    ensures a.Valid() && (a.Contents(), oks) == ApplyAll(ops)
  {
    a := new JsonArray<T>();
    oks := [];
    for i := 0 to |ops|
      invariant a.Valid() && fresh(a) && fresh(a.table)
      invariant (a.Contents(), oks) == ApplyAll(ops[..i])
    {
      var ok := a.Step(ops[i]);
      assert ops[..i+1][..i] == ops[..i];
      oks := oks + [ok];
    }
    assert ops[..|ops|] == ops;
  }

  /** Appending alone copies fewer than two elements for each one appended. */
  method AppendAll<T(0)>(xs: seq<T>) returns (a: JsonArray<T>)
    ensures a.Valid() && a.Contents() == xs && fresh(a) && fresh(a.table)
    ensures xs != [] ==> a.copied < 2 * |xs|
    ensures a.table.Length <= Max(8, 2 * |xs|)
  {
    a := new JsonArray<T>();
    for i := 0 to |xs|
      invariant a.Valid() && fresh(a) && fresh(a.table) && a.Frugal() && a.Contents() == xs[..i]
    {
      a.PushBack(xs[i]);
    }
  }

  /** Removing from a full table: the move reaches one slot beyond it. */
  method RemoveFromFull<T(0)>(xs: seq<T>) returns (beyond: bool)
    requires |xs| == 8
    ensures beyond
  {
    var a := new JsonArray<T>();
    for i := 0 to 8
      invariant a.Valid() && fresh(a) && fresh(a.table) && a.table.Length == 8 && a.Contents() == xs[..i]
    {
      a.PushBack(xs[i]);
    }
    var ok;
    ok, beyond := a.Remove(0);
  }
}
