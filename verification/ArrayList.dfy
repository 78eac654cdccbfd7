/** The growing array of zc_arraylist.c, with its sorted insertion. */
module ArrayLists {

  const DEFAULT_SIZE := 32

  /** A cell: NULL or a pointer. */
  datatype Cell<+T> = Null | Item(value: T)

  /** The size expand_inner grows to. */
  function GrownSize(size: nat, max: nat): nat { if 2 * size > max then 2 * size else max }

  /** A set beyond the array asks for room up to the index, not past it; there is a cell for
      the index exactly when doubling alone makes one. */
  lemma GrowthReaches(size: nat, idx: nat)
    requires idx >= size
    ensures idx < GrownSize(size, idx) <==> idx < 2 * size
    ensures !(64 < GrownSize(DEFAULT_SIZE, 64))
  {
  }

  function Nulls<T>(n: nat): seq<Cell<T>> { seq(n, _ => Null) }

  ghost predicate NoNull<T>(s: seq<Cell<T>>) {
    forall i :: 0 <= i < |s| ==> s[i].Item?
  }

  /** Where a sorted insertion puts `x`: before the first element that compares greater. */
  ghost function Slot<T>(s: seq<Cell<T>>, cmp: (T, T) -> int, x: T): (i: nat)
    requires NoNull(s)
    ensures i <= |s| && (forall j :: 0 <= j < i ==> cmp(s[j].value, x) <= 0) && (i < |s| ==> cmp(s[i].value, x) > 0)
  {
    if s == [] then 0 else if cmp(s[0].value, x) > 0 then 0 else 1 + Slot(s[1..], cmp, x)
  }

  ghost function Inserted<T>(s: seq<Cell<T>>, cmp: (T, T) -> int, x: T): seq<Cell<T>>
    requires NoNull(s)
  {
    s[..Slot(s, cmp, x)] + [Item(x)] + s[Slot(s, cmp, x)..]
  }

  lemma SlotUnique<T>(s: seq<Cell<T>>, cmp: (T, T) -> int, x: T, i: nat)
    requires NoNull(s)
    requires i <= |s| && (forall j :: 0 <= j < i ==> cmp(s[j].value, x) <= 0) && (i < |s| ==> cmp(s[i].value, x) > 0)
    ensures i == Slot(s, cmp, x)
  {
  }

  /** memmove(a + idx + 1, a + idx, len - idx) */
  method ShiftUp<T>(a: array<T>, idx: nat, len: nat)
    requires idx <= len < a.Length
    modifies a
    ensures forall j :: 0 <= j < a.Length ==> a[j] == old(if idx < j <= len then a[j - 1] else a[j])
  {
    var i := len;
    while i > idx
      invariant idx <= i <= len
      invariant forall j :: 0 <= j < a.Length ==> a[j] == old(if i < j <= len then a[j - 1] else a[j])
    {
      a[i] := a[i - 1];
      i := i - 1;
    }
  }

  lemma InsertedCells<T>(before: seq<T>, after: seq<T>, idx: nat, x: T)
    requires idx <= |before| && |after| == |before| + 1
    requires after[..idx] == before[..idx] && after[idx] == x
    requires forall j :: idx < j < |after| ==> after[j] == before[j - 1]
    ensures after == before[..idx] + [x] + before[idx..]
  {
    assert after[idx + 1..] == before[idx..] by {
      forall j | 0 <= j < |before| - idx
        ensures after[idx + 1..][j] == before[idx..][j]
      {
        assert after[idx + 1 + j] == before[idx + j];
      }
    }
    assert after == after[..idx] + [after[idx]] + after[idx + 1..];
  }

  class ArrayList<T> {
    var cells: array<Cell<T>>
    var len: nat

    /** Cells past `len` are NULL. */
    ghost predicate Valid()
      reads this, cells
    {
      && 0 < cells.Length && len <= cells.Length
      && forall i :: len <= i < cells.Length ==> cells[i] == Null
    }

    ghost function Contents(): seq<Cell<T>>
      requires len <= cells.Length
      reads this, cells
    {
      cells[..len]
    }

    constructor ()
      ensures Valid() && fresh(cells) && Contents() == []
    {
      cells := new Cell<T>[DEFAULT_SIZE](_ => Null);
      len := 0;
    }

    method ExpandInner(max: nat)
      requires Valid()
      modifies this`cells
      ensures Valid() && fresh(cells) && Contents() == old(Contents())
      ensures cells.Length == GrownSize(old(cells.Length), max)
    {
      var tmp := new Cell<T>[GrownSize(cells.Length, max)](_ => Null);
      forall i | 0 <= i < cells.Length {
        tmp[i] := cells[i];
      }
      cells := tmp;
    }

    /** Replaces a cell, or adds one at the end, over a gap of NULLs if need be.  From twice the size on, the array is
        grown to the index and not past it: the cell is then the one behind its end. */
    method Set(idx: nat, data: T) returns (outside: bool)
      requires Valid()
      modifies this, cells
      ensures Valid() && (cells == old(cells) || fresh(cells))
      ensures outside <==> idx >= 2 * old(cells.Length)
      ensures outside ==> cells.Length == idx && Contents() == old(Contents())
      ensures !outside ==>
                Contents() == if idx < old(len) then old(Contents())[idx := Item(data)]
                              else old(Contents()) + Nulls(idx - old(len)) + [Item(data)]
    {
      if idx > cells.Length - 1 {
        ExpandInner(idx);
      }
      outside := idx >= cells.Length;
      if outside {
        return;
      }
      cells[idx] := Item(data);
      if len <= idx {
        len := idx + 1;
      }
    }

    method Add(data: T)
      requires Valid()
      modifies this, cells
      ensures Valid() && (cells == old(cells) || fresh(cells))
      ensures Contents() == old(Contents()) + [Item(data)]
    {
      var _ := Set(len, data);
      assert old(Contents()) + Nulls<T>(0) == old(Contents());
    }

    /** A NULL cell is filled; any other moves up with all that follow it. */
    method InsertInner(idx: nat, data: T)
      requires Valid() && idx < len
      modifies this, cells
      ensures Valid() && (cells == old(cells) || fresh(cells))
      ensures Contents() == if old(cells[idx]) == Null then old(Contents())[idx := Item(data)]
                            else old(Contents())[..idx] + [Item(data)] + old(Contents())[idx..]
    {
      if cells[idx].Null? {
        cells[idx] := Item(data);
        return;
      }
      if len > cells.Length - 1 {
        ExpandInner(0);
      }
      MoveUp(idx, data);
    }

    method MoveUp(idx: nat, data: T)
      requires Valid() && idx < len < cells.Length
      modifies this`len, cells
      ensures Valid() && Contents() == old(Contents())[..idx] + [Item(data)] + old(Contents())[idx..]
    {
      ghost var before := Contents();
      ShiftUp(cells, idx, len);
      cells[idx] := Item(data);
      len := len + 1;
      InsertedCells(before, Contents(), idx, Item(data));
    }

    method SortAdd(cmp: (T, T) -> int, data: T)
      requires Valid() && NoNull(Contents())
      modifies this, cells
      ensures Valid() && (cells == old(cells) || fresh(cells))
      ensures Contents() == Inserted(old(Contents()), cmp, data)
    {
      ghost var s := Contents();
      var i := 0;
      while i < len
        invariant i <= len && forall j :: 0 <= j < i ==> cmp(s[j].value, data) <= 0
      {
        assert cells[i] == s[i];
        if cmp(cells[i].value, data) > 0 {
          break;
        }
        i := i + 1;
      }
      SlotUnique(s, cmp, data, i);
      if i == len {
        assert s[..i] + [Item(data)] + s[i..] == s + [Item(data)];
        Add(data);
      } else {
        InsertInner(i, data);
      }
    }
  }
}
