/** The multi-cell selection of a tray grid (src/hooks/useSelectedCells.tsx): an
    ordered list of coordinates that the grid toggles one cell at a time, replaces
    wholesale, or clears. Two coordinates are the same cell when their x and y agree,
    which for `Coord` is plain equality. */
module SelectedCells {
  import opened Types
  import Seqs

  /** The filter predicate `c => !(c.x === cell.x && c.y === cell.y)`. */
  function OtherThan(cell: Coord): Coord -> bool
  {
    (c: Coord) => !(c.x == cell.x && c.y == cell.y)
  }

  /** The list `toggleCell` computes from `prev`: every entry equal to `cell`
      removed when there is one, `cell` appended otherwise. */
  function Toggled(prev: seq<Coord>, cell: Coord): (r: seq<Coord>)
    ensures forall d :: d in r <==> (d in prev) != (d == cell)
  {
    if cell in prev then Seqs.Filter(prev, OtherThan(cell)) else prev + [cell]
  }

  /** Toggling an absent cell appends it and leaves the earlier entries, in order. */
  lemma ToggleAbsentAppends(prev: seq<Coord>, cell: Coord)
    requires cell !in prev
    ensures |Toggled(prev, cell)| == |prev| + 1
    ensures Toggled(prev, cell)[..|prev|] == prev
    ensures Toggled(prev, cell)[|prev|] == cell
  {
  }

  /** Toggling a present cell drops exactly that entry from a duplicate-free list:
      the entries before it and after it stay, in order. */
  lemma {:induction false} TogglePresentRemoves(prev: seq<Coord>, cell: Coord, i: nat)
    requires Seqs.Distinct(prev)
    requires i < |prev| && prev[i] == cell
    ensures Toggled(prev, cell) == prev[..i] + prev[i + 1..]
  {
    var keep := OtherThan(cell);
    var a, b := prev[..i], prev[i + 1..];
    assert prev == a + [cell] + b;
    forall j | 0 <= j < |a| ensures keep(a[j]) {
      assert a[j] == prev[j];
    }
    forall j | 0 <= j < |b| ensures keep(b[j]) {
      assert b[j] == prev[i + 1 + j];
    }
    Seqs.FilterDropsOne(a, cell, b, keep);
  }

  /** From a list without `cell`, toggling it twice gives the list back exactly. */
  lemma {:induction false} ToggleTwiceRestores(prev: seq<Coord>, cell: Coord)
    requires cell !in prev
    ensures Toggled(Toggled(prev, cell), cell) == prev
  {
    assert Toggled(prev, cell) == prev + [cell] + [];
    Seqs.FilterDropsOne(prev, cell, [], OtherThan(cell));
    assert prev + [] == prev;
  }

  /** Toggling keeps a duplicate-free list duplicate-free. */
  lemma {:induction false} ToggleKeepsDistinct(prev: seq<Coord>, cell: Coord)
    requires Seqs.Distinct(prev)
    ensures Seqs.Distinct(Toggled(prev, cell))
  {
    if cell in prev {
      Seqs.FilterDistinct(prev, OtherThan(cell));
    } else {
      var r := prev + [cell];
      assert r[|prev|] == cell;
    }
  }

  /** The `selectedCells` state of the hook. */
  class CellSelection {
    var selectedCells: seq<Coord>

    /** Every coordinate is listed at most once. */
    ghost predicate Valid()
      reads this
    {
      Seqs.Distinct(selectedCells)
    }

    /** `useState<CellCoordinates[]>([])`. */
    constructor ()
      ensures selectedCells == []
      ensures Valid()
    {
      selectedCells := [];
    }

    /** `isCellSelected`: some entry has the same x and y. */
    function IsCellSelected(cell: Coord): (b: bool)
      reads this
      ensures b <==> cell in selectedCells
    {
      exists i :: 0 <= i < |selectedCells| && selectedCells[i].x == cell.x && selectedCells[i].y == cell.y
    }

    /** `toggleCell`: only the membership of `cell` changes, and a duplicate-free
        selection stays duplicate-free. */
    method ToggleCell(cell: Coord)
      modifies this
      ensures selectedCells == Toggled(old(selectedCells), cell)
      ensures forall d :: d in selectedCells <==> (d in old(selectedCells)) != (d == cell)
      ensures old(Valid()) ==> Valid()
    {
      ghost var prev := selectedCells;
      var present := IsCellSelected(cell);
      if present {
        selectedCells := Seqs.Filter(selectedCells, OtherThan(cell));
      } else {
        selectedCells := selectedCells + [cell];
      }
      if Seqs.Distinct(prev) {
        ToggleKeepsDistinct(prev, cell);
      }
    }

    /** The state setter: the selection becomes `cells`. */
    method SetSelectedCells(cells: seq<Coord>)
      modifies this
      ensures selectedCells == cells
    {
      selectedCells := cells;
    }

    /** `clearSelection`. */
    method ClearSelection()
      modifies this
      ensures selectedCells == []
      ensures Valid()
    {
      selectedCells := [];
    }
  }
}
