/** Paper rolls on a grid (src/day4.rs): a roll can be moved when fewer than four
    of the eight cells around it hold a roll; removing every movable roll at once,
    again and again, until none is left to move. */
module Day4 {
  import opened Decimal
  import opened Text

  /** A cell as (column, row). */
  type Position = (int, int)

  /** q is one of the eight cells around p. */
  predicate Adjacent(p: Position, q: Position) {
    q != p && -1 <= q.0 - p.0 <= 1 && -1 <= q.1 - p.1 <= 1
  }

  /** The occupied cells around p. */
  function NeighborSet(cells: set<Position>, p: Position): set<Position> {
    set q | q in cells && Adjacent(p, q)
  }

  function NeighborCount(cells: set<Position>, p: Position): nat {
    |NeighborSet(cells, p)|
  }

  /** The eight cells around p. */
  function Around(p: Position): set<Position> {
    var (x, y) := p;
    {(x - 1, y - 1), (x - 1, y), (x - 1, y + 1), (x, y - 1),
     (x, y + 1), (x + 1, y - 1), (x + 1, y), (x + 1, y + 1)}
  }

  /** There are eight cells around a cell, so at most eight occupied ones. */
  lemma NeighborCountBound(cells: set<Position>, p: Position)
    ensures NeighborSet(cells, p) <= Around(p)
    ensures |Around(p)| == 8
    ensures NeighborCount(cells, p) <= 8
  {
    SubsetCard(NeighborSet(cells, p), Around(p));
  }

  lemma {:induction false} SubsetCard<T>(a: set<T>, b: set<T>)
    requires a <= b
    ensures |a| <= |b|
  {
    assert b == a + (b - a);
  }

  /** Taking away a part of a set lowers its size by the size of the part. */
  lemma DifferenceCard<T>(a: set<T>, b: set<T>)
    requires b <= a
    ensures |a - b| == |a| - |b|
  {
    assert a == (a - b) + b;
  }

  /** With more cells occupied, a cell has at least as many neighbours. */
  lemma NeighborCountMonotone(small: set<Position>, large: set<Position>, p: Position)
    requires small <= large
    ensures NeighborCount(small, p) <= NeighborCount(large, p)
  {
    SubsetCard(NeighborSet(small, p), NeighborSet(large, p));
  }

  /** The rolls with fewer than four neighbours. */
  function Movable(cells: set<Position>): set<Position> {
    set q | q in cells && NeighborCount(cells, q) < 4
  }

  /** Every remaining roll has at least four neighbours. */
  predicate Stable(cells: set<Position>) {
    forall q :: q in cells ==> NeighborCount(cells, q) >= 4
  }

  lemma StableIffNoneMovable(cells: set<Position>)
    ensures Stable(cells) <==> Movable(cells) == {}
  {
    if !Stable(cells) {
      var q :| q in cells && NeighborCount(cells, q) < 4;
      assert q in Movable(cells);
    }
  }

  /** The grid after all movable rolls are taken away at once. */
  function Erode(cells: set<Position>): set<Position> {
    cells - Movable(cells)
  }

  /** Erosion repeated until nothing is movable. */
  function Settle(cells: set<Position>): (s: set<Position>)
    decreases |cells|
  {
    if Movable(cells) == {} then cells
    else
      SubsetCard(Movable(cells), cells);
      Settle(Erode(cells))
  }

  /** One round of erosion keeps only original rolls, changes nothing on a grid
      with no movable roll, and does not change where the grid settles. */
  lemma ErodeStep(cells: set<Position>)
    ensures Erode(cells) <= cells
    ensures Movable(cells) == {} ==> Erode(cells) == cells
    ensures Settle(Erode(cells)) == Settle(cells)
  {
    if Movable(cells) == {} {
      assert Erode(cells) == cells;
    }
  }

  /** The settled grid keeps only original rolls and nothing in it is movable. */
  lemma {:induction false} SettleIsStable(cells: set<Position>)
    ensures Settle(cells) <= cells
    ensures Stable(Settle(cells))
    decreases |cells|
  {
    if Movable(cells) == {} {
      StableIffNoneMovable(cells);
    } else {
      SubsetCard(Movable(cells), cells);
      SettleIsStable(Erode(cells));
    }
  }

  /** The settled grid is the largest stable part of the grid: every set of rolls
      that is stable on its own survives the erosion. */
  lemma {:induction false} SettleIsLargest(cells: set<Position>, core: set<Position>)
    requires core <= cells && Stable(core)
    ensures core <= Settle(cells)
    decreases |cells|
  {
    if Movable(cells) != {} {
      forall q | q in core ensures q !in Movable(cells) {
        NeighborCountMonotone(core, cells, q);
      }
      SubsetCard(Movable(cells), cells);
      SettleIsLargest(Erode(cells), core);
    }
  }

  /** Each roll of a two-by-two block touches the other three. */
  lemma BlockNeighbors(p: Position)
    requires p in {(0, 0), (1, 0), (0, 1), (1, 1)}
    ensures NeighborCount({(0, 0), (1, 0), (0, 1), (1, 1)}, p) == 3
  {
    var block := {(0, 0), (1, 0), (0, 1), (1, 1)};
    assert NeighborSet(block, p) == block - {p};
  }

  /** A two-by-two block of rolls is cleared in a single round. */
  lemma BlockExample()
    ensures Movable({(0, 0), (1, 0), (0, 1), (1, 1)}) == {(0, 0), (1, 0), (0, 1), (1, 1)}
    ensures Settle({(0, 0), (1, 0), (0, 1), (1, 1)}) == {}
  {
    var block := {(0, 0), (1, 0), (0, 1), (1, 1)};
    forall p | p in block ensures p in Movable(block) {
      BlockNeighbors(p);
    }
    assert Erode(block) == {};
    assert Movable({}) == {};
  }

  const EmptyGridMessage := "Input grid is empty"

  function InvalidCharMessage(c: char, x: nat, y: nat): string {
    "Invalid character in grid input: " + [c] + " at " + ShowNat(x) + "," + ShowNat(y)
  }

  predicate ValidCell(c: char) {
    c == '@' || c == '.'
  }

  /** Row y of the text holds '@' in column x. */
  predicate Occupied(lines: seq<string>, q: Position) {
    0 <= q.1 < |lines| && 0 <= q.0 < |lines[q.1]| && lines[q.1][q.0] == '@'
  }

  /** Every character of the row is '@' or '.'. */
  predicate RowValid(line: string) {
    forall i :: 0 <= i < |line| ==> ValidCell(line[i])
  }

  /** Rows 0 to y - 1 hold only '@' and '.'. */
  predicate RowsValid(lines: seq<string>, y: nat)
    requires y <= |lines|
  {
    forall j :: 0 <= j < y ==> RowValid(lines[j])
  }

  /** Every character before row y, column x (row by row) is '@' or '.'. */
  predicate ValidBefore(lines: seq<string>, y: nat, x: nat)
    requires y < |lines| && x <= |lines[y]|
  {
    RowsValid(lines, y) && forall i :: 0 <= i < x ==> ValidCell(lines[y][i])
  }

  /** Every character of every row is '@' or '.'. */
  predicate AllValid(lines: seq<string>) {
    RowsValid(lines, |lines|)
  }

  /** The rows `try_from` reads: the trimmed text split into lines. */
  function GridLines(input: string): seq<string> {
    Lines(Trim(input))
  }

  class Grid {
    var cells: set<Position>
    var width: nat
    var height: nat

    constructor (cells: set<Position>, width: nat, height: nat)
      ensures this.cells == cells && this.width == width && this.height == height
    {
      this.cells := cells;
      this.width := width;
      this.height := height;
    }

    /** `Grid::try_from`: a roll at (x, y) for each '@' of row y, column x, of the
        trimmed text; `.` is an empty cell, any other character is reported at the
        first place it occurs and an empty text is refused. */
    static method TryFrom(input: string) returns (r: Result<Grid>)
      ensures GridLines(input) == [] ==> r == Err(EmptyGridMessage)
      ensures r.Ok? <==> GridLines(input) != [] && AllValid(GridLines(input))
      ensures r.Ok? ==> fresh(r.value)
                        && (forall q :: q in r.value.cells <==> Occupied(GridLines(input), q))
                        && r.value.width == |GridLines(input)[0]| && r.value.height == |GridLines(input)|
      ensures r.Err? && GridLines(input) != []
              ==> exists y, x :: 0 <= y < |GridLines(input)| && 0 <= x < |GridLines(input)[y]|
                                 && ValidBefore(GridLines(input), y, x) && !ValidCell(GridLines(input)[y][x])
                                 && r.error == InvalidCharMessage(GridLines(input)[y][x], x, y)
    {
      var lines := GridLines(input);
      if lines == [] {
        return Err(EmptyGridMessage);
      }
      var scanned := ScanRows(lines);
      if scanned.Err? {
        return Err(scanned.error);
      }
      var grid := new Grid(scanned.value, |lines[0]|, |lines|);
      return Ok(grid);
    }

    /** The outer loop of `try_from`: the rows top to bottom, stopping at the first
        row with a character that is neither '@' nor '.'. */
    static method ScanRows(lines: seq<string>) returns (r: Result<set<Position>>)
      ensures r.Ok? <==> AllValid(lines)
      ensures r.Ok? ==> forall q :: q in r.value <==> Occupied(lines, q)
      ensures r.Err? ==> exists y, x :: 0 <= y < |lines| && 0 <= x < |lines[y]|
                                        && ValidBefore(lines, y, x) && !ValidCell(lines[y][x])
                                        && r.error == InvalidCharMessage(lines[y][x], x, y)
    {
      var cells: set<Position> := {};
      for y := 0 to |lines|
        invariant RowsValid(lines, y)
        invariant forall q :: q in cells <==> Occupied(lines, q) && q.1 < y
      {
        var row := ScanRow(lines, y, cells);
        if row.Err? {
          ghost var x :| 0 <= x < |lines[y]| && ValidBefore(lines, y, x) && !ValidCell(lines[y][x])
                         && row.error == InvalidCharMessage(lines[y][x], x, y);
          return Err(row.error);
        }
        cells := row.value;
      }
      return Ok(cells);
    }

    /** The inner loop of `try_from`: row y, left to right, adding a roll for each
        '@' to the rolls of the rows above and stopping at the first character that
        is neither '@' nor '.'. */
    static method ScanRow(lines: seq<string>, y: nat, cells: set<Position>) returns (r: Result<set<Position>>)
      requires y < |lines|
      requires RowsValid(lines, y)
      requires forall q :: q in cells <==> Occupied(lines, q) && q.1 < y
      ensures r.Ok? <==> RowValid(lines[y])
      ensures r.Ok? ==> forall q :: q in r.value <==> Occupied(lines, q) && q.1 < y + 1
      ensures r.Err? ==> exists x :: 0 <= x < |lines[y]| && ValidBefore(lines, y, x) && !ValidCell(lines[y][x])
                                     && r.error == InvalidCharMessage(lines[y][x], x, y)
    {
      var line := lines[y];
      var found := cells;
      for x := 0 to |line|
        invariant ValidBefore(lines, y, x)
        invariant forall q :: q in found <==> Occupied(lines, q) && (q.1 < y || (q.1 == y && q.0 < x))
      {
        var c := line[x];
        if c == '@' {
          found := found + {(x, y)};
        } else if c != '.' {
          return Err(InvalidCharMessage(c, x, y));
        }
      }
      return Ok(found);
    }

    /** `neighbors`: visits the eight offsets around p, column offset outer and row
        offset inner, and counts the occupied ones. */
    method Neighbors(p: Position) returns (count: nat)
      ensures count == NeighborCount(cells, p)
      ensures count <= 8
    {
      var (x, y) := p;
      count := 0;
      ghost var seen: set<Position> := {};
      for xoff := -1 to 2
        invariant forall q :: q in seen <==> q in cells && Adjacent(p, q) && q.0 - x < xoff
        invariant count == |seen|
      {
        for yoff := -1 to 2
          invariant forall q :: q in seen <==> (q in cells && Adjacent(p, q)
                                                && (q.0 - x < xoff || (q.0 - x == xoff && q.1 - y < yoff)))
          invariant count == |seen|
        {
          if xoff == 0 && yoff == 0 {
            continue;
          }
          var pos := (x + xoff, y + yoff);
          if pos in cells {
            seen := seen + {pos};
            count := count + 1;
          }
        }
      }
      assert seen == NeighborSet(cells, p);
      NeighborCountBound(cells, p);
    }

    /** `count_moveable`: the number of rolls with fewer than four neighbours; it is
        0 exactly when the grid is stable. */
    function CountMovable(): (n: nat)
      reads this
      ensures n <= |cells|
      ensures n == 0 <==> Stable(cells)
    {
      SubsetCard(Movable(cells), cells);
      StableIffNoneMovable(cells);
      |Movable(cells)|
    }

    /** The filter shared by `count_moveable` and `remove_moveable`: visits every
        roll once, in no particular order, keeping those `neighbors` puts below
        four. */
    method MovableCells() returns (found: set<Position>)
      ensures found == Movable(cells)
    {
      var pending := cells;
      found := {};
      while pending != {}
        invariant pending <= cells
        invariant forall q :: q in found <==> q in cells - pending && NeighborCount(cells, q) < 4
        decreases |pending|
      {
        var pos :| pos in pending;
        var n := Neighbors(pos);
        if n < 4 {
          found := found + {pos};
        }
        pending := pending - {pos};
      }
    }

    /** `remove_moveable`: collects the movable rolls, judged on the grid as it was
        before any of them is taken, then takes them all away; returns how many. */
    method RemoveMovable() returns (total: nat)
      modifies this
      ensures cells == Erode(old(cells))
      ensures total == |Movable(old(cells))| == old(CountMovable())
      ensures total == |old(cells)| - |cells|
      ensures width == old(width) && height == old(height)
    {
      var toRemove := MovableCells();
      total := |toRemove|;
      var rest := toRemove;
      while rest != {}
        invariant rest <= toRemove
        invariant forall q :: q in cells <==> q in old(cells) && (q !in toRemove || q in rest)
        invariant width == old(width) && height == old(height)
        decreases |rest|
      {
        var pos :| pos in rest;
        cells := cells - {pos};
        rest := rest - {pos};
      }
      assert cells == old(cells) - toRemove;
      DifferenceCard(old(cells), toRemove);
    }

    /** `cleanup`: removes movable rolls round after round until a round removes
        none; returns the total removed. */
    method Cleanup() returns (totalRemoved: nat)
      modifies this
      ensures cells == Settle(old(cells))
      ensures totalRemoved == |old(cells)| - |cells|
      ensures Stable(cells) && CountMovable() == 0
      ensures width == old(width) && height == old(height)
    {
      totalRemoved := 0;
      while true
        invariant Settle(cells) == Settle(old(cells))
        invariant cells <= old(cells)
        invariant totalRemoved == |old(cells)| - |cells|
        invariant width == old(width) && height == old(height)
        decreases |cells|
      {
        ghost var before := cells;
        var removed := RemoveMovable();
        ErodeStep(before);
        if removed == 0 {
          break;
        }
        totalRemoved := totalRemoved + removed;
      }
      SettleIsStable(cells);
    }
  }
}
