/** Grid topology of the crossword (csp/app.py): the occupancy matrix, the
    slots (maximal runs of fillable cells, across or down) and the overlap
    map between every ordered pair of distinct slots. */
module Grid {
  import opened Collections

  datatype Direction = Across | Down

  /** A (row, column) position; rows and columns may step off the grid. */
  type Cell = (int, int)

  /** A slot: its start, its direction, its length and its cells in order
      (the `GridCoordinate` object and its `grid` list). */
  datatype GridCoordinate = GridCoordinate(row: nat, column: nat, move: Direction, length: nat, grid: seq<Cell>)

  /** The k-th cell of a run that starts at (row, column) and goes `move`. */
  function CellAt(row: int, column: int, move: Direction, k: int): Cell
  {
    (row + (if move == Down then k else 0), column + (if move == Across then k else 0))
  }

  /** The cell list of `g` is the run its start, direction and length describe. */
  predicate WellFormed(g: GridCoordinate)
  {
    && |g.grid| == g.length
    && forall k :: 0 <= k < g.length ==> g.grid[k] == CellAt(g.row, g.column, g.move, k)
  }

  /** `GridCoordinate.__init__`: builds the cell list one cell at a time. */
  method NewGridCoordinate(row: nat, column: nat, move: Direction, length: nat) returns (g: GridCoordinate)
    ensures g.row == row && g.column == column && g.move == move && g.length == length
    ensures |g.grid| == length
    ensures forall k :: 0 <= k < length ==> g.grid[k] == CellAt(row, column, move, k)
  {
    var cells: seq<Cell> := [];
    var k := 0;
    while k < length
      invariant 0 <= k <= length && |cells| == k
      invariant forall t :: 0 <= t < k ==> cells[t] == CellAt(row, column, move, t)
    {
      cells := cells + [CellAt(row, column, move, k)];
      k := k + 1;
    }
    g := GridCoordinate(row, column, move, length, cells);
  }

  /** Distinct positions along a slot are distinct cells. */
  lemma CellsDistinct(g: GridCoordinate, k: int, l: int)
    requires WellFormed(g) && 0 <= k < g.length && 0 <= l < g.length
    requires g.grid[k] == g.grid[l]
    ensures k == l
  {
  }

  // ---------------------------------------------------------------------
  // The occupancy matrix

  /** Every row of `d` has `width` cells and there are `height` rows. */
  predicate Shaped(d: seq<seq<bool>>, height: nat, width: nat)
  {
    |d| == height && forall i :: 0 <= i < height ==> |d[i]| == width
  }

  /** The matrix `construct_domains` builds from the parsed rows: a cell is
      fillable when its row has a token there and the token is not "X". */
  function Occupancy(grid: seq<seq<string>>, height: nat, width: nat): (d: seq<seq<bool>>)
    requires height <= |grid|
    ensures Shaped(d, height, width)
  {
    seq(height, i requires 0 <= i < height => seq(width, j requires 0 <= j < width => j < |grid[i]| && grid[i][j] != "X"))
  }

  /** A cell inside the grid that is fillable; cells off the grid are not. */
  predicate Open(d: seq<seq<bool>>, height: nat, width: nat, c: Cell)
    requires Shaped(d, height, width)
  {
    0 <= c.0 < height && 0 <= c.1 < width && d[c.0][c.1]
  }

  /** `s` is a slot of the grid: a run of at least two fillable cells whose
      predecessor and successor in its direction are blocked or off the grid. */
  predicate IsSlot(d: seq<seq<bool>>, height: nat, width: nat, s: GridCoordinate)
    requires Shaped(d, height, width)
  {
    && WellFormed(s)
    && s.length >= 2
    && !Open(d, height, width, CellAt(s.row, s.column, s.move, -1))
    && (forall k :: 0 <= k < s.length ==> Open(d, height, width, CellAt(s.row, s.column, s.move, k)))
    && !Open(d, height, width, CellAt(s.row, s.column, s.move, s.length))
  }

  /** The number of consecutive fillable cells from a fillable start
      (the `max_vertical_length` / `max_across_length` loops). */
  method RunLength(d: seq<seq<bool>>, height: nat, width: nat, row: nat, column: nat, move: Direction)
    returns (n: nat)
    requires Shaped(d, height, width) && Open(d, height, width, (row, column))
    ensures n >= 1
    ensures forall k :: 0 <= k < n ==> Open(d, height, width, CellAt(row, column, move, k))
    ensures !Open(d, height, width, CellAt(row, column, move, n))
  {
    var limit := if move == Down then height - row else width - column;
    n := 1;
    while n < limit && Open(d, height, width, CellAt(row, column, move, n))
      invariant 1 <= n <= limit
      invariant forall k :: 0 <= k < n ==> Open(d, height, width, CellAt(row, column, move, k))
      decreases limit - n
    {
      n := n + 1;
    }
  }

  /** Two runs from the same start that each end at the first closed cell
      have the same length. */
  lemma RunIsUnique(d: seq<seq<bool>>, height: nat, width: nat, row: int, column: int, move: Direction, a: int, b: int)
    requires Shaped(d, height, width) && 0 <= a && 0 <= b
    requires forall k :: 0 <= k < a ==> Open(d, height, width, CellAt(row, column, move, k))
    requires !Open(d, height, width, CellAt(row, column, move, a))
    requires forall k :: 0 <= k < b ==> Open(d, height, width, CellAt(row, column, move, k))
    requires !Open(d, height, width, CellAt(row, column, move, b))
    ensures a == b
  {
  }

  /** The slot, if any, that starts at (row, column) and goes `move`: the
      body of `construct_all_variables` for one cell and one direction. */
  method SlotStartingAt(d: seq<seq<bool>>, height: nat, width: nat, row: nat, column: nat, move: Direction)
    returns (found: Option<GridCoordinate>)
    requires Shaped(d, height, width) && row < height && column < width
    ensures found.Some? ==> IsSlot(d, height, width, found.value)
    ensures found.Some? ==> found.value.row == row && found.value.column == column && found.value.move == move
    ensures forall s :: IsSlot(d, height, width, s) && s.row == row && s.column == column && s.move == move
              ==> found == Some(s)
  {
    found := None;
    var starts := if move == Down then d[row][column] && (row == 0 || !d[row - 1][column])
                  else d[row][column] && (column == 0 || !d[row][column - 1]);
    assert starts <==> Open(d, height, width, (row, column)) && !Open(d, height, width, CellAt(row, column, move, -1));
    var n := 0;
    if starts {
      n := RunLength(d, height, width, row, column, move);
      if n > 1 {
        var g := NewGridCoordinate(row, column, move, n);
        found := Some(g);
      }
    }
    forall s | IsSlot(d, height, width, s) && s.row == row && s.column == column && s.move == move
      ensures found == Some(s)
    {
      assert Open(d, height, width, CellAt(row, column, move, 0));
      RunIsUnique(d, height, width, row, column, move, n, s.length);
      assert s.grid == found.value.grid;
    }
  }

  /** A slot starts inside the grid. */
  lemma SlotStartsInGrid(d: seq<seq<bool>>, height: nat, width: nat, s: GridCoordinate)
    requires Shaped(d, height, width) && IsSlot(d, height, width, s)
    ensures s.row < height && s.column < width
  {
    assert Open(d, height, width, CellAt(s.row, s.column, s.move, 0));
  }

  // ---------------------------------------------------------------------
  // Overlaps

  /** `list.index`: the first position of `c` in `s`. */
  function IndexOf(s: seq<Cell>, c: Cell): (r: nat)
    requires c in s
    ensures r < |s| && s[r] == c
    ensures forall k :: 0 <= k < r ==> s[k] != c
  {
    if s[0] == c then 0 else 1 + IndexOf(s[1..], c)
  }

  /** What the overlap map may hold for the ordered pair (a, b): nothing when
      the cell lists are disjoint, otherwise the first positions of one
      shared cell in each list. */
  predicate ValidEntry(a: GridCoordinate, b: GridCoordinate, e: Option<(nat, nat)>)
  {
    match e
    case None =>
      forall k, l :: 0 <= k < |a.grid| && 0 <= l < |b.grid| ==> a.grid[k] != b.grid[l]
    case Some(ix) =>
      && ix.0 < |a.grid| && ix.1 < |b.grid|
      && a.grid[ix.0] == b.grid[ix.1]
      && (forall k :: 0 <= k < ix.0 ==> a.grid[k] != a.grid[ix.0])
      && (forall l :: 0 <= l < ix.1 ==> b.grid[l] != b.grid[ix.1])
  }

  /** One entry of `construct_overlapping_words`: the cell sets are
      intersected and, when the intersection is not empty, an arbitrary
      element of it is popped and located in both lists. */
  method OverlapOf(a: GridCoordinate, b: GridCoordinate) returns (e: Option<(nat, nat)>)
    ensures ValidEntry(a, b, e)
  {
    var shared := (set c | c in a.grid) * (set c | c in b.grid);
    if shared == {} {
      e := None;
      forall k, l | 0 <= k < |a.grid| && 0 <= l < |b.grid| ensures a.grid[k] != b.grid[l] {
        assert a.grid[k] in shared || a.grid[k] != b.grid[l];
      }
    } else {
      var c :| c in shared;
      e := Some((IndexOf(a.grid, c), IndexOf(b.grid, c)));
    }
  }

  /** The overlap map has an entry exactly for every ordered pair of distinct
      slots, and each entry is valid. */
  ghost predicate OverlapMap(variables: set<GridCoordinate>, intersects: map<(GridCoordinate, GridCoordinate), Option<(nat, nat)>>)
  {
    && (forall a, b :: (a, b) in intersects <==> a in variables && b in variables && a != b)
    && (forall a, b :: (a, b) in intersects ==> ValidEntry(a, b, intersects[(a, b)]))
  }

  /** `get_neighbors`: the other slots whose overlap entry is a pair. */
  function Neighbors(variables: set<GridCoordinate>, intersects: map<(GridCoordinate, GridCoordinate), Option<(nat, nat)>>,
                     v: GridCoordinate): (r: set<GridCoordinate>)
    requires forall u :: u in variables && u != v ==> (v, u) in intersects
    ensures r <= variables && v !in r
  {
    set u | u in variables && u != v && intersects[(v, u)].Some?
  }

  /** Being neighbours is symmetric, because an entry is empty exactly when
      the two cell lists are disjoint. */
  lemma NeighborsSymmetric(variables: set<GridCoordinate>, intersects: map<(GridCoordinate, GridCoordinate), Option<(nat, nat)>>,
                           u: GridCoordinate, v: GridCoordinate)
    requires OverlapMap(variables, intersects) && u in variables && v in variables
    ensures u in Neighbors(variables, intersects, v) <==> v in Neighbors(variables, intersects, u)
  {
    if u != v {
      var e1, e2 := intersects[(v, u)], intersects[(u, v)];
      assert ValidEntry(v, u, e1) && ValidEntry(u, v, e2);
    }
  }

  /** A cell of a slot is fillable, so a run whose predecessor is that cell
      has a fillable predecessor. */
  lemma PredecessorInsideRun(d: seq<seq<bool>>, height: nat, width: nat, a: GridCoordinate, b: GridCoordinate, m: int)
    requires Shaped(d, height, width) && IsSlot(d, height, width, a)
    requires 0 <= m < a.length && CellAt(a.row, a.column, a.move, m) == CellAt(b.row, b.column, b.move, -1)
    ensures Open(d, height, width, CellAt(b.row, b.column, b.move, -1))
  {
  }

  /** Two distinct slots that run the same way share no cell: otherwise one
      would start inside the other, or they would start together and, being
      maximal, coincide. */
  lemma SameDirectionDisjoint(d: seq<seq<bool>>, height: nat, width: nat, a: GridCoordinate, b: GridCoordinate, k: int, l: int)
    requires Shaped(d, height, width) && IsSlot(d, height, width, a) && IsSlot(d, height, width, b)
    requires a.move == b.move && 0 <= k < a.length && 0 <= l < b.length && a.grid[k] == b.grid[l]
    ensures a == b
  {
    var step := if a.move == Down then (a.row, b.row) else (a.column, b.column);
    if step.0 < step.1 {
      PredecessorInsideRun(d, height, width, a, b, step.1 - 1 - step.0);
    } else if step.1 < step.0 {
      PredecessorInsideRun(d, height, width, b, a, step.0 - 1 - step.1);
    } else {
      assert a.row == b.row && a.column == b.column;
      RunIsUnique(d, height, width, a.row, a.column, a.move, a.length, b.length);
      assert a.grid == b.grid;
    }
  }

  /** Two distinct slots of a grid share at most one cell. */
  lemma AtMostOneSharedCell(d: seq<seq<bool>>, height: nat, width: nat, a: GridCoordinate, b: GridCoordinate,
                            k1: int, l1: int, k2: int, l2: int)
    requires Shaped(d, height, width) && IsSlot(d, height, width, a) && IsSlot(d, height, width, b) && a != b
    requires 0 <= k1 < a.length && 0 <= l1 < b.length && a.grid[k1] == b.grid[l1]
    requires 0 <= k2 < a.length && 0 <= l2 < b.length && a.grid[k2] == b.grid[l2]
    ensures k1 == k2 && l1 == l2
  {
    if a.move == b.move {
      SameDirectionDisjoint(d, height, width, a, b, k1, l1);
    }
  }

  /** The entry for (b, a) is the entry for (a, b) with its offsets swapped. */
  function Swap(e: Option<(nat, nat)>): Option<(nat, nat)>
  {
    match e
    case None => None
    case Some(ix) => Some((ix.1, ix.0))
  }

  lemma EntrySwap(d: seq<seq<bool>>, height: nat, width: nat, a: GridCoordinate, b: GridCoordinate,
                  e1: Option<(nat, nat)>, e2: Option<(nat, nat)>)
    requires Shaped(d, height, width) && IsSlot(d, height, width, a) && IsSlot(d, height, width, b) && a != b
    requires ValidEntry(a, b, e1) && ValidEntry(b, a, e2)
    ensures e2 == Swap(e1)
  {
    match e1
    case None =>
      if e2.Some? {
        assert false;
      }
    case Some(ix) =>
      if e2.None? {
        assert false;
      } else {
        var jx := e2.value;
        AtMostOneSharedCell(d, height, width, a, b, ix.0, ix.1, jx.1, jx.0);
      }
  }

  /** On the slots of a grid the overlap map is symmetric: (b, a) holds the
      swapped pair of (a, b), and both are empty together. */
  lemma OverlapSymmetric(d: seq<seq<bool>>, height: nat, width: nat, variables: set<GridCoordinate>,
                         intersects: map<(GridCoordinate, GridCoordinate), Option<(nat, nat)>>)
    requires Shaped(d, height, width) && OverlapMap(variables, intersects)
    requires forall s :: s in variables ==> IsSlot(d, height, width, s)
    ensures forall a, b :: (a, b) in intersects ==> (b, a) in intersects && intersects[(b, a)] == Swap(intersects[(a, b)])
  {
    forall a, b | (a, b) in intersects
      ensures (b, a) in intersects && intersects[(b, a)] == Swap(intersects[(a, b)])
    {
      EntrySwap(d, height, width, a, b, intersects[(a, b)], intersects[(b, a)]);
    }
  }

  // ---------------------------------------------------------------------
  // The grid object

  /** `CrosswordGrid`: the parsed grid, the word set, the grid's size (the
      module globals `GRID_HEIGHT` and `GRID_WIDTH`), and the three tables
      the `construct_*` methods fill. */
  class CrosswordGrid {
    const grid: seq<seq<string>>
    const words: set<string>
    const height: nat
    const width: nat
    var domain: seq<seq<bool>>
    var variables: set<GridCoordinate>
    var intersects: map<(GridCoordinate, GridCoordinate), Option<(nat, nat)>>

    constructor (grid: seq<seq<string>>, words: set<string>)
      requires |grid| > 0
      ensures this.grid == grid && this.words == words
      ensures height == |grid| && width == |grid[0]|
      ensures domain == [] && variables == {} && intersects == map[]
    {
      this.grid := grid;
      this.words := words;
      height := |grid|;
      width := |grid[0]|;
      domain := [];
      variables := {};
      intersects := map[];
    }

    /** `construct_domains`: appends one row of the occupancy matrix per grid row. */
    method ConstructDomains(grid: seq<seq<string>>)
      requires height <= |grid|
      modifies this`domain
      ensures domain == old(domain) + Occupancy(grid, height, width)
    {
      var i := 0;
      while i < height
        invariant 0 <= i <= height
        invariant domain == old(domain) + Occupancy(grid, height, width)[..i]
      {
        var row: seq<bool> := [];
        var j := 0;
        while j < width
          invariant 0 <= j <= width && |row| == j
          invariant forall t :: 0 <= t < j ==> row[t] == (t < |grid[i]| && grid[i][t] != "X")
        {
          if j >= |grid[i]| {
            row := row + [false];
          } else if grid[i][j] != "X" {
            row := row + [true];
          } else {
            row := row + [false];
          }
          j := j + 1;
        }
        assert row == Occupancy(grid, height, width)[i];
        assert Occupancy(grid, height, width)[..i + 1] == Occupancy(grid, height, width)[..i] + [row];
        domain := domain + [row];
        i := i + 1;
      }
      assert Occupancy(grid, height, width)[..height] == Occupancy(grid, height, width);
    }

    /** `construct_all_variables`: scans the grid row by row and adds every
        slot, down and across, that starts at each cell. */
    method ConstructAllVariables()
      requires Shaped(domain, height, width)
      modifies this`variables
      ensures forall s :: s in variables <==> s in old(variables) || IsSlot(domain, height, width, s)
    {
      var i := 0;
      while i < height
        invariant 0 <= i <= height
        invariant forall s :: s in variables <==> s in old(variables) || (IsSlot(domain, height, width, s) && s.row < i)
      {
        var j := 0;
        while j < width
          invariant 0 <= j <= width
          invariant forall s :: s in variables <==>
                      (s in old(variables) || (IsSlot(domain, height, width, s) && (s.row < i || (s.row == i && s.column < j))))
        {
          forall s | IsSlot(domain, height, width, s) && s.row == i && s.column == j
            ensures s.move == Down || s.move == Across
          {
          }
          var down := SlotStartingAt(domain, height, width, i, j, Down);
          if down.Some? {
            variables := variables + {down.value};
          }
          var across := SlotStartingAt(domain, height, width, i, j, Across);
          if across.Some? {
            variables := variables + {across.value};
          }
          j := j + 1;
        }
        forall s | IsSlot(domain, height, width, s) && s.row == i
          ensures s.column < width
        {
          SlotStartsInGrid(domain, height, width, s);
        }
        i := i + 1;
      }
      forall s | IsSlot(domain, height, width, s)
        ensures s.row < height
      {
        SlotStartsInGrid(domain, height, width, s);
      }
    }

    /** `construct_overlapping_words`: an entry for every ordered pair of
        distinct slots. */
    method ConstructOverlappingWords()
      modifies this`intersects
      ensures forall a, b :: (a, b) in intersects <==>
                (a, b) in old(intersects) || (a in variables && b in variables && a != b)
      ensures forall a, b :: a in variables && b in variables && a != b ==> ValidEntry(a, b, intersects[(a, b)])
      ensures forall a, b :: (a, b) in old(intersects) && !(a in variables && b in variables && a != b) ==>
                intersects[(a, b)] == old(intersects)[(a, b)]
      ensures old(intersects) == map[] ==> OverlapMap(variables, intersects)
    {
      var firsts := variables;
      while firsts != {}
        invariant firsts <= variables
        invariant forall a, b :: (a, b) in intersects <==>
                    (a, b) in old(intersects) || (a in variables && a !in firsts && b in variables && a != b)
        invariant forall a, b :: a in variables && a !in firsts && b in variables && a != b ==>
                    ValidEntry(a, b, intersects[(a, b)])
        invariant forall a, b :: (a, b) in old(intersects) && !(a in variables && a !in firsts && b in variables && a != b) ==>
                    intersects[(a, b)] == old(intersects)[(a, b)]
        decreases firsts
      {
        var a :| a in firsts;
        var seconds := variables;
        while seconds != {}
          invariant seconds <= variables
          invariant forall x, b :: (x, b) in intersects <==>
                      (x, b) in old(intersects) || (x in variables && x !in firsts && b in variables && x != b)
                      || (x == a && b in variables && b !in seconds && a != b)
          invariant forall x, b ::
                      (x in variables && b in variables && x != b && (x !in firsts || (x == a && b !in seconds)))
                      ==> ValidEntry(x, b, intersects[(x, b)])
          invariant forall x, b ::
                      ((x, b) in old(intersects) &&
                       !((x in variables && x !in firsts && b in variables && x != b) || (x == a && b in variables && b !in seconds && a != b)))
                      ==> intersects[(x, b)] == old(intersects)[(x, b)]
          decreases seconds
        {
          var b :| b in seconds;
          if a != b {
            var e := OverlapOf(a, b);
            intersects := intersects[(a, b) := e];
          }
          seconds := seconds - {b};
        }
        firsts := firsts - {a};
      }
    }
  }
}
