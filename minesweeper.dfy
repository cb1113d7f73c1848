/**
  The Minesweeper engine (games/minesweeper.py): a rows × cols grid, the set of
  mines, the set of opened cells and the set of flagged cells, with the
  flood-fill reveal, flag toggling, the win test and the start of a new game.
  The tkinter buttons are reduced to the set of cells that have one.
 */
module Minesweeper {
  import opened Wrappers

  /** A (row, column) coordinate, as the source's tuple keys. */
  type Cell = (int, int)

  predicate InGrid(rows: int, cols: int, p: Cell) {
    0 <= p.0 < rows && 0 <= p.1 < cols
  }

  /** Every cell of a rows × cols grid. */
  function Grid(rows: int, cols: int): set<Cell> {
    set i, j | 0 <= i < rows && 0 <= j < cols :: (i, j)
  }

  /** The cells of row i, columns 0 .. cols - 1. */
  function RowCells(i: int, cols: int): set<Cell> {
    set j | 0 <= j < cols :: (i, j)
  }

  lemma {:induction false} RowSize(i: int, cols: nat)
    ensures |RowCells(i, cols)| == cols
  {
    if cols == 0 {
      assert RowCells(i, 0) == {};
    } else {
      RowSize(i, cols - 1);
      assert RowCells(i, cols) == RowCells(i, cols - 1) + {(i, cols - 1)};
    }
  }

  lemma MulStep(rows: int, cols: int)
    ensures (rows - 1) * cols + cols == rows * cols
  {
  }

  /** The grid has exactly rows * cols cells: the number the win test compares with. */
  lemma {:induction false} GridSize(rows: nat, cols: nat)
    ensures |Grid(rows, cols)| == rows * cols
  {
    if rows == 0 {
      assert Grid(0, cols) == {};
    } else {
      var above, last := Grid(rows - 1, cols), RowCells(rows - 1, cols);
      GridSize(rows - 1, cols);
      RowSize(rows - 1, cols);
      assert Grid(rows, cols) == above + last;
      assert |above + last| == |above| + |last|;
      MulStep(rows, cols);
    }
  }

  /** 1 when (i, j) is an in-bounds mine, else 0: one term of the generator sum. */
  function MineAt(rows: int, cols: int, mines: set<Cell>, i: int, j: int): nat {
    if 0 <= i < rows && 0 <= j < cols && (i, j) in mines then 1 else 0
  }

  /** No cell of the 3 × 3 window around (r, c), clipped to the grid, holds a mine. */
  predicate NoMineNear(rows: int, cols: int, mines: set<Cell>, r: int, c: int) {
    forall i, j :: r - 1 <= i <= r + 1 && c - 1 <= j <= c + 1 && 0 <= i < rows && 0 <= j < cols ==> (i, j) !in mines
  }

  /**
    count_mines_around: the number of mines in the 3 × 3 window centred on
    (r, c), clipped to the grid, summed in the source's row-major order.
   */
  function CountMinesAround(rows: int, cols: int, mines: set<Cell>, r: int, c: int): (n: nat)
    ensures n <= 9
    ensures InGrid(rows, cols, (r, c)) && (r, c) !in mines ==> n <= 8
    ensures InGrid(rows, cols, (r, c)) && (r, c) in mines ==> n >= 1
    ensures n == 0 <==> NoMineNear(rows, cols, mines, r, c)
  {
    MineAt(rows, cols, mines, r - 1, c - 1) + MineAt(rows, cols, mines, r - 1, c) + MineAt(rows, cols, mines, r - 1, c + 1) +
    MineAt(rows, cols, mines, r, c - 1)     + MineAt(rows, cols, mines, r, c)     + MineAt(rows, cols, mines, r, c + 1) +
    MineAt(rows, cols, mines, r + 1, c - 1) + MineAt(rows, cols, mines, r + 1, c) + MineAt(rows, cols, mines, r + 1, c + 1)
  }

  /** The mines that lie in the 3 × 3 window around (r, c), clipped to the grid. */
  function WindowMines(rows: int, cols: int, mines: set<Cell>, r: int, c: int): set<Cell>
  {
    set a, b | r - 1 <= a <= r + 1 && c - 1 <= b <= c + 1 && 0 <= a < rows && 0 <= b < cols && (a, b) in mines :: (a, b)
  }

  /** The mines of row i of the window around column c, clipped to the grid. */
  function RowMines(rows: int, cols: int, mines: set<Cell>, i: int, c: int): set<Cell>
  {
    set b | c - 1 <= b <= c + 1 && 0 <= i < rows && 0 <= b < cols && (i, b) in mines :: (i, b)
  }

  /** A row of the window holds as many mines as its three MineAt terms add up to. */
  lemma RowMinesSize(rows: int, cols: int, mines: set<Cell>, i: int, c: int)
    ensures |RowMines(rows, cols, mines, i, c)| ==
            MineAt(rows, cols, mines, i, c - 1) + MineAt(rows, cols, mines, i, c) + MineAt(rows, cols, mines, i, c + 1)
  {
    var h0 := if MineAt(rows, cols, mines, i, c - 1) == 1 then {(i, c - 1)} else {};
    var h1 := if MineAt(rows, cols, mines, i, c) == 1 then {(i, c)} else {};
    var h2 := if MineAt(rows, cols, mines, i, c + 1) == 1 then {(i, c + 1)} else {};
    assert RowMines(rows, cols, mines, i, c) == h0 + h1 + h2;
    assert h0 !! h1 && (h0 + h1) !! h2;
  }

  /** The window's mines are the mines of its three rows. */
  lemma WindowByRows(rows: int, cols: int, mines: set<Cell>, r: int, c: int)
    ensures WindowMines(rows, cols, mines, r, c) ==
            RowMines(rows, cols, mines, r - 1, c) + RowMines(rows, cols, mines, r, c) + RowMines(rows, cols, mines, r + 1, c)
  {
  }

  /** count_mines_around is the number of mines in the clipped 3 × 3 window. */
  lemma {:induction false} CountIsWindowMines(rows: int, cols: int, mines: set<Cell>, r: int, c: int)
    ensures CountMinesAround(rows, cols, mines, r, c) == |WindowMines(rows, cols, mines, r, c)|
  {
    var top, mid, bot := RowMines(rows, cols, mines, r - 1, c), RowMines(rows, cols, mines, r, c), RowMines(rows, cols, mines, r + 1, c);
    RowMinesSize(rows, cols, mines, r - 1, c);
    RowMinesSize(rows, cols, mines, r, c);
    RowMinesSize(rows, cols, mines, r + 1, c);
    WindowByRows(rows, cols, mines, r, c);
    assert top !! mid && (top + mid) !! bot;
  }

  /**
    Every in-bounds, unflagged cell of the window around (r, c) that comes
    before (i, j) in the row-major visiting order is opened.
   */
  ghost predicate OpenedBefore(rows: int, cols: int, flags: set<Cell>, openedCells: set<Cell>, r: int, c: int, i: int, j: int) {
    forall a, b ::
      (r - 1 <= a <= r + 1 && c - 1 <= b <= c + 1 && (a < i || (a == i && b < j)) &&
       0 <= a < rows && 0 <= b < cols && (a, b) !in flags) ==> (a, b) in openedCells
  }

  /** Every in-bounds, unflagged neighbour of p (p included) is opened: the flood fill has passed p. */
  ghost predicate Expanded(rows: int, cols: int, flags: set<Cell>, openedCells: set<Cell>, p: Cell) {
    OpenedBefore(rows, cols, flags, openedCells, p.0, p.1, p.0 + 2, p.1 - 1)
  }

  /** Opening more cells never undoes the progress of a flood fill. */
  lemma OpenedBeforeGrows(rows: int, cols: int, flags: set<Cell>, o1: set<Cell>, o2: set<Cell>, r: int, c: int, i: int, j: int)
    requires o1 <= o2
    requires OpenedBefore(rows, cols, flags, o1, r, c, i, j)
    ensures OpenedBefore(rows, cols, flags, o2, r, c, i, j)
  {
  }

  /** p and q are at Chebyshev distance at most 1 (p may be q). */
  predicate Near(p: Cell, q: Cell) {
    -1 <= p.0 - q.0 <= 1 && -1 <= p.1 - q.1 <= 1
  }

  /**
    The order in which a flood fill opens cells: every cell after the first
    lies next to an earlier one whose count is zero, so each opened cell is
    joined to the first through opened zero-count cells.
   */
  ghost predicate FloodOrder(rows: int, cols: int, mines: set<Cell>, trail: seq<Cell>) {
    forall k :: 0 < k < |trail| ==> JoinedAt(rows, cols, mines, trail, k)
  }

  /** Cell k of the trail lies next to an earlier cell whose count is zero. */
  ghost predicate JoinedAt(rows: int, cols: int, mines: set<Cell>, trail: seq<Cell>, k: int)
    requires 0 <= k < |trail|
  {
    exists m :: 0 <= m < k && Near(trail[m], trail[k]) && CountMinesAround(rows, cols, mines, trail[m].0, trail[m].1) == 0
  }

  /** The cells listed in a trail. */
  function Elems(trail: seq<Cell>): set<Cell>
  {
    set p | p in trail
  }

  lemma ElemsAppend(t1: seq<Cell>, t2: seq<Cell>)
    ensures Elems(t1 + t2) == Elems(t1) + Elems(t2)
  {
  }

  /** Cells opened in two stretches, each within the allowed set, are within it together. */
  lemma NewCellsStep(o0: set<Cell>, before: set<Cell>, now: set<Cell>, allowed: set<Cell>)
    requires o0 <= before <= now
    requires before - o0 <= allowed && now - before <= allowed
    ensures now - o0 <= allowed
  {
    forall p | p in now - o0
      ensures p in allowed
    {
      if p in before {
        assert p in before - o0;
      } else {
        assert p in now - before;
      }
    }
  }

  /** Appending the trail of a nested call keeps the trail equal to the cells opened so far. */
  lemma TrailStep(acc: seq<Cell>, trail: seq<Cell>, sub: seq<Cell>, o0: set<Cell>, before: set<Cell>, now: set<Cell>)
    requires o0 <= before <= now
    requires Elems(trail) == Elems(acc) + (before - o0) && Elems(sub) == now - before
    ensures Elems(trail + sub) == Elems(acc) + (now - o0)
  {
    ElemsAppend(trail, sub);
  }

  /** A flood from a zero-count cell followed by a flood started next to it is again a flood order. */
  lemma FloodOrderAppend(rows: int, cols: int, mines: set<Cell>, t1: seq<Cell>, t2: seq<Cell>)
    requires FloodOrder(rows, cols, mines, t1) && FloodOrder(rows, cols, mines, t2)
    requires |t1| > 0 && CountMinesAround(rows, cols, mines, t1[0].0, t1[0].1) == 0
    requires |t2| > 0 ==> Near(t1[0], t2[0])
    ensures FloodOrder(rows, cols, mines, t1 + t2)
  {
    var t := t1 + t2;
    forall k | 0 < k < |t|
      ensures JoinedAt(rows, cols, mines, t, k)
    {
      if k < |t1| {
        assert JoinedAt(rows, cols, mines, t1, k);
        var m :| 0 <= m < k && Near(t1[m], t1[k]) && CountMinesAround(rows, cols, mines, t1[m].0, t1[m].1) == 0;
        assert t[m] == t1[m] && t[k] == t1[k];
        assert 0 <= m < k && Near(t[m], t[k]);
      } else if k == |t1| {
        assert t[0] == t1[0] && t[k] == t2[0];
        assert 0 <= 0 < k && Near(t[0], t[k]);
      } else {
        assert JoinedAt(rows, cols, mines, t2, k - |t1|);
        var m :| 0 <= m < k - |t1| && Near(t2[m], t2[k - |t1|]) && CountMinesAround(rows, cols, mines, t2[m].0, t2[m].1) == 0;
        assert t[|t1| + m] == t2[m] && t[k] == t2[k - |t1|];
        assert 0 <= |t1| + m < k && Near(t[|t1| + m], t[k]);
      }
    }
  }

  /** What happened to the cell that open_cell was called on. */
  datatype Reveal =
    | Ignored   // already opened or flagged: nothing happens
    | Exploded  // a mine: the board is revealed, nothing is opened
    | Revealed  // opened (and, on a zero count, flooded)
    | Raised    // a cell without a button was reached: KeyError aborts the call

  /** The outcome of new_game. */
  datatype Start =
    | Started       // a fresh game is set up
    | BadValues     // an entry is not an integer, or one of the values is not positive
    | TooManyMines  // mine_count >= rows * cols

  /** The values new_game accepts. */
  predicate Accepts(rows: int, cols: int, mineCount: int) {
    rows > 0 && cols > 0 && mineCount > 0 && mineCount < rows * cols
  }

  /** The distinct cells of a sequence of random draws. */
  function Drawn(draws: seq<Cell>): set<Cell> {
    set k | 0 <= k < |draws| :: draws[k]
  }

  class Game {
    var rows: int
    var cols: int
    var mineCount: int
    var mines: set<Cell>
    var openedCells: set<Cell>
    var flags: set<Cell>
    /** The keys of the source's button dictionary: the cells that have a button. */
    var buttons: set<Cell>

    /** No opened cell is a mine or carries a flag. */
    ghost predicate Valid()
      reads this
    {
      openedCells !! mines && openedCells !! flags
    }

    /**
      The buttons match the grid dimensions and every set lies inside the grid.
      A successful new_game establishes it; a rejected one, which may already
      have overwritten rows and cols, can break it.
     */
    ghost predicate Consistent()
      reads this
    {
      rows >= 0 && cols >= 0 && buttons == Grid(rows, cols) &&
      mines <= buttons && openedCells <= buttons && flags <= buttons && |mines| == mineCount
    }

    /** The state of a freshly constructed panel when no saved game exists. */
    constructor ()
      ensures Valid() && Consistent()
      ensures rows == 0 && cols == 0 && mineCount == 0
      ensures mines == {} && openedCells == {} && flags == {} && buttons == {}
    {
      rows, cols, mineCount := 0, 0, 0;
      mines, openedCells, flags := {}, {}, {};
      buttons := {};
      assert Grid(0, 0) == {};
    }

    /** check_win: the number of opened cells plus the number of mines equals the number of cells. */
    predicate CheckWin()
      reads this
    {
      |openedCells| + |mines| == rows * cols
    }

    /** On a consistent board the win test holds exactly when every safe cell is opened. */
    lemma WinMeansAllSafeCellsOpened()
      requires Valid() && Consistent()
      ensures CheckWin() <==> openedCells + mines == Grid(rows, cols)
    {
      var g := Grid(rows, cols);
      GridSize(rows, cols);
      assert |openedCells + mines| == |openedCells| + |mines|;
      if CheckWin() {
        assert |g - (openedCells + mines)| == |g| - |openedCells + mines|;
        assert g - (openedCells + mines) == {};
      }
    }

    /**
      new_game. Each entry is the value int() made of its text, or None where
      int() raised ValueError. The fields are overwritten one by one as the
      entries are read, before the values are checked; the sets change only
      when the values are accepted. `draws` stands for the stream of random
      cells that the placement loop samples.
     */
    method NewGame(rowsEntry: Option<int>, colsEntry: Option<int>, minesEntry: Option<int>, draws: seq<Cell>)
      returns (outcome: Start)
      requires Valid()
      requires rowsEntry.Some? && colsEntry.Some? && minesEntry.Some? &&
               Accepts(rowsEntry.value, colsEntry.value, minesEntry.value) ==>
                 (forall k :: 0 <= k < |draws| ==> InGrid(rowsEntry.value, colsEntry.value, draws[k])) &&
                 |Drawn(draws)| >= minesEntry.value
      modifies this
      ensures Valid()
      ensures rows == if rowsEntry.Some? then rowsEntry.value else old(rows)
      ensures cols == if rowsEntry.Some? && colsEntry.Some? then colsEntry.value else old(cols)
      ensures mineCount == if rowsEntry.Some? && colsEntry.Some? && minesEntry.Some? then minesEntry.value else old(mineCount)
      ensures outcome == Started <==> rowsEntry.Some? && colsEntry.Some? && minesEntry.Some? && Accepts(rows, cols, mineCount)
      ensures outcome == TooManyMines <==>
                rowsEntry.Some? && colsEntry.Some? && minesEntry.Some? &&
                rows > 0 && cols > 0 && mineCount > 0 && mineCount >= rows * cols
      ensures outcome != Started ==>
                mines == old(mines) && openedCells == old(openedCells) && flags == old(flags) && buttons == old(buttons)
      ensures outcome == Started ==>
                openedCells == {} && flags == {} && buttons == Grid(rows, cols) &&
                |mines| == mineCount && mines <= Grid(rows, cols) && Consistent()
      ensures outcome == Started ==> exists k :: 0 <= k <= |draws| && mines == Drawn(draws[..k])
    {
      if rowsEntry.None? { return BadValues; }
      rows := rowsEntry.value;
      if colsEntry.None? { return BadValues; }
      cols := colsEntry.value;
      if minesEntry.None? { return BadValues; }
      mineCount := minesEntry.value;
      if rows <= 0 || cols <= 0 || mineCount <= 0 {
        return BadValues;
      }
      if mineCount >= rows * cols {
        return TooManyMines;
      }

      mines, openedCells, flags := {}, {}, {};
      buttons := Grid(rows, cols);

      PlaceMines(draws);
      outcome := Started;
    }

    /**
      The placement loop of new_game: random cells are added to the empty mine
      set until it holds mine_count distinct cells; `draws` is the sequence of
      cells the random generator returns.
     */
    method PlaceMines(draws: seq<Cell>)
      requires mines == {} && mineCount >= 0
      requires forall k :: 0 <= k < |draws| ==> InGrid(rows, cols, draws[k])
      requires |Drawn(draws)| >= mineCount
      modifies this`mines
      ensures |mines| == mineCount && mines <= Grid(rows, cols)
      ensures exists k :: 0 <= k <= |draws| && mines == Drawn(draws[..k])
    {
      var k := 0;
      assert draws[..0] == [];
      while |mines| < mineCount
        invariant 0 <= k <= |draws|
        invariant mines == Drawn(draws[..k])
        invariant mines <= Grid(rows, cols) && |mines| <= mineCount
        decreases |draws| - k
      {
        assert draws[..|draws|] == draws;
        assert draws[..k + 1] == draws[..k] + [draws[k]];
        assert Drawn(draws[..k + 1]) == Drawn(draws[..k]) + {draws[k]};
        mines := mines + {draws[k]};
        k := k + 1;
      }
    }

    /**
      open_cell. A call that does anything adds (r, c) to the opened cells
      first and, on a zero count, floods the window through OpenNeighbours.
      The ghost result lists the newly opened cells in the order they were
      opened: a flood from (r, c) through zero-count cells only.
     */
    method OpenCell(r: int, c: int) returns (result: Reveal, ghost trail: seq<Cell>)
      requires Valid()
      modifies this`openedCells
      decreases buttons + Grid(rows, cols) - openedCells, 0
      ensures Valid()
      ensures old(openedCells) <= openedCells
      ensures openedCells - old(openedCells) <= buttons - mines - flags
      ensures (r, c) in old(openedCells) || (r, c) in flags ==> result == Ignored && openedCells == old(openedCells)
      ensures (r, c) !in old(openedCells) && (r, c) !in flags && (r, c) !in buttons ==>
                result == Raised && openedCells == old(openedCells)
      ensures (r, c) !in old(openedCells) && (r, c) !in flags && (r, c) in buttons && (r, c) in mines ==>
                result == Exploded && openedCells == old(openedCells)
      ensures (r, c) !in old(openedCells) && (r, c) !in flags && (r, c) in buttons && (r, c) !in mines ==>
                (r, c) in openedCells && (result == Revealed || result == Raised)
      ensures result == Raised ==> (r, c) !in buttons || !(Grid(rows, cols) <= buttons)
      ensures result != Raised ==>
                forall p :: p in openedCells - old(openedCells) && CountMinesAround(rows, cols, mines, p.0, p.1) == 0 ==>
                  Expanded(rows, cols, flags, openedCells, p)
      ensures old(Consistent()) ==> Consistent()
      ensures openedCells - old(openedCells) <= Grid(rows, cols) + {(r, c)}
      ensures Elems(trail) == openedCells - old(openedCells)
      ensures |trail| > 0 ==> trail[0] == (r, c)
      ensures FloodOrder(rows, cols, mines, trail)
    {
      trail := [];
      if (r, c) in openedCells || (r, c) in flags {
        return Ignored, trail;
      }
      if (r, c) !in buttons {
        return Raised, trail;
      }
      if (r, c) in mines {
        return Exploded, trail;
      }

      openedCells := openedCells + {(r, c)};
      trail := [(r, c)];
      var count := CountMinesAround(rows, cols, mines, r, c);
      result := Revealed;
      if count == 0 {
        var raised, more := OpenNeighbours(r, c);
        assert [(r, c)] + more == trail + more;
        ElemsAppend(trail, more);
        trail := trail + more;
        if raised {
          result := Raised;
        }
      }
    }

    /**
      The flood step of open_cell: open_cell on every in-bounds cell of the
      3 × 3 window around the zero-count cell (r, c), row by row, stopping
      when one of those calls raises. The ghost result lists the cells it
      opened; put after (r, c), they form a flood order.
     */
    method OpenNeighbours(r: int, c: int) returns (raised: bool, ghost trail: seq<Cell>)
      requires Valid() && (r, c) in openedCells && CountMinesAround(rows, cols, mines, r, c) == 0
      modifies this`openedCells
      decreases buttons + Grid(rows, cols) - openedCells, 3
      ensures Valid()
      ensures old(openedCells) <= openedCells
      ensures openedCells - old(openedCells) <= buttons - mines - flags
      ensures raised ==> !(Grid(rows, cols) <= buttons)
      ensures !raised ==> Expanded(rows, cols, flags, openedCells, (r, c))
      ensures !raised ==>
                forall p :: p in openedCells - old(openedCells) && CountMinesAround(rows, cols, mines, p.0, p.1) == 0 ==>
                  Expanded(rows, cols, flags, openedCells, p)
      ensures old(Consistent()) ==> Consistent()
      ensures openedCells - old(openedCells) <= Grid(rows, cols)
      ensures Elems(trail) == openedCells - old(openedCells)
      ensures FloodOrder(rows, cols, mines, [(r, c)] + trail)
    {
      trail := [];
      assert [(r, c)] + trail == [(r, c)];
      var i := r - 1;
      while i < r + 2
        invariant r - 1 <= i <= r + 2
        invariant Valid()
        invariant old(openedCells) <= openedCells
        invariant openedCells - old(openedCells) <= buttons - mines - flags
        invariant forall p :: p in openedCells - old(openedCells) && CountMinesAround(rows, cols, mines, p.0, p.1) == 0 ==>
                    Expanded(rows, cols, flags, openedCells, p)
        invariant OpenedBefore(rows, cols, flags, openedCells, r, c, i, c - 1)
        invariant old(Consistent()) ==> Consistent()
        invariant openedCells - old(openedCells) <= Grid(rows, cols)
        invariant Elems(trail) == openedCells - old(openedCells)
        invariant FloodOrder(rows, cols, mines, [(r, c)] + trail)
      {
        ghost var before := openedCells;
        var rowRaised;
        rowRaised, trail := OpenWindowRow(r, c, i, trail);
        if rowRaised {
          return true, trail;
        }
        forall p | p in before - old(openedCells) && CountMinesAround(rows, cols, mines, p.0, p.1) == 0
          ensures Expanded(rows, cols, flags, openedCells, p)
        {
          OpenedBeforeGrows(rows, cols, flags, before, openedCells, p.0, p.1, p.0 + 2, p.1 - 1);
        }
        i := i + 1;
      }
      raised := false;
    }

    /**
      One row i of the flood step: the inner loop over the columns
      c - 1, c, c + 1. The ghost `acc` lists the cells the flood step has
      opened so far; the result extends it with the cells this row opened.
     */
    method OpenWindowRow(r: int, c: int, i: int, ghost acc: seq<Cell>) returns (raised: bool, ghost trail: seq<Cell>)
      requires Valid() && (r, c) in openedCells && CountMinesAround(rows, cols, mines, r, c) == 0
      requires r - 1 <= i <= r + 1
      requires OpenedBefore(rows, cols, flags, openedCells, r, c, i, c - 1)
      requires FloodOrder(rows, cols, mines, [(r, c)] + acc)
      modifies this`openedCells
      decreases buttons + Grid(rows, cols) - openedCells, 2
      ensures Valid()
      ensures old(openedCells) <= openedCells
      ensures openedCells - old(openedCells) <= buttons - mines - flags
      ensures raised ==> !(Grid(rows, cols) <= buttons)
      ensures !raised ==> OpenedBefore(rows, cols, flags, openedCells, r, c, i + 1, c - 1)
      ensures !raised ==>
                forall p :: p in openedCells - old(openedCells) && CountMinesAround(rows, cols, mines, p.0, p.1) == 0 ==>
                  Expanded(rows, cols, flags, openedCells, p)
      ensures old(Consistent()) ==> Consistent()
      ensures openedCells - old(openedCells) <= Grid(rows, cols)
      ensures Elems(trail) == Elems(acc) + (openedCells - old(openedCells))
      ensures FloodOrder(rows, cols, mines, [(r, c)] + trail)
    {
      trail := acc;
      var j := c - 1;
      while j < c + 2
        invariant c - 1 <= j <= c + 2
        invariant Valid()
        invariant old(openedCells) <= openedCells
        invariant openedCells - old(openedCells) <= buttons - mines - flags
        invariant forall p :: p in openedCells - old(openedCells) && CountMinesAround(rows, cols, mines, p.0, p.1) == 0 ==>
                    Expanded(rows, cols, flags, openedCells, p)
        invariant OpenedBefore(rows, cols, flags, openedCells, r, c, i, j)
        invariant old(Consistent()) ==> Consistent()
        invariant openedCells - old(openedCells) <= Grid(rows, cols)
        invariant Elems(trail) == Elems(acc) + (openedCells - old(openedCells))
        invariant FloodOrder(rows, cols, mines, [(r, c)] + trail)
      {
        ghost var before, trailBefore := openedCells, trail;
        var cellRaised;
        cellRaised, trail := OpenWindowCell(r, c, i, j, trail);
        NewCellsStep(old(openedCells), before, openedCells, buttons - mines - flags);
        NewCellsStep(old(openedCells), before, openedCells, Grid(rows, cols));
        assert Elems(trail) == Elems(acc) + (openedCells - old(openedCells));
        if cellRaised {
          return true, trail;
        }
        forall p | p in before - old(openedCells) && CountMinesAround(rows, cols, mines, p.0, p.1) == 0
          ensures Expanded(rows, cols, flags, openedCells, p)
        {
          OpenedBeforeGrows(rows, cols, flags, before, openedCells, p.0, p.1, p.0 + 2, p.1 - 1);
        }
        j := j + 1;
      }
      raised := false;
    }

    /**
      The body of the inner loop of the flood step: open_cell on (i, j) when
      it lies in the grid, nothing otherwise. The ghost `acc` and the result
      are as for OpenWindowRow.
     */
    method OpenWindowCell(r: int, c: int, i: int, j: int, ghost acc: seq<Cell>) returns (raised: bool, ghost trail: seq<Cell>)
      requires Valid() && (r, c) in openedCells && CountMinesAround(rows, cols, mines, r, c) == 0
      requires r - 1 <= i <= r + 1 && c - 1 <= j <= c + 1
      requires OpenedBefore(rows, cols, flags, openedCells, r, c, i, j)
      requires FloodOrder(rows, cols, mines, [(r, c)] + acc)
      modifies this`openedCells
      decreases buttons + Grid(rows, cols) - openedCells, 1
      ensures Valid()
      ensures old(openedCells) <= openedCells
      ensures openedCells - old(openedCells) <= buttons - mines - flags
      ensures raised ==> !(Grid(rows, cols) <= buttons)
      ensures !raised ==> OpenedBefore(rows, cols, flags, openedCells, r, c, i, j + 1)
      ensures !raised ==>
                forall p :: p in openedCells - old(openedCells) && CountMinesAround(rows, cols, mines, p.0, p.1) == 0 ==>
                  Expanded(rows, cols, flags, openedCells, p)
      ensures old(Consistent()) ==> Consistent()
      ensures openedCells - old(openedCells) <= Grid(rows, cols)
      ensures Elems(trail) == Elems(acc) + (openedCells - old(openedCells))
      ensures FloodOrder(rows, cols, mines, [(r, c)] + trail)
    {
      trail := acc;
      raised := false;
      if 0 <= i < rows && 0 <= j < cols {
        assert (i, j) in Grid(rows, cols);
        var sub, subTrail := OpenCell(i, j);
        TrailStep(acc, acc, subTrail, old(openedCells), old(openedCells), openedCells);
        FloodOrderAppend(rows, cols, mines, [(r, c)] + acc, subTrail);
        assert [(r, c)] + acc + subTrail == [(r, c)] + (acc + subTrail);
        trail := acc + subTrail;
        if sub == Raised {
          return true, trail;
        }
        OpenedBeforeGrows(rows, cols, flags, old(openedCells), openedCells, r, c, i, j);
      }
    }

    /**
      toggle_flag: ignored on an opened cell, otherwise the cell's flag is
      added or removed. Only a button calls it, so the cell has a button.
     */
    method ToggleFlag(r: int, c: int)
      requires Valid()
      requires (r, c) in buttons
      modifies this`flags
      ensures Valid()
      ensures (r, c) in openedCells ==> flags == old(flags)
      ensures (r, c) !in openedCells && (r, c) in old(flags) ==> flags == old(flags) - {(r, c)}
      ensures (r, c) !in openedCells && (r, c) !in old(flags) ==> flags == old(flags) + {(r, c)}
      ensures old(Consistent()) ==> Consistent()
    {
      if (r, c) in openedCells {
        return;
      }
      if (r, c) in flags {
        flags := flags - {(r, c)};
      } else {
        flags := flags + {(r, c)};
      }
    }
  }

  /** Toggling a flag twice restores the flags. */
  method ToggleFlagTwice(g: Game, r: int, c: int)
    requires g.Valid() && (r, c) in g.buttons
    modifies g`flags
    ensures g.Valid() && g.flags == old(g.flags) && g.openedCells == old(g.openedCells)
  {
    g.ToggleFlag(r, c);
    g.ToggleFlag(r, c);
  }

  /**
    A 5 × 5 game whose random draws place the mines at (0, 0) and (1, 1):
    opening (4, 4) opens neither mine, and opening (0, 0) afterwards hits one.
   */
  method FiveByFiveScenario() {
    var g := new Game();
    var draws := [(0, 0), (1, 1)];
    assert draws[0] == (0, 0) && draws[1] == (1, 1);
    assert Drawn(draws) == {(0, 0), (1, 1)};
    var outcome := g.NewGame(Some(5), Some(5), Some(2), draws);
    assert outcome == Started;
    assert g.mines == {(0, 0), (1, 1)} by {
      var k :| 0 <= k <= |draws| && g.mines == Drawn(draws[..k]);
      assert Drawn(draws[..0]) == {};
      assert draws[..1] == [(0, 0)] && Drawn(draws[..1]) == {(0, 0)};
      assert draws[..2] == draws;
    }
    var first, _ := g.OpenCell(4, 4);
    assert first == Revealed;
    assert (4, 4) in g.openedCells && (0, 0) !in g.openedCells && (1, 1) !in g.openedCells;
    var second, _ := g.OpenCell(0, 0);
    assert second == Exploded;
  }
}
