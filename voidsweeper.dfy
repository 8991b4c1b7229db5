/** The minesweeper board of `games/VoidSweeper.tsx`: a 10 x 10 grid of
    cells with 15 mines, Moore-neighbour counts, a recursive flood fill
    from cells that see no mine, flagging, and the playing/won/lost status. */
module VoidSweeper {

  const SIZE: int := 10
  const MINES_COUNT: int := 15

  datatype Cell = Cell(isMine: bool, isRevealed: bool, isFlagged: bool, neighborMines: nat)

  datatype Status = Playing | Won | Lost

  type Board = seq<seq<Cell>>

  /** A grid position; neighbours of border cells fall outside with -1 or 10. */
  type Pos = (int, int)

  const Blank: Cell := Cell(false, false, false, 0)

  predicate IsBoard(g: Board)
  {
    |g| == SIZE && forall r :: 0 <= r < SIZE ==> |g[r]| == SIZE
  }

  predicate InBounds(r: int, c: int)
  {
    0 <= r < SIZE && 0 <= c < SIZE
  }

  predicate Adjacent(r: int, c: int, r2: int, c2: int)
  {
    -1 <= r2 - r <= 1 && -1 <= c2 - c <= 1
  }

  function BlankBoard(): (g: Board)
    ensures IsBoard(g)
  {
    seq(SIZE, _ => seq(SIZE, _ => Blank))
  }

  // ---------------------------------------------------------------------
  // Mines and their counts

  predicate MineAt(g: Board, r: int, c: int)
    requires IsBoard(g)
  {
    InBounds(r, c) && g[r][c].isMine
  }

  function MineSet(g: Board): set<Pos>
    requires IsBoard(g)
  {
    set r: int, c: int | 0 <= r < SIZE && 0 <= c < SIZE && g[r][c].isMine :: (r, c)
  }

  /** The k-th offset of the counting loops, `dr` outer and `dc` inner. */
  function RowOffset(k: int): int { k / 3 - 1 }
  function ColOffset(k: int): int { k % 3 - 1 }

  /** Mines among the first `k` of the nine positions the counting loops visit. */
  function PartialCount(g: Board, r: int, c: int, k: nat): (n: nat)
    requires IsBoard(g) && k <= 9
    ensures n <= k
  {
    if k == 0 then 0
    else PartialCount(g, r, c, k - 1) +
         (if MineAt(g, r + RowOffset(k - 1), c + ColOffset(k - 1)) then 1 else 0)
  }

  function NeighborMines(g: Board, r: int, c: int): nat
    requires IsBoard(g)
  {
    PartialCount(g, r, c, 9)
  }

  /** Every non-mine cell carries the number of mines around it; mine cells keep 0. */
  ghost predicate WellCounted(g: Board)
    requires IsBoard(g)
  {
    forall r, c :: InBounds(r, c) ==>
      g[r][c].neighborMines == (if g[r][c].isMine then 0 else NeighborMines(g, r, c))
  }

  ghost predicate SameMines(g: Board, h: Board)
    requires IsBoard(g) && IsBoard(h)
  {
    forall r, c :: InBounds(r, c) ==> h[r][c].isMine == g[r][c].isMine
  }

  lemma {:induction false} SameMinesCount(g: Board, h: Board, r: int, c: int, k: nat)
    requires IsBoard(g) && IsBoard(h) && SameMines(g, h) && k <= 9
    ensures PartialCount(g, r, c, k) == PartialCount(h, r, c, k)
  {
    if k > 0 {
      SameMinesCount(g, h, r, c, k - 1);
    }
  }

  lemma SameMinesSet(g: Board, h: Board)
    requires IsBoard(g) && IsBoard(h) && SameMines(g, h)
    ensures MineSet(g) == MineSet(h)
  {
    forall p | p in MineSet(h) ensures p in MineSet(g) {
      var (r, c) := p;
      assert h[r][c].isMine;
    }
  }

  /** The count of the first `k` offsets is zero exactly when none of
      them holds a mine. */
  lemma {:induction false} PartialCountZero(g: Board, r: int, c: int, k: nat)
    requires IsBoard(g) && k <= 9
    ensures PartialCount(g, r, c, k) == 0 <==>
            forall j :: 0 <= j < k ==> !MineAt(g, r + RowOffset(j), c + ColOffset(j))
  {
    if k > 0 {
      PartialCountZero(g, r, c, k - 1);
      var last := MineAt(g, r + RowOffset(k - 1), c + ColOffset(k - 1));
      assert (forall j :: 0 <= j < k ==> !MineAt(g, r + RowOffset(j), c + ColOffset(j))) <==>
             (forall j :: 0 <= j < k - 1 ==> !MineAt(g, r + RowOffset(j), c + ColOffset(j))) && !last;
    }
  }

  /** The nine offsets are exactly the Moore neighbourhood (with the cell itself). */
  lemma OffsetOf(r: int, c: int, r2: int, c2: int) returns (k: nat)
    requires Adjacent(r, c, r2, c2)
    ensures k < 9 && r2 == r + RowOffset(k) && c2 == c + ColOffset(k)
  {
    k := 3 * (r2 - r + 1) + (c2 - c + 1);
  }

  lemma OffsetAdjacent(r: int, c: int, k: nat)
    requires k < 9
    ensures Adjacent(r, c, r + RowOffset(k), c + ColOffset(k))
  {
  }

  /** A count of zero means no mine among the Moore neighbours, and conversely. */
  lemma ZeroCountIffNoAdjacentMine(g: Board, r: int, c: int)
    requires IsBoard(g)
    ensures NeighborMines(g, r, c) == 0 <==>
            forall r2, c2 :: Adjacent(r, c, r2, c2) ==> !MineAt(g, r2, c2)
  {
    PartialCountZero(g, r, c, 9);
    if NeighborMines(g, r, c) == 0 {
      forall r2, c2 | Adjacent(r, c, r2, c2) ensures !MineAt(g, r2, c2) {
        var k := OffsetOf(r, c, r2, c2);
      }
    } else {
      var j :| 0 <= j < 9 && MineAt(g, r + RowOffset(j), c + ColOffset(j));
      OffsetAdjacent(r, c, j);
    }
  }

  /** A non-mine cell sees at most the eight cells around it. */
  lemma CountAtMostEight(g: Board, r: int, c: int)
    requires IsBoard(g) && InBounds(r, c) && !g[r][c].isMine
    ensures NeighborMines(g, r, c) <= 8
  {
    assert !MineAt(g, r + RowOffset(4), c + ColOffset(4));
    assert PartialCount(g, r, c, 5) == PartialCount(g, r, c, 4) <= 4;
    assert PartialCount(g, r, c, 6) <= 5;
    assert PartialCount(g, r, c, 7) <= 6;
    assert PartialCount(g, r, c, 8) <= 7;
  }

  // ---------------------------------------------------------------------
  // createGrid

  /** The distinct positions among `draws`. */
  function DrawSet(draws: seq<Pos>): set<Pos>
  {
    set i | 0 <= i < |draws| :: draws[i]
  }

  predicate DrawsInBounds(draws: seq<Pos>)
  {
    forall i :: 0 <= i < |draws| ==> InBounds(draws[i].0, draws[i].1)
  }

  /** The planting loop: `draws` stands for the successive random positions;
      a position already holding a mine is skipped, and the loop stops after
      the fifteenth distinct one. */
  method PlantMines(draws: seq<Pos>) returns (g: Board, used: nat)
    requires DrawsInBounds(draws) && |DrawSet(draws)| >= MINES_COUNT
    ensures IsBoard(g) && 0 < used <= |draws|
    ensures MineSet(g) == DrawSet(draws[..used]) && |MineSet(g)| == MINES_COUNT
    ensures |DrawSet(draws[..used - 1])| < MINES_COUNT
    ensures Untouched(g)
  {
    g := BlankBoard();
    var planted := 0;
    used := 0;
    BlankHasNoMine();
    assert DrawSet(draws[..0]) == {};
    while planted < MINES_COUNT
      invariant IsBoard(g) && 0 <= used <= |draws| && Untouched(g)
      invariant MineSet(g) == DrawSet(draws[..used]) && planted == |MineSet(g)| <= MINES_COUNT
      invariant used > 0 ==> |DrawSet(draws[..used - 1])| < MINES_COUNT
      decreases |draws| - used
    {
      DrawSetPrefix(draws, used);
      var (r, c) := draws[used];
      if !g[r][c].isMine {
        var g' := g[r := g[r][c := g[r][c].(isMine := true)]];
        PlantOne(g, g', r, c);
        g := g';
        planted := planted + 1;
      } else {
        assert (r, c) in MineSet(g);
      }
      used := used + 1;
    }
  }

  /** Apart from the mines, every cell is still as `Array(SIZE).fill` made it. */
  ghost predicate Untouched(g: Board)
    requires IsBoard(g)
  {
    forall r, c :: InBounds(r, c) ==> g[r][c] == Blank.(isMine := g[r][c].isMine)
  }

  lemma BlankHasNoMine()
    ensures Untouched(BlankBoard()) && MineSet(BlankBoard()) == {}
  {
  }

  /** The prefix read so far grows by one draw, and while fewer than
      fifteen distinct positions were seen, some draw is left. */
  lemma DrawSetPrefix(draws: seq<Pos>, used: nat)
    requires used <= |draws| && |DrawSet(draws)| >= MINES_COUNT
    requires |DrawSet(draws[..used])| < MINES_COUNT
    ensures used < |draws|
    ensures DrawSet(draws[..used + 1]) == DrawSet(draws[..used]) + {draws[used]}
  {
    assert draws[..|draws|] == draws;
    assert draws[..used + 1] == draws[..used] + [draws[used]];
  }

  lemma PlantOne(g: Board, g': Board, r: int, c: int)
    requires IsBoard(g) && InBounds(r, c) && !g[r][c].isMine && Untouched(g)
    requires g' == g[r := g[r][c := g[r][c].(isMine := true)]]
    ensures IsBoard(g') && Untouched(g')
    ensures MineSet(g') == MineSet(g) + {(r, c)} && (r, c) !in MineSet(g)
  {
    forall p | p in MineSet(g') ensures p in MineSet(g) + {(r, c)} {
      var (i, j) := p;
      assert g'[i][j].isMine;
    }
  }

  /** The counting loops: every non-mine cell gets the number of mines
      among its in-bounds Moore neighbours. */
  method CountNeighbors(g0: Board) returns (g: Board)
    requires IsBoard(g0)
    requires forall r, c :: InBounds(r, c) && g0[r][c].isMine ==> g0[r][c].neighborMines == 0
    ensures IsBoard(g) && SameMines(g0, g) && WellCounted(g)
    ensures forall r, c :: InBounds(r, c) && g0[r][c].isMine ==> g[r][c] == g0[r][c]
    ensures forall r, c :: InBounds(r, c) ==>
              g[r][c] == g0[r][c].(neighborMines := g[r][c].neighborMines)
  {
    g := g0;
    for r := 0 to SIZE
      invariant IsBoard(g) && SameMines(g0, g)
      invariant forall i, j :: InBounds(i, j) ==> g[i][j] == g0[i][j].(neighborMines := g[i][j].neighborMines)
      invariant forall i, j :: InBounds(i, j) && g0[i][j].isMine ==> g[i][j] == g0[i][j]
      invariant forall i, j :: InBounds(i, j) && i < r && !g0[i][j].isMine ==>
                  g[i][j].neighborMines == NeighborMines(g0, i, j)
    {
      for c := 0 to SIZE
        invariant IsBoard(g) && SameMines(g0, g)
        invariant forall i, j :: InBounds(i, j) ==> g[i][j] == g0[i][j].(neighborMines := g[i][j].neighborMines)
        invariant forall i, j :: InBounds(i, j) && g0[i][j].isMine ==> g[i][j] == g0[i][j]
        invariant forall i, j :: InBounds(i, j) && (i < r || (i == r && j < c)) && !g0[i][j].isMine ==>
                    g[i][j].neighborMines == NeighborMines(g0, i, j)
      {
        if !g[r][c].isMine {
          var count := CountAround(g, r, c);
          SameMinesCount(g0, g, r, c, 9);
          g := g[r := g[r][c := g[r][c].(neighborMines := count)]];
        }
      }
    }
    forall r, c | InBounds(r, c) && !g[r][c].isMine
      ensures g[r][c].neighborMines == NeighborMines(g, r, c)
    {
      SameMinesCount(g0, g, r, c, 9);
    }
  }

  /** Visiting offset (`dr`, `dc`) adds its mine, if any, to the count. */
  lemma CountStep(g: Board, r: int, c: int, dr: int, dc: int)
    requires IsBoard(g) && -1 <= dr <= 1 && -1 <= dc <= 1
    ensures var k := 3 * (dr + 1) + (dc + 1);
            PartialCount(g, r, c, k + 1) ==
            PartialCount(g, r, c, k) + (if MineAt(g, r + dr, c + dc) then 1 else 0)
  {
    var k := 3 * (dr + 1) + (dc + 1);
    assert k / 3 == dr + 1 && k % 3 == dc + 1;
  }

  /** The inner `dr`/`dc` loops for one cell. */
  method CountAround(g: Board, r: int, c: int) returns (count: nat)
    requires IsBoard(g)
    ensures count == NeighborMines(g, r, c)
  {
    count := 0;
    for dr := -1 to 2
      invariant count == PartialCount(g, r, c, 3 * (dr + 1))
    {
      for dc := -1 to 2
        invariant count == PartialCount(g, r, c, 3 * (dr + 1) + (dc + 1))
      {
        var nr := r + dr;
        var nc := c + dc;
        CountStep(g, r, c, dr, dc);
        if nr >= 0 && nr < SIZE && nc >= 0 && nc < SIZE && g[nr][nc].isMine {
          count := count + 1;
        }
      }
    }
  }

  // ---------------------------------------------------------------------
  // Revealing

  predicate Covered(g: Board, r: int, c: int)
    requires IsBoard(g) && InBounds(r, c)
  {
    g[r][c].isRevealed || g[r][c].isFlagged
  }

  function HiddenSet(g: Board): set<Pos>
    requires IsBoard(g)
  {
    set r: int, c: int | 0 <= r < SIZE && 0 <= c < SIZE && !g[r][c].isRevealed :: (r, c)
  }

  predicate NewlyRevealed(g: Board, h: Board, r: int, c: int)
    requires IsBoard(g) && IsBoard(h) && InBounds(r, c)
  {
    !g[r][c].isRevealed && h[r][c].isRevealed
  }

  /** `h` differs from `g` only in cells that went from unrevealed to
      revealed, and none of those was a mine or flagged. */
  ghost predicate Grows(g: Board, h: Board)
    requires IsBoard(g) && IsBoard(h)
  {
    forall r, c :: InBounds(r, c) ==>
      && h[r][c] == g[r][c].(isRevealed := h[r][c].isRevealed)
      && (g[r][c].isRevealed ==> h[r][c].isRevealed)
      && (NewlyRevealed(g, h, r, c) ==> !g[r][c].isMine && !g[r][c].isFlagged)
  }

  /** Every cell newly revealed from `g` to `h` that sees no mine has all
      its in-bounds neighbours revealed or flagged in `h`. */
  ghost predicate Closed(g: Board, h: Board)
    requires IsBoard(g) && IsBoard(h)
  {
    forall r, c, r2, c2 ::
      (InBounds(r, c) && NewlyRevealed(g, h, r, c) && h[r][c].neighborMines == 0 &&
       InBounds(r2, c2) && Adjacent(r, c, r2, c2)) ==> Covered(h, r2, c2)
  }

  /** Flood fill is safe to enter at a position that is off the board,
      already revealed, flagged, or not a mine. */
  predicate SafeEntry(g: Board, row: int, col: int)
    requires IsBoard(g)
  {
    InBounds(row, col) && !g[row][col].isRevealed && !g[row][col].isFlagged ==> !g[row][col].isMine
  }

  lemma GrowsHidden(g: Board, h: Board)
    requires IsBoard(g) && IsBoard(h) && Grows(g, h)
    ensures HiddenSet(h) <= HiddenSet(g)
  {
    forall p | p in HiddenSet(h) ensures p in HiddenSet(g) {
      var (r, c) := p;
      assert !h[r][c].isRevealed;
    }
  }

  lemma ClosedTrans(g: Board, h1: Board, h2: Board)
    requires IsBoard(g) && IsBoard(h1) && IsBoard(h2)
    requires Grows(g, h1) && Grows(h1, h2) && Closed(g, h1) && Closed(h1, h2)
    ensures Grows(g, h2) && Closed(g, h2)
  {
    forall r, c, r2, c2 |
      InBounds(r, c) && NewlyRevealed(g, h2, r, c) && h2[r][c].neighborMines == 0 &&
      InBounds(r2, c2) && Adjacent(r, c, r2, c2)
      ensures Covered(h2, r2, c2)
    {
      if h1[r][c].isRevealed {
        assert NewlyRevealed(g, h1, r, c);
        assert Covered(h1, r2, c2);
      } else {
        assert NewlyRevealed(h1, h2, r, c);
      }
    }
  }

  /** `floodFill`: reveal the cell and, when it sees no mine, recurse into
      all nine positions around it (itself included). */
  method FloodFill(g: Board, row: int, col: int) returns (h: Board)
    requires IsBoard(g) && WellCounted(g) && SafeEntry(g, row, col)
    ensures IsBoard(h) && Grows(g, h) && Closed(g, h) && WellCounted(h)
    ensures InBounds(row, col) && !g[row][col].isFlagged ==> h[row][col].isRevealed
    ensures !InBounds(row, col) || g[row][col].isRevealed || g[row][col].isFlagged ==> h == g
    ensures InBounds(row, col) && !g[row][col].isRevealed && !g[row][col].isFlagged &&
            g[row][col].neighborMines > 0 ==>
              h == g[row := g[row][col := g[row][col].(isRevealed := true)]]
    decreases HiddenSet(g)
  {
    if row < 0 || row >= SIZE || col < 0 || col >= SIZE || g[row][col].isRevealed || g[row][col].isFlagged {
      return g;
    }
    var g1 := g[row := g[row][col := g[row][col].(isRevealed := true)]];
    RevealOne(g, g1, row, col);
    h := g1;
    if g1[row][col].neighborMines == 0 {
      ZeroCountIffNoAdjacentMine(g, row, col);
      h := FloodNeighbours(g, g1, row, col);
    }
    FloodDone(g, g1, h, row, col);
  }

  lemma RevealOne(g: Board, g1: Board, row: int, col: int)
    requires IsBoard(g) && WellCounted(g) && InBounds(row, col)
    requires !g[row][col].isRevealed && !g[row][col].isFlagged && !g[row][col].isMine
    requires g1 == g[row := g[row][col := g[row][col].(isRevealed := true)]]
    ensures IsBoard(g1) && WellCounted(g1) && Grows(g, g1) && Closed(g1, g1)
    ensures HiddenSet(g1) < HiddenSet(g)
  {
    assert SameMines(g, g1);
    SameMinesWellCounted(g, g1);
    assert (row, col) in HiddenSet(g) && (row, col) !in HiddenSet(g1);
    GrowsHidden(g, g1);
  }

  /** The `dr`/`dc` loops of `floodFill` around a cell that sees no mine. */
  method FloodNeighbours(g: Board, g1: Board, row: int, col: int) returns (h: Board)
    requires IsBoard(g) && WellCounted(g) && InBounds(row, col)
    requires !g[row][col].isRevealed && !g[row][col].isFlagged && !g[row][col].isMine
    requires g1 == g[row := g[row][col := g[row][col].(isRevealed := true)]]
    requires forall r2, c2 :: Adjacent(row, col, r2, c2) ==> !MineAt(g, r2, c2)
    ensures IsBoard(h) && WellCounted(h) && Grows(g1, h) && Closed(g1, h)
    ensures forall i, j :: InBounds(i, j) && Adjacent(row, col, i, j) ==> Covered(h, i, j)
    decreases HiddenSet(g), 2
  {
    RevealOne(g, g1, row, col);
    h := g1;
    for dr := -1 to 2
      invariant IsBoard(h) && WellCounted(h) && Grows(g1, h) && Closed(g1, h)
      invariant HiddenSet(h) <= HiddenSet(g1)
      invariant forall i, j :: InBounds(i, j) && Adjacent(row, col, i, j) && i < row + dr ==> Covered(h, i, j)
    {
      h := FloodRow(g, g1, h, row, col, dr);
    }
  }

  /** The inner `dc` loop for one `dr`. */
  method FloodRow(g: Board, g1: Board, h0: Board, row: int, col: int, dr: int) returns (h: Board)
    requires IsBoard(g) && WellCounted(g) && InBounds(row, col) && -1 <= dr <= 1
    requires !g[row][col].isRevealed && !g[row][col].isFlagged && !g[row][col].isMine
    requires g1 == g[row := g[row][col := g[row][col].(isRevealed := true)]]
    requires forall r2, c2 :: Adjacent(row, col, r2, c2) ==> !MineAt(g, r2, c2)
    requires IsBoard(h0) && WellCounted(h0) && Grows(g1, h0) && Closed(g1, h0)
    requires HiddenSet(h0) <= HiddenSet(g1)
    requires forall i, j :: InBounds(i, j) && Adjacent(row, col, i, j) && i < row + dr ==> Covered(h0, i, j)
    ensures IsBoard(h) && WellCounted(h) && Grows(g1, h) && Closed(g1, h)
    ensures HiddenSet(h) <= HiddenSet(g1)
    ensures forall i, j :: InBounds(i, j) && Adjacent(row, col, i, j) && i <= row + dr ==> Covered(h, i, j)
    decreases HiddenSet(g), 1
  {
    h := h0;
    for dc := -1 to 2
      invariant IsBoard(h) && WellCounted(h) && Grows(g1, h) && Closed(g1, h)
      invariant HiddenSet(h) <= HiddenSet(g1)
      invariant forall i, j ::
                  (InBounds(i, j) && Adjacent(row, col, i, j) &&
                   (i < row + dr || (i == row + dr && j < col + dc))) ==> Covered(h, i, j)
    {
      ghost var before := h;
      h := FloodStep(g, g1, h, row, col, row + dr, col + dc);
      forall i, j | InBounds(i, j) && Adjacent(row, col, i, j) &&
                    (i < row + dr || (i == row + dr && j <= col + dc))
        ensures Covered(h, i, j)
      {
        if i != row + dr || j != col + dc {
          assert Covered(before, i, j);
        }
      }
    }
  }

  /** One recursive call of the neighbour loops, with the facts that carry
      the loop invariants across it. */
  method FloodStep(g: Board, g1: Board, h: Board, row: int, col: int, nr: int, nc: int)
    returns (h': Board)
    requires IsBoard(g) && IsBoard(g1) && IsBoard(h) && WellCounted(g) && WellCounted(h)
    requires InBounds(row, col) && !g[row][col].isRevealed && Adjacent(row, col, nr, nc)
    requires !g[row][col].isMine && !g[row][col].isFlagged
    requires g1 == g[row := g[row][col := g[row][col].(isRevealed := true)]]
    requires forall r2, c2 :: Adjacent(row, col, r2, c2) ==> !MineAt(g, r2, c2)
    requires Grows(g1, h) && Closed(g1, h) && HiddenSet(h) <= HiddenSet(g1)
    ensures IsBoard(h') && WellCounted(h') && Grows(g1, h') && Closed(g1, h')
    ensures HiddenSet(h') <= HiddenSet(g1)
    ensures InBounds(nr, nc) ==> Covered(h', nr, nc)
    ensures forall i, j :: InBounds(i, j) && Covered(h, i, j) ==> Covered(h', i, j)
    decreases HiddenSet(g), 0
  {
    RevealOne(g, g1, row, col);
    assert SafeEntry(h, nr, nc) by {
      if InBounds(nr, nc) {
        assert h[nr][nc].isMine == g1[nr][nc].isMine == g[nr][nc].isMine;
      }
    }
    h' := FloodFill(h, nr, nc);
    ClosedTrans(g1, h, h');
    GrowsHidden(h, h');
  }

  lemma SameMinesWellCounted(g: Board, h: Board)
    requires IsBoard(g) && IsBoard(h) && WellCounted(g) && SameMines(g, h)
    requires forall r, c :: InBounds(r, c) ==> h[r][c].neighborMines == g[r][c].neighborMines
    ensures WellCounted(h)
  {
    forall r, c | InBounds(r, c) ensures
      h[r][c].neighborMines == (if h[r][c].isMine then 0 else NeighborMines(h, r, c))
    {
      SameMinesCount(g, h, r, c, 9);
    }
  }

  /** After the neighbour loops (or none, for a counted cell) the whole fill
      from `g` is closed: the start cell's neighbourhood is covered. */
  lemma FloodDone(g: Board, g1: Board, h: Board, row: int, col: int)
    requires IsBoard(g) && IsBoard(g1) && IsBoard(h) && WellCounted(g)
    requires InBounds(row, col) && !g[row][col].isRevealed && !g[row][col].isFlagged
    requires !g[row][col].isMine
    requires g1 == g[row := g[row][col := g[row][col].(isRevealed := true)]]
    requires Grows(g1, h) && Closed(g1, h)
    requires g1[row][col].neighborMines == 0 ==>
               forall i, j :: InBounds(i, j) && Adjacent(row, col, i, j) ==> Covered(h, i, j)
    ensures Grows(g, h) && Closed(g, h)
    ensures h[row][col].isRevealed
  {
    forall r, c, r2, c2 |
      InBounds(r, c) && NewlyRevealed(g, h, r, c) && h[r][c].neighborMines == 0 &&
      InBounds(r2, c2) && Adjacent(r, c, r2, c2)
      ensures Covered(h, r2, c2)
    {
      if (r, c) != (row, col) {
        assert NewlyRevealed(g1, h, r, c);
      }
    }
  }

  /** The win check: every cell is a mine or revealed. */
  ghost predicate AllClear(g: Board)
    requires IsBoard(g)
  {
    forall r, c :: InBounds(r, c) ==> g[r][c].isMine || g[r][c].isRevealed
  }

  ghost predicate MineRevealed(g: Board)
    requires IsBoard(g)
  {
    exists r, c :: InBounds(r, c) && g[r][c].isMine && g[r][c].isRevealed
  }

  /** No cell is ever both revealed and flagged. */
  ghost predicate Exclusive(g: Board)
    requires IsBoard(g)
  {
    forall r, c :: InBounds(r, c) ==> !(g[r][c].isRevealed && g[r][c].isFlagged)
  }

  method CheckWin(g: Board) returns (allRevealed: bool)
    requires IsBoard(g)
    ensures allRevealed <==> AllClear(g)
  {
    allRevealed := true;
    for r := 0 to SIZE
      invariant allRevealed <==> forall i, j :: InBounds(i, j) && i < r ==> g[i][j].isMine || g[i][j].isRevealed
    {
      for c := 0 to SIZE
        invariant allRevealed <==> forall i, j :: InBounds(i, j) && (i < r || (i == r && j < c)) ==>
                                     g[i][j].isMine || g[i][j].isRevealed
      {
        if !(g[r][c].isMine || g[r][c].isRevealed) {
          allRevealed := false;
        }
      }
    }
  }

  lemma GrowsKeepsExclusive(g: Board, h: Board)
    requires IsBoard(g) && IsBoard(h) && Grows(g, h) && Exclusive(g)
    ensures Exclusive(h)
  {
    forall r, c | InBounds(r, c) ensures !(h[r][c].isRevealed && h[r][c].isFlagged) {
      assert h[r][c].isFlagged == g[r][c].isFlagged;
    }
  }

  lemma GrowsKeepsNoMineRevealed(g: Board, h: Board)
    requires IsBoard(g) && IsBoard(h) && Grows(g, h) && !MineRevealed(g)
    ensures !MineRevealed(h)
  {
  }

  // ---------------------------------------------------------------------
  // The component state

  class Game {
    var grid: Board
    var status: Status

    ghost predicate Valid()
      reads this
    {
      && IsBoard(grid)
      && WellCounted(grid)
      && |MineSet(grid)| == MINES_COUNT
      && Exclusive(grid)
      && (status == Lost <==> MineRevealed(grid))
      && (status == Won ==> AllClear(grid))
    }

    /** Mounting runs `createGrid`. */
    constructor (draws: seq<Pos>)
      requires DrawsInBounds(draws) && |DrawSet(draws)| >= MINES_COUNT
      ensures Valid() && status == Playing
      ensures forall r, c :: InBounds(r, c) ==> !grid[r][c].isRevealed && !grid[r][c].isFlagged
    {
      var planted, used := PlantMines(draws);
      var counted := CountNeighbors(planted);
      SameMinesSet(planted, counted);
      grid := counted;
      status := Playing;
      new;
      NothingRevealed(counted);
    }

    /** `createGrid`, also run by the RE-SCAN button. */
    method CreateGrid(draws: seq<Pos>)
      requires DrawsInBounds(draws) && |DrawSet(draws)| >= MINES_COUNT
      modifies this
      ensures Valid() && status == Playing
      ensures exists used :: 0 < used <= |draws| && MineSet(grid) == DrawSet(draws[..used])
      ensures forall r, c :: InBounds(r, c) ==> !grid[r][c].isRevealed && !grid[r][c].isFlagged
    {
      var planted, used := PlantMines(draws);
      var counted := CountNeighbors(planted);
      SameMinesSet(planted, counted);
      grid := counted;
      status := Playing;
      NothingRevealed(counted);
    }

    /** `revealCell`. */
    method RevealCell(r: int, c: int)
      requires Valid() && InBounds(r, c)
      modifies this
      ensures Valid()
      ensures old(status) != Playing || old(grid)[r][c].isRevealed || old(grid)[r][c].isFlagged ==>
                grid == old(grid) && status == old(status)
      ensures old(status) == Playing && !old(grid)[r][c].isRevealed && !old(grid)[r][c].isFlagged &&
              old(grid)[r][c].isMine ==>
                grid == old(grid)[r := old(grid)[r][c := old(grid)[r][c].(isRevealed := true)]] &&
                status == Lost
      ensures old(status) == Playing && !old(grid)[r][c].isRevealed && !old(grid)[r][c].isFlagged &&
              !old(grid)[r][c].isMine ==>
                && Grows(old(grid), grid) && Closed(old(grid), grid)
                && grid[r][c].isRevealed
                && (status == Won <==> AllClear(grid))
                && (status == Playing <==> !AllClear(grid))
    {
      if status != Playing || grid[r][c].isRevealed || grid[r][c].isFlagged {
        return;
      }
      var current: Board := grid;
      if current[r][c].isMine {
        var next := current[r := current[r][c := current[r][c].(isRevealed := true)]];
        assert SameMines(current, next);
        SameMinesWellCounted(current, next);
        SameMinesSet(current, next);
        assert next[r][c].isMine && next[r][c].isRevealed;
        grid := next;
        status := Lost;
        return;
      }
      var next := FloodFill(current, r, c);
      SameMinesSet(current, next);
      GrowsKeepsExclusive(current, next);
      GrowsKeepsNoMineRevealed(current, next);
      grid := next;
      var allRevealed := CheckWin(next);
      if allRevealed {
        status := Won;
      }
    }

    /** `toggleFlag` (the context-menu handler). */
    method ToggleFlag(r: int, c: int)
      requires Valid() && InBounds(r, c)
      modifies this
      ensures Valid() && status == old(status)
      ensures old(status) != Playing || old(grid)[r][c].isRevealed ==> grid == old(grid)
      ensures old(status) == Playing && !old(grid)[r][c].isRevealed ==>
                grid == old(grid)[r := old(grid)[r][c := old(grid)[r][c].(isFlagged := !old(grid)[r][c].isFlagged)]]
    {
      if status != Playing || grid[r][c].isRevealed {
        return;
      }
      var current: Board := grid;
      var next := current[r := current[r][c := current[r][c].(isFlagged := !current[r][c].isFlagged)]];
      assert SameMines(current, next);
      SameMinesWellCounted(current, next);
      SameMinesSet(current, next);
      grid := next;
    }
  }

  lemma NothingRevealed(g: Board)
    requires IsBoard(g)
    requires forall r, c :: InBounds(r, c) ==> !g[r][c].isRevealed && !g[r][c].isFlagged
    ensures Exclusive(g) && !MineRevealed(g)
  {
  }
}
