// Conway's Game of Life on a life grid that is block-partitioned over a grid of processes
// (life.c). Process r owns one tile of RowSize × ColSize cells, stored row-major in a flat
// array; a generation is computed tile by tile from the tile and a one-cell ring around it.

module Life {
  import opened Powers

  // ---------------------------------------------------------------------------
  // Checking the command line

  /** `Proc_valid`: 1 when the processes fill the row × col process grid exactly, 0 otherwise. */
  function ProcValid(procs: int, row: int, col: int): (valid: int)
    ensures valid == 0 || valid == 1
    ensures valid == 1 <==> procs == row * col
  {
    if procs != row * col then 0 else 1
  }

  /** `Life_valid`: 1 when the life grid cuts into whole tiles of the sizes `main` computes
      (l_row / p_row by l_col / p_col), 0 otherwise. */
  function LifeValid(pRow: int, pCol: int, lRow: int, lCol: int): (valid: int)
    requires pRow != 0 && pCol != 0
    ensures valid == 0 || valid == 1
    ensures valid == 1 <==> lRow == (lRow / pRow) * pRow && lCol == (lCol / pCol) * pCol
  {
    if lRow % pRow == 0 && lCol % pCol == 0 then 1 else 0
  }

  /** The p_row × p_col process grid and the l_row × l_col life grid of the command line. */
  datatype Layout = Layout(pRow: int, pCol: int, lRow: int, lCol: int)

  /** A layout the program works with: positive process-grid sides, a life grid that is not
      negative, and `Life_valid`. */
  predicate Valid(L: Layout)
  {
    L.pRow > 0 && L.pCol > 0 && L.lRow >= 0 && L.lCol >= 0 && LifeValid(L.pRow, L.pCol, L.lRow, L.lCol) == 1
  }

  function Procs(L: Layout): int
  {
    L.pRow * L.pCol
  }

  /** `local_row_size`. */
  function RowSize(L: Layout): int
    requires L.pRow > 0
  {
    L.lRow / L.pRow
  }

  /** `local_col_size`. */
  function ColSize(L: Layout): int
    requires L.pCol > 0
  {
    L.lCol / L.pCol
  }

  /** `local_size`, the number of cells of a tile. */
  function LocalSize(L: Layout): int
    requires L.pRow > 0 && L.pCol > 0
  {
    RowSize(L) * ColSize(L)
  }

  /** Under a valid layout the tiles fit the life grid exactly: p_row tiles of RowSize rows
      stack to l_row rows, p_col tiles of ColSize columns to l_col columns, and the tiles of
      all processes hold as many cells as the grid. */
  lemma TileSizes(L: Layout)
    requires Valid(L)
    ensures 0 <= RowSize(L) && 0 <= ColSize(L)
    ensures RowSize(L) * L.pRow == L.lRow && ColSize(L) * L.pCol == L.lCol
    ensures L.lRow > 0 ==> RowSize(L) > 0
    ensures L.lCol > 0 ==> ColSize(L) > 0
  {
  }

  /** Row-major position (i, j) of a rows × cols grid: in range, and quotient and remainder by
      cols recover it. */
  lemma FlatIndex(rows: int, cols: int, i: int, j: int)
    requires 0 <= i < rows && 0 <= j < cols
    ensures 0 <= i * cols + j < rows * cols
    ensures (i * cols + j) / cols == i && (i * cols + j) % cols == j
  {
    DivUnique(i * cols + j, cols, i, j);
    MulMonotone(0, i, cols);
    MulMonotone(i + 1, rows, cols);
  }

  // ---------------------------------------------------------------------------
  // Ranks and their places in the process grid

  /** `a = rank / p_col`: the process-grid row of a rank. */
  function RowOf(L: Layout, r: int): int
    requires L.pCol > 0
  {
    r / L.pCol
  }

  /** `b = rank % p_col`: the process-grid column of a rank. */
  function ColOf(L: Layout, r: int): int
    requires L.pCol > 0
  {
    r % L.pCol
  }

  /** `partner = row * p_col + col`: the rank at a place of the process grid. */
  function RankAt(L: Layout, row: int, col: int): int
  {
    row * L.pCol + col
  }

  /** Every rank has a place in the process grid, and that place leads back to the rank. */
  lemma RankToPlace(L: Layout, r: int)
    requires Valid(L) && 0 <= r < Procs(L)
    ensures 0 <= RowOf(L, r) < L.pRow && 0 <= ColOf(L, r) < L.pCol
    ensures RankAt(L, RowOf(L, r), ColOf(L, r)) == r
  {
    if RowOf(L, r) >= L.pRow {
      MulMonotone(L.pRow, RowOf(L, r), L.pCol);
    }
  }

  /** Every place of the process grid holds a rank, whose place it is. */
  lemma PlaceToRank(L: Layout, row: int, col: int)
    requires Valid(L) && 0 <= row < L.pRow && 0 <= col < L.pCol
    ensures 0 <= RankAt(L, row, col) < Procs(L)
    ensures RowOf(L, RankAt(L, row, col)) == row && ColOf(L, RankAt(L, row, col)) == col
  {
    FlatIndex(L.pRow, L.pCol, row, col);
  }

  /** Ranks whose places differ by at most one step in each direction, the rank itself left
      out: the processes a tile exchanges its border with. */
  predicate IsNeighbour(L: Layout, r: int, p: int)
    requires L.pCol > 0
  {
    0 <= p < Procs(L) && p != r &&
    -1 <= RowOf(L, p) - RowOf(L, r) <= 1 && -1 <= ColOf(L, p) - ColOf(L, r) <= 1
  }

  /** How many of the offsets -1 .. d - 1 move x to a place in [0, n). */
  function SpanUpTo(x: int, n: int, d: int): (s: int)
    requires -1 <= d <= 2
    ensures 0 <= s <= d + 1
    decreases d + 1
  {
    if d == -1 then 0 else SpanUpTo(x, n, d - 1) + (if 0 <= x + d - 1 < n then 1 else 0)
  }

  /** How many of x - 1, x, x + 1 lie in [0, n). */
  function Span(x: int, n: int): int
  {
    SpanUpTo(x, n, 2)
  }

  /** In a line of n >= 2 places, the two ends see 2 of the places x - 1 .. x + 1 and the places
      between see 3; a line of one place sees only itself. */
  lemma SpanIs(x: int, n: int)
    requires 0 <= x < n
    ensures Span(x, n) == if n == 1 then 1 else if x == 0 || x == n - 1 then 2 else 3
  {
  }

  /** The number of neighbours of a rank: the places of the 3 × 3 block around it that lie in
      the process grid, its own left out. */
  function NeighbourCount(L: Layout, rank: int): int
    requires L.pCol > 0
  {
    Span(RowOf(L, rank), L.pRow) * Span(ColOf(L, rank), L.pCol) - 1
  }

  /** On a process grid of at least 2 × 2, a corner rank has 3 neighbours, a rank on an edge 5
      and a rank inside 8. */
  lemma NeighbourCounts(L: Layout, rank: int)
    requires Valid(L) && 0 <= rank < Procs(L) && L.pRow >= 2 && L.pCol >= 2
    ensures var a, b := RowOf(L, rank), ColOf(L, rank);
      var rowEdge, colEdge := a == 0 || a == L.pRow - 1, b == 0 || b == L.pCol - 1;
      NeighbourCount(L, rank) == if rowEdge && colEdge then 3 else if rowEdge || colEdge then 5 else 8
  {
    RankToPlace(L, rank);
    SpanIs(RowOf(L, rank), L.pRow);
    SpanIs(ColOf(L, rank), L.pCol);
  }

  /** The partner loop of `Neighbors`: the offsets (l, k) in -1..1 × -1..1 around the rank's
      place, dropping the places outside the process grid and the rank's own. The partners
      are exactly the neighbours of the rank, each listed once, so there are NeighbourCount
      of them. */
  method Partners(L: Layout, rank: int) returns (partners: seq<int>)
    requires Valid(L) && 0 <= rank < Procs(L)
    ensures forall p :: p in partners <==> IsNeighbour(L, rank, p)
    ensures forall x, y :: 0 <= x < y < |partners| ==> partners[x] != partners[y]
    ensures |partners| == NeighbourCount(L, rank)
  {
    var a := rank / L.pCol;
    var b := rank % L.pCol;
    RankToPlace(L, rank);
    partners := [];
    var k := -1;
    while k <= 1
      invariant -1 <= k <= 2
      invariant forall p :: p in partners <==> IsNeighbour(L, rank, p) && ColOf(L, p) - b < k
      invariant forall x, y :: 0 <= x < y < |partners| ==> partners[x] != partners[y]
      invariant |partners| == SpanUpTo(b, L.pCol, k) * Span(a, L.pRow) - (if k > 0 then 1 else 0)
    {
      ghost var cols, rows := SpanUpTo(b, L.pCol, k), Span(a, L.pRow);
      partners := PartnerColumn(L, rank, k, partners);
      if 0 <= b + k < L.pCol {
        assert SpanUpTo(b, L.pCol, k + 1) == cols + 1;
        assert (cols + 1) * rows == cols * rows + rows;
      } else {
        assert SpanUpTo(b, L.pCol, k + 1) == cols;
      }
      k := k + 1;
    }
  }

  /** The inner loop of the partner loop: the offsets (l, k) for l in -1..1, one column of the
      3 × 3 block around the rank. */
  method PartnerColumn(L: Layout, rank: int, k: int, partners0: seq<int>) returns (partners: seq<int>)
    requires Valid(L) && 0 <= rank < Procs(L) && -1 <= k <= 1
    requires forall p :: p in partners0 <==> IsNeighbour(L, rank, p) && ColOf(L, p) - ColOf(L, rank) < k
    requires forall x, y :: 0 <= x < y < |partners0| ==> partners0[x] != partners0[y]
    ensures forall p :: p in partners <==> IsNeighbour(L, rank, p) && ColOf(L, p) - ColOf(L, rank) < k + 1
    ensures forall x, y :: 0 <= x < y < |partners| ==> partners[x] != partners[y]
    ensures |partners| == |partners0| + (if 0 <= ColOf(L, rank) + k < L.pCol then Span(RowOf(L, rank), L.pRow) else 0)
      - (if k == 0 then 1 else 0)
  {
    var a := rank / L.pCol;
    var b := rank % L.pCol;
    RankToPlace(L, rank);
    var inCol := 0 <= b + k < L.pCol;
    partners := partners0;
    var l := -1;
    while l <= 1
      invariant -1 <= l <= 2
      invariant forall p :: p in partners <==>
        IsNeighbour(L, rank, p) && (ColOf(L, p) - b < k || (ColOf(L, p) - b == k && RowOf(L, p) - a < l))
      invariant forall x, y :: 0 <= x < y < |partners| ==> partners[x] != partners[y]
      invariant |partners| == |partners0| + (if inCol then SpanUpTo(a, L.pRow, l) else 0)
        - (if k == 0 && l > 0 then 1 else 0)
    {
      var row := a + l;
      var col := b + k;
      PartnerCandidate(L, rank, l, k);
      if 0 <= row < L.pRow && 0 <= col < L.pCol && !(l == 0 && k == 0) {
        var partner := row * L.pCol + col;
        assert partner !in partners;
        partners := partners + [partner];
      }
      l := l + 1;
    }
  }

  /** The place at offset (l, k) is a neighbour exactly when it lies in the process grid and is
      not the rank's own, and then its rank is the only neighbour there. */
  lemma PartnerCandidate(L: Layout, rank: int, l: int, k: int)
    requires Valid(L) && 0 <= rank < Procs(L)
    requires -1 <= l <= 1 && -1 <= k <= 1
    ensures var row, col := RowOf(L, rank) + l, ColOf(L, rank) + k;
      (0 <= row < L.pRow && 0 <= col < L.pCol && !(l == 0 && k == 0)) ==>
        IsNeighbour(L, rank, RankAt(L, row, col)) &&
        RowOf(L, RankAt(L, row, col)) == row && ColOf(L, RankAt(L, row, col)) == col
    ensures forall p :: IsNeighbour(L, rank, p) && RowOf(L, p) == RowOf(L, rank) + l && ColOf(L, p) == ColOf(L, rank) + k ==>
      0 <= RowOf(L, rank) + l < L.pRow && 0 <= ColOf(L, rank) + k < L.pCol && !(l == 0 && k == 0) &&
      p == RankAt(L, RowOf(L, rank) + l, ColOf(L, rank) + k)
  {
    RankToPlace(L, rank);
    var row, col := RowOf(L, rank) + l, ColOf(L, rank) + k;
    if 0 <= row < L.pRow && 0 <= col < L.pCol {
      PlaceToRank(L, row, col);
    }
    forall p | IsNeighbour(L, rank, p) && RowOf(L, p) == row && ColOf(L, p) == col
      ensures 0 <= row < L.pRow && 0 <= col < L.pCol && !(l == 0 && k == 0) && p == RankAt(L, row, col)
    {
      RankToPlace(L, p);
    }
  }

  /** The test of the partner loop as written: a place is skipped only when a coordinate is
      negative or greater than the process-grid side. */
  predicate PartnerTestAsWritten(L: Layout, row: int, col: int)
  {
    !(row < 0 || col < 0 || row > L.pRow || col > L.pCol)
  }

  /** The test as written lets through the place just below a rank of the bottom process-grid
      row, and the partner computed there is no neighbour: it is not even a rank. */
  lemma PartnerTestAsWrittenAdmitsOutside(L: Layout, r: int)
    requires Valid(L) && 0 <= r < Procs(L) && RowOf(L, r) == L.pRow - 1
    ensures PartnerTestAsWritten(L, RowOf(L, r) + 1, ColOf(L, r))
    ensures RankAt(L, RowOf(L, r) + 1, ColOf(L, r)) >= Procs(L)
    ensures !IsNeighbour(L, r, RankAt(L, RowOf(L, r) + 1, ColOf(L, r)))
  {
    RankToPlace(L, r);
  }

  // ---------------------------------------------------------------------------
  // The block decomposition of `Split`

  /** A cell (row i, column j) of the life grid. */
  datatype Cell = Cell(i: int, j: int)

  predicate InGrid(L: Layout, c: Cell)
  {
    0 <= c.i < L.lRow && 0 <= c.j < L.lCol
  }

  /** `n = i * l_col + j`: where a cell sits in the flat life array. */
  function GridIndex(L: Layout, c: Cell): (n: int)
    requires InGrid(L, c)
    ensures 0 <= n < L.lRow * L.lCol
  {
    FlatIndex(L.lRow, L.lCol, c.i, c.j);
    c.i * L.lCol + c.j
  }

  /** The cell at position n of the flat life array. */
  function CellAt(L: Layout, n: int): (c: Cell)
    requires 0 <= n < L.lRow * L.lCol && L.lCol >= 0
    ensures InGrid(L, c) && GridIndex(L, c) == n
  {
    assert L.lCol > 0;
    var c := Cell(n / L.lCol, n % L.lCol);
    assert c.i < L.lRow by {
      if c.i >= L.lRow {
        MulMonotone(L.lRow, c.i, L.lCol);
      }
    }
    c
  }

  /** `dest = (i / local_row_size) * p_col + j / local_col_size`: the rank that owns a cell. */
  function Dest(L: Layout, c: Cell): int
    requires Valid(L) && InGrid(L, c)
  {
    TileSizes(L);
    RankAt(L, c.i / RowSize(L), c.j / ColSize(L))
  }

  /** Where a cell sits in the row-major scan of its tile. */
  function Slot(L: Layout, c: Cell): int
    requires Valid(L) && InGrid(L, c)
  {
    TileSizes(L);
    (c.i % RowSize(L)) * ColSize(L) + c.j % ColSize(L)
  }

  /** The first row of rank r's tile. */
  function Top(L: Layout, r: int): int
    requires L.pRow > 0 && L.pCol > 0
  {
    RowOf(L, r) * RowSize(L)
  }

  /** The first column of rank r's tile. */
  function Left(L: Layout, r: int): int
    requires L.pRow > 0 && L.pCol > 0
  {
    ColOf(L, r) * ColSize(L)
  }

  /** Rank r's tile lies inside the life grid. */
  lemma TileInGrid(L: Layout, r: int)
    requires Valid(L) && 0 <= r < Procs(L)
    ensures 0 <= Top(L, r) && Top(L, r) + RowSize(L) <= L.lRow
    ensures 0 <= Left(L, r) && Left(L, r) + ColSize(L) <= L.lCol
  {
    TileSizes(L);
    RankToPlace(L, r);
    MulMonotone(0, RowOf(L, r), RowSize(L));
    MulMonotone(RowOf(L, r) + 1, L.pRow, RowSize(L));
    MulMonotone(0, ColOf(L, r), ColSize(L));
    MulMonotone(ColOf(L, r) + 1, L.pCol, ColSize(L));
  }

  /** A quotient by a positive divisor d is q exactly on the d values from q * d on. */
  lemma QuotientIs(x: int, d: int, q: int)
    requires d > 0
    ensures x / d == q <==> q * d <= x < q * d + d
  {
    if q * d <= x < q * d + d {
      DivUnique(x, d, q, x - q * d);
    }
  }

  /** Row i of a rows × cols row-major grid spans positions i * cols up to i * cols + cols. */
  lemma RowSpan(rows: int, cols: int, i: int)
    requires 0 <= i < rows && 0 <= cols
    ensures 0 <= i * cols && i * cols + cols == (i + 1) * cols <= rows * cols
  {
    MulMonotone(0, i, cols);
    MulMonotone(i + 1, rows, cols);
  }

  /** Element k of rank r's tile: the tile is scanned row by row, so it is the cell
      (Top + k / ColSize, Left + k % ColSize). */
  function TileCell(L: Layout, r: int, k: int): (c: Cell)
    requires Valid(L) && 0 <= r < Procs(L) && 0 <= k < LocalSize(L)
    ensures InGrid(L, c)
    ensures Top(L, r) <= c.i < Top(L, r) + RowSize(L) && Left(L, r) <= c.j < Left(L, r) + ColSize(L)
  {
    TileSizes(L);
    TileInGrid(L, r);
    FlatPlace(RowSize(L), ColSize(L), k);
    Cell(Top(L, r) + k / ColSize(L), Left(L, r) + k % ColSize(L))
  }

  /** Position k of a rows × cols row-major grid is in row k / cols and column k % cols. */
  lemma FlatPlace(rows: int, cols: int, k: int)
    requires 0 <= rows && 0 <= cols && 0 <= k < rows * cols
    ensures 0 < cols && 0 <= k / cols < rows && 0 <= k % cols < cols
  {
    assert cols != 0;
    if k / cols >= rows {
      MulMonotone(rows, k / cols, cols);
    }
  }

  /** Row a, column b of rank r's tile is its element a * ColSize + b. */
  lemma TileCellAt(L: Layout, r: int, a: int, b: int)
    requires Valid(L) && 0 <= r < Procs(L) && 0 <= a < RowSize(L) && 0 <= b < ColSize(L)
    ensures 0 <= a * ColSize(L) + b < LocalSize(L)
    ensures TileCell(L, r, a * ColSize(L) + b) == Cell(Top(L, r) + a, Left(L, r) + b)
  {
    FlatIndex(RowSize(L), ColSize(L), a, b);
  }

  /** A cell belongs to rank r exactly when it lies in r's rows and r's columns. */
  lemma DestIs(L: Layout, r: int, c: Cell)
    requires Valid(L) && 0 <= r < Procs(L) && InGrid(L, c)
    ensures Dest(L, c) == r <==>
      Top(L, r) <= c.i < Top(L, r) + RowSize(L) && Left(L, r) <= c.j < Left(L, r) + ColSize(L)
  {
    TileSizes(L);
    RankToPlace(L, r);
    CellPlace(L, c);
    RankToPlace(L, Dest(L, c));
    QuotientIs(c.i, RowSize(L), RowOf(L, r));
    QuotientIs(c.j, ColSize(L), ColOf(L, r));
  }

  /** Every cell is element Slot of the tile of its owner Dest, which sits in process-grid row
      i / RowSize and column j / ColSize. */
  lemma CellPlace(L: Layout, c: Cell)
    requires Valid(L) && InGrid(L, c)
    ensures 0 <= Dest(L, c) < Procs(L) && 0 <= Slot(L, c) < LocalSize(L)
    ensures RowOf(L, Dest(L, c)) == c.i / RowSize(L) && ColOf(L, Dest(L, c)) == c.j / ColSize(L)
    ensures TileCell(L, Dest(L, c), Slot(L, c)) == c
  {
    TileSizes(L);
    var lrs, lcs := RowSize(L), ColSize(L);
    var tr, tc := c.i / lrs, c.j / lcs;
    if tr >= L.pRow {
      MulMonotone(L.pRow, tr, lrs);
    }
    if tc >= L.pCol {
      MulMonotone(L.pCol, tc, lcs);
    }
    PlaceToRank(L, tr, tc);
    TileCellAt(L, Dest(L, c), c.i % lrs, c.j % lcs);
  }

  /** Element k of rank r's tile is a cell that `Split` sends to r, and its slot is k. */
  lemma TileCellOwner(L: Layout, r: int, k: int)
    requires Valid(L) && 0 <= r < Procs(L) && 0 <= k < LocalSize(L)
    ensures Dest(L, TileCell(L, r, k)) == r && Slot(L, TileCell(L, r, k)) == k
  {
    TileSizes(L);
    RankToPlace(L, r);
    var c := TileCell(L, r, k);
    DestIs(L, r, c);
    var q, s := k / ColSize(L), k % ColSize(L);
    DivUnique(c.i, RowSize(L), RowOf(L, r), q);
    DivUnique(c.j, ColSize(L), ColOf(L, r), s);
  }

  /** What rank r holds after the decomposition: its cells in row-major order. */
  function Tile(L: Layout, g: seq<int>, r: int): (t: seq<int>)
    requires Valid(L) && |g| == L.lRow * L.lCol && 0 <= r < Procs(L)
    ensures |t| == LocalSize(L)
  {
    TileSizes(L);
    seq(LocalSize(L), k requires 0 <= k < LocalSize(L) => g[GridIndex(L, TileCell(L, r, k))])
  }

  function Clamp(x: int, m: int): int
  {
    if x < 0 then 0 else if x > m then m else x
  }

  /** How many of rank r's cells the row-major scan of the life grid meets before cell (i, j):
      the whole rows of r's tile above row i, and the part of row i left of column j. */
  function Received(L: Layout, r: int, i: int, j: int): int
    requires L.pRow > 0 && L.pCol > 0
  {
    var top, left := Top(L, r), Left(L, r);
    Clamp(i - top, RowSize(L)) * ColSize(L) +
    (if top <= i < top + RowSize(L) then Clamp(j - left, ColSize(L)) else 0)
  }

  /** The scan has met between none and all of rank r's cells. */
  lemma ReceivedBound(L: Layout, r: int, i: int, j: int)
    requires Valid(L) && 0 <= r < Procs(L)
    ensures 0 <= Received(L, r, i, j) <= LocalSize(L)
  {
    TileSizes(L);
    var top, lrs, lcs := Top(L, r), RowSize(L), ColSize(L);
    var a := Clamp(i - top, lrs);
    MulMonotone(0, a, lcs);
    if top <= i < top + lrs {
      MulMonotone(a + 1, lrs, lcs);
      assert a * lcs + lcs == (a + 1) * lcs;
    } else {
      MulMonotone(a, lrs, lcs);
    }
  }

  /** One cell of the scan: a cell of rank r is the next element of r's tile; any other cell
      leaves r's count alone. */
  lemma SplitCellStep(L: Layout, r: int, c: Cell)
    requires Valid(L) && 0 <= r < Procs(L) && InGrid(L, c)
    ensures Dest(L, c) == r ==>
      Received(L, r, c.i, c.j) < LocalSize(L) && TileCell(L, r, Received(L, r, c.i, c.j)) == c &&
      Received(L, r, c.i, c.j + 1) == Received(L, r, c.i, c.j) + 1
    ensures Dest(L, c) != r ==> Received(L, r, c.i, c.j + 1) == Received(L, r, c.i, c.j)
  {
    TileSizes(L);
    TileInGrid(L, r);
    DestIs(L, r, c);
    var top, left := Top(L, r), Left(L, r);
    if Dest(L, c) == r {
      TileCellAt(L, r, c.i - top, c.j - left);
      assert Received(L, r, c.i, c.j) == (c.i - top) * ColSize(L) + (c.j - left);
    }
  }

  /** The scan moves from the end of row i to the start of row i + 1 without meeting a cell. */
  lemma SplitRowStep(L: Layout, r: int, i: int)
    requires Valid(L) && 0 <= r < Procs(L) && 0 <= i
    ensures Received(L, r, i, L.lCol) == Received(L, r, i + 1, 0)
  {
    TileSizes(L);
    TileInGrid(L, r);
    var top := Top(L, r);
    if top <= i < top + RowSize(L) {
      assert (i - top) * ColSize(L) + ColSize(L) == (i + 1 - top) * ColSize(L);
    }
  }

  /** The scan meets all of rank r's cells and no others: LocalSize of them. */
  lemma SplitScanEnds(L: Layout, r: int)
    requires Valid(L) && 0 <= r < Procs(L)
    ensures Received(L, r, 0, 0) == 0
    ensures Received(L, r, L.lRow, 0) == LocalSize(L)
  {
    TileSizes(L);
    TileInGrid(L, r);
  }

  /** `Split` as seen by rank `rank`: the life grid is scanned row by row and every cell whose
      destination is `rank` is stored at the next free place of the local array. Rank 0 stores
      its own cells so; every other rank receives, in the same order, the cells rank 0 sends
      it. The local array ends up holding exactly the rank's tile, and the count reaches the
      tile size. */
  method Split(L: Layout, rank: int, life: array<int>, local: array<int>) returns (count: int)
    requires Valid(L) && 0 <= rank < Procs(L)
    requires life.Length >= L.lRow * L.lCol && local.Length == LocalSize(L) && life != local
    modifies local
    ensures count == LocalSize(L)
    ensures local[..] == Tile(L, life[..L.lRow * L.lCol], rank)
  {
    ghost var g := life[..L.lRow * L.lCol];
    ghost var tile := Tile(L, g, rank);
    SplitScanEnds(L, rank);
    count := 0;
    var i := 0;
    while i < L.lRow
      invariant 0 <= i <= L.lRow && life[..L.lRow * L.lCol] == g
      invariant count == Received(L, rank, i, 0) <= LocalSize(L)
      invariant forall k :: 0 <= k < count ==> local[k] == tile[k]
    {
      count := SplitRow(L, rank, life, local, i, count, g, tile);
      ReceivedBound(L, rank, i + 1, 0);
      i := i + 1;
    }
    assert local[..] == tile;
  }

  /** The inner loop of `Split`: one row of the life grid. */
  method SplitRow(L: Layout, rank: int, life: array<int>, local: array<int>, i: int, count0: int,
                  ghost g: seq<int>, ghost tile: seq<int>)
    returns (count: int)
    requires Valid(L) && 0 <= rank < Procs(L) && 0 <= i < L.lRow
    requires life.Length >= L.lRow * L.lCol && local.Length == LocalSize(L) && life != local
    requires life[..L.lRow * L.lCol] == g && tile == Tile(L, g, rank)
    requires count0 == Received(L, rank, i, 0) <= LocalSize(L)
    requires forall k :: 0 <= k < count0 ==> local[k] == tile[k]
    modifies local
    ensures count == Received(L, rank, i + 1, 0) <= LocalSize(L)
    ensures forall k :: 0 <= k < count ==> local[k] == tile[k]
  {
    TileSizes(L);
    var localRowSize, localColSize := L.lRow / L.pRow, L.lCol / L.pCol;
    count := count0;
    var j := 0;
    while j < L.lCol
      invariant 0 <= j <= L.lCol
      invariant count == Received(L, rank, i, j) <= LocalSize(L)
      invariant forall k :: 0 <= k < count ==> local[k] == tile[k]
    {
      var tempR := i / localRowSize;
      var tempC := j / localColSize;
      var dest := tempR * L.pCol + tempC;
      var n := i * L.lCol + j;
      SplitCellStep(L, rank, Cell(i, j));
      assert dest == Dest(L, Cell(i, j)) && n == GridIndex(L, Cell(i, j));
      if dest == rank {
        local[count] := life[n];
        count := count + 1;
      }
      j := j + 1;
    }
    SplitRowStep(L, rank, i);
    ReceivedBound(L, rank, i + 1, 0);
  }

  // ---------------------------------------------------------------------------
  // Reassembly: the inverse of `Split`

  /** Tiles of the right number and size, one per rank. */
  predicate TilesFit(L: Layout, tiles: seq<seq<int>>)
    requires L.pRow > 0 && L.pCol > 0
  {
    |tiles| == Procs(L) && forall r :: 0 <= r < |tiles| ==> |tiles[r]| == LocalSize(L)
  }

  /** The life grid that puts every tile back at its block: each cell is read from its owner's
      tile at its slot. */
  function Assembled(L: Layout, tiles: seq<seq<int>>): (g: seq<int>)
    requires Valid(L) && TilesFit(L, tiles)
    ensures |g| == L.lRow * L.lCol
  {
    seq(L.lRow * L.lCol, n requires 0 <= n < L.lRow * L.lCol =>
      CellPlace(L, CellAt(L, n));
      tiles[Dest(L, CellAt(L, n))][Slot(L, CellAt(L, n))])
  }

  /** The assembled grid holds at each cell the owner's tile entry at the cell's slot. */
  lemma AssembledAt(L: Layout, tiles: seq<seq<int>>, c: Cell)
    requires Valid(L) && TilesFit(L, tiles) && InGrid(L, c)
    ensures 0 <= Dest(L, c) < Procs(L) && 0 <= Slot(L, c) < LocalSize(L)
    ensures Assembled(L, tiles)[GridIndex(L, c)] == tiles[Dest(L, c)][Slot(L, c)]
  {
    CellPlace(L, c);
    FlatIndex(L.lRow, L.lCol, c.i, c.j);
    assert CellAt(L, GridIndex(L, c)) == c;
  }

  /** Decomposing a grid and reassembling the tiles gives the grid back. */
  lemma SplitThenAssemble(L: Layout, g: seq<int>)
    requires Valid(L) && |g| == L.lRow * L.lCol
    ensures Assembled(L, seq(Procs(L), r requires 0 <= r < Procs(L) => Tile(L, g, r))) == g
  {
    var tiles := seq(Procs(L), r requires 0 <= r < Procs(L) => Tile(L, g, r));
    forall n | 0 <= n < |g|
      ensures Assembled(L, tiles)[n] == g[n]
    {
      var c := CellAt(L, n);
      AssembledAt(L, tiles, c);
      CellPlace(L, c);
      var r, k := Dest(L, c), Slot(L, c);
      calc {
        Assembled(L, tiles)[n];
        tiles[r][k];
        Tile(L, g, r)[k];
        g[GridIndex(L, TileCell(L, r, k))];
        g[n];
      }
    }
  }

  /** Assembling tiles and decomposing the grid gives every rank its tile back. */
  lemma AssembleThenSplit(L: Layout, tiles: seq<seq<int>>, r: int)
    requires Valid(L) && TilesFit(L, tiles) && 0 <= r < Procs(L)
    ensures Tile(L, Assembled(L, tiles), r) == tiles[r]
  {
    forall k | 0 <= k < LocalSize(L)
      ensures Tile(L, Assembled(L, tiles), r)[k] == tiles[r][k]
    {
      var c := TileCell(L, r, k);
      TileCellOwner(L, r, k);
      AssembledAt(L, tiles, c);
    }
  }

  /** `Join` as it is meant to work: rank 0 writes every cell of the life grid from the tile of
      the rank that owns it, so the grid becomes the assembly of the tiles. */
  method Join(L: Layout, tiles: seq<seq<int>>, life: array<int>)
    requires Valid(L) && TilesFit(L, tiles) && life.Length >= L.lRow * L.lCol
    modifies life
    ensures life[..L.lRow * L.lCol] == Assembled(L, tiles)
    ensures life[L.lRow * L.lCol..] == old(life[L.lRow * L.lCol..])
  {
    ghost var grid := Assembled(L, tiles);
    var i := 0;
    while i < L.lRow
      invariant 0 <= i <= L.lRow
      invariant 0 <= i * L.lCol <= L.lRow * L.lCol
      invariant forall n :: 0 <= n < i * L.lCol ==> life[n] == grid[n]
      invariant forall n :: L.lRow * L.lCol <= n < life.Length ==> life[n] == old(life[n])
    {
      RowSpan(L.lRow, L.lCol, i);
      JoinRow(L, tiles, life, i, grid);
      i := i + 1;
    }
    assert life[..L.lRow * L.lCol] == grid;
  }

  /** The inner loop of `Join`: row i of the life grid. */
  method JoinRow(L: Layout, tiles: seq<seq<int>>, life: array<int>, i: int, ghost grid: seq<int>)
    requires Valid(L) && TilesFit(L, tiles) && life.Length >= L.lRow * L.lCol && 0 <= i < L.lRow
    requires grid == Assembled(L, tiles) && 0 <= i * L.lCol && i * L.lCol + L.lCol <= L.lRow * L.lCol
    requires forall n :: 0 <= n < i * L.lCol ==> life[n] == grid[n]
    modifies life
    ensures forall n :: 0 <= n < i * L.lCol + L.lCol ==> life[n] == grid[n]
    ensures forall n :: L.lRow * L.lCol <= n < life.Length ==> life[n] == old(life[n])
  {
    var j := 0;
    while j < L.lCol
      invariant 0 <= j <= L.lCol
      invariant forall n :: 0 <= n < i * L.lCol + j ==> life[n] == grid[n]
      invariant forall n :: L.lRow * L.lCol <= n < life.Length ==> life[n] == old(life[n])
    {
      var c := Cell(i, j);
      AssembledAt(L, tiles, c);
      var n := i * L.lCol + j;
      life[n] := tiles[Dest(L, c)][Slot(L, c)];
      j := j + 1;
    }
  }

  // ---------------------------------------------------------------------------
  // One generation

  /** `Neighbors`' rule for one cell: a live cell (1) with fewer than 2 or more than 3 live
      neighbours dies, otherwise it lives on; any other cell comes alive with exactly 3. */
  function Rule(cell: int, count: int): (next: int)
    ensures next == 0 || next == 1
    ensures cell == 1 ==> (next == 1 <==> 2 <= count <= 3)
    ensures cell != 1 ==> (next == 1 <==> count == 3)
  {
    if cell == 1 then (if count < 2 || count > 3 then 0 else 1)
    else (if count == 3 then 1 else 0)
  }

  /** A value counts as a live neighbour when it is 1. */
  function Live(v: int): int
  {
    if v == 1 then 1 else 0
  }

  /** The sum of f over the offsets (dl, k) with dl < l, the cell's own offset (0, 0) left
      out: the inner counting loop. */
  function Column(f: (int, int) -> int, k: int, l: int): int
    requires -1 <= l
    decreases l
  {
    if l == -1 then 0
    else Column(f, k, l - 1) + (if l - 1 == 0 && k == 0 then 0 else f(l - 1, k))
  }

  /** The sum of f over the offsets (dl, dk) with dk < k: the outer counting loop. */
  function Block(f: (int, int) -> int, k: int): int
    requires -1 <= k
    decreases k
  {
    if k == -1 then 0 else Block(f, k - 1) + Column(f, k - 1, 2)
  }

  /** The sum of f over the 8 offsets around a cell. */
  function Around(f: (int, int) -> int): int
  {
    Block(f, 2)
  }

  lemma {:induction false} ColumnSame(f: (int, int) -> int, f': (int, int) -> int, k: int, l: int)
    requires -1 <= l <= 2 && -1 <= k <= 1
    requires forall dl, dk :: -1 <= dl <= 1 && -1 <= dk <= 1 ==> f(dl, dk) == f'(dl, dk)
    ensures Column(f, k, l) == Column(f', k, l)
    decreases l
  {
    if l > -1 {
      ColumnSame(f, f', k, l - 1);
    }
  }

  /** Two functions that agree on the offsets around a cell give the same count. */
  lemma {:induction false} AroundSame(f: (int, int) -> int, f': (int, int) -> int)
    requires forall dl, dk :: -1 <= dl <= 1 && -1 <= dk <= 1 ==> f(dl, dk) == f'(dl, dk)
    ensures Around(f) == Around(f')
  {
    ColumnSame(f, f', -1, 2);
    ColumnSame(f, f', 0, 2);
    ColumnSame(f, f', 1, 2);
  }

  /** The halo of a tile with `rows` × `cols` cells: the tile inside a one-cell ring, stored
      row-major in (rows + 2) × (cols + 2) cells. Tile cell (i, j) sits at (i + 1, j + 1). */
  function HaloLive(halo: seq<int>, rows: int, cols: int, i: int, j: int): (int, int) -> int
  {
    (dl: int, dk: int) => HaloAt(halo, rows + 2, cols + 2, i + 1 + dl, j + 1 + dk)
  }

  /** Liveness of cell (row, col) of a halo `h` × `w` cells large; outside it, dead. */
  function HaloAt(halo: seq<int>, h: int, w: int, row: int, col: int): int
  {
    if 0 <= row < h && 0 <= col < w && 0 <= row * w + col < |halo| then Live(halo[row * w + col]) else 0
  }

  /** The next generation of a tile, computed from its halo into a separate buffer. */
  function NextTile(rows: int, cols: int, t: seq<int>, halo: seq<int>): (next: seq<int>)
    requires 0 <= rows && 0 <= cols && |t| == rows * cols
    ensures |next| == |t|
  {
    seq(|t|, x requires 0 <= x < |t| => Rule(t[x], Around(HaloLive(halo, rows, cols, x / cols, x % cols))))
  }

  /** The counting loops of `Neighbors` for tile cell (i, j), over its 8 neighbours in the
      halo. */
  method CountLive(halo: seq<int>, rows: int, cols: int, i: int, j: int) returns (count: int)
    requires 0 <= rows && 0 <= cols && |halo| == (rows + 2) * (cols + 2)
    ensures count == Around(HaloLive(halo, rows, cols, i, j))
  {
    count := 0;
    var k := -1;
    while k <= 1
      invariant -1 <= k <= 2
      invariant count == Block(HaloLive(halo, rows, cols, i, j), k)
    {
      var column := CountColumn(halo, rows, cols, i, j, k);
      count := count + column;
      k := k + 1;
    }
  }

  /** The inner counting loop of `Neighbors`: the neighbours in column j + k of the halo. */
  method CountColumn(halo: seq<int>, rows: int, cols: int, i: int, j: int, k: int) returns (count: int)
    requires 0 <= rows && 0 <= cols && |halo| == (rows + 2) * (cols + 2) && -1 <= k <= 1
    ensures count == Column(HaloLive(halo, rows, cols, i, j), k, 2)
  {
    ghost var f := HaloLive(halo, rows, cols, i, j);
    var new1, new2 := rows + 2, cols + 2;
    count := 0;
    var l := -1;
    while l <= 1
      invariant -1 <= l <= 2
      invariant count == Column(f, k, l)
    {
      var row, col := i + 1 + l, j + 1 + k;
      var live := 0;
      if 0 <= row < new1 && 0 <= col < new2 {
        FlatIndex(new1, new2, row, col);
        if halo[row * new2 + col] == 1 {
          live := 1;
        }
      }
      assert live == HaloAt(halo, new1, new2, row, col);
      if !(l == 0 && k == 0) {
        count := count + live;
      }
      l := l + 1;
    }
  }

  /** Entry i * cols + j of the next tile: the rule at tile cell (i, j). */
  lemma NextTileAt(rows: int, cols: int, t: seq<int>, halo: seq<int>, i: int, j: int)
    requires 0 <= rows && 0 <= cols && |t| == rows * cols && 0 <= i < rows && 0 <= j < cols
    ensures 0 <= i * cols + j < |t|
    ensures NextTile(rows, cols, t, halo)[i * cols + j] == Rule(t[i * cols + j], Around(HaloLive(halo, rows, cols, i, j)))
  {
    FlatIndex(rows, cols, i, j);
  }

  /** `Neighbors` as it is meant to work: every cell of the rows × cols tile gets the rule
      applied to it and to the live count of its 8 neighbours in the halo, written into a
      separate buffer. */
  method Neighbors(rows: int, cols: int, local: array<int>, halo: seq<int>, next: array<int>)
    requires 0 <= rows && 0 <= cols && |halo| == (rows + 2) * (cols + 2)
    requires local.Length == rows * cols && next.Length == rows * cols && local != next
    modifies next
    ensures next[..] == NextTile(rows, cols, local[..], halo)
  {
    ghost var spec := NextTile(rows, cols, local[..], halo);
    var i := 0;
    while i < rows
      invariant 0 <= i <= rows && local[..] == old(local[..])
      invariant 0 <= i * cols <= rows * cols
      invariant forall x :: 0 <= x < i * cols ==> next[x] == spec[x]
    {
      RowSpan(rows, cols, i);
      NeighborsRow(rows, cols, local, halo, next, i, spec);
      i := i + 1;
    }
    assert next[..] == spec;
  }

  /** The loop over row i of the tile. */
  method NeighborsRow(rows: int, cols: int, local: array<int>, halo: seq<int>, next: array<int>, i: int,
                      ghost spec: seq<int>)
    requires 0 <= rows && 0 <= cols && |halo| == (rows + 2) * (cols + 2) && 0 <= i < rows
    requires local.Length == rows * cols && next.Length == rows * cols && local != next
    requires spec == NextTile(rows, cols, local[..], halo)
    requires 0 <= i * cols && i * cols + cols <= rows * cols
    requires forall x :: 0 <= x < i * cols ==> next[x] == spec[x]
    modifies next
    ensures forall x :: 0 <= x < i * cols + cols ==> next[x] == spec[x]
  {
    var base := i * cols;
    var j := 0;
    while j < cols
      invariant 0 <= j <= cols
      invariant forall x :: 0 <= x < base + j ==> next[x] == spec[x]
    {
      NextTileAt(rows, cols, local[..], halo, i, j);
      var x := base + j;
      var count := CountLive(halo, rows, cols, i, j);
      ghost var want := Rule(local[x], count);
      assert want == spec[x];
      if local[x] == 1 {
        if count < 2 || count > 3 {
          next[x] := 0;
        } else {
          next[x] := 1;
        }
      } else {
        if count == 3 {
          next[x] := 1;
        } else {
          next[x] := 0;
        }
      }
      assert next[x] == want;
      j := j + 1;
    }
  }

  /** A tile with no live cell and no live cell in its ring stays without live cells. */
  lemma AllDeadStaysDead(rows: int, cols: int, t: seq<int>, halo: seq<int>)
    requires 0 <= rows && 0 <= cols && |t| == rows * cols
    requires forall x :: 0 <= x < |t| ==> t[x] != 1
    requires forall h :: 0 <= h < |halo| ==> halo[h] != 1
    ensures forall x :: 0 <= x < |t| ==> NextTile(rows, cols, t, halo)[x] == 0
  {
    var none := (dl: int, dk: int) => 0;
    forall x | 0 <= x < |t|
      ensures NextTile(rows, cols, t, halo)[x] == 0
    {
      var f := HaloLive(halo, rows, cols, x / cols, x % cols);
      forall dl, dk | -1 <= dl <= 1 && -1 <= dk <= 1
        ensures f(dl, dk) == none(dl, dk)
      {
        var row, col := x / cols + 1 + dl, x % cols + 1 + dk;
        assert f(dl, dk) == HaloAt(halo, rows + 2, cols + 2, row, col);
        if 0 <= row < rows + 2 && 0 <= col < cols + 2 && 0 <= row * (cols + 2) + col < |halo| {
          assert halo[row * (cols + 2) + col] != 1;
        }
      }
      AroundSame(f, none);
      assert Around(none) == 0;
    }
  }

  // ---------------------------------------------------------------------------
  // The whole grid: the distributed generation is the global one

  /** The state of a cell of the life grid; cells outside the grid are dead. */
  function CellState(L: Layout, g: seq<int>, i: int, j: int): int
    requires |g| == L.lRow * L.lCol
  {
    if 0 <= i < L.lRow && 0 <= j < L.lCol then g[GridIndex(L, Cell(i, j))] else 0
  }

  /** The halo of rank r's tile, as the border exchange is meant to deliver it: ring cells
      outside the life grid are dead. */
  function Halo(L: Layout, g: seq<int>, r: int): (halo: seq<int>)
    requires Valid(L) && |g| == L.lRow * L.lCol
    ensures |halo| == (RowSize(L) + 2) * (ColSize(L) + 2)
  {
    TileSizes(L);
    var w := ColSize(L) + 2;
    seq((RowSize(L) + 2) * w, x requires 0 <= x < (RowSize(L) + 2) * w =>
      CellState(L, g, Top(L, r) + x / w - 1, Left(L, r) + x % w - 1))
  }

  /** Liveness around a cell of the life grid. */
  function GridLive(L: Layout, g: seq<int>, c: Cell): (int, int) -> int
    requires |g| == L.lRow * L.lCol
  {
    (dl: int, dk: int) => Live(CellState(L, g, c.i + dl, c.j + dk))
  }

  /** The next generation of the whole life grid, cells outside it counting as dead. */
  function NextGrid(L: Layout, g: seq<int>): (next: seq<int>)
    requires Valid(L) && |g| == L.lRow * L.lCol
    ensures |next| == |g|
  {
    seq(|g|, n requires 0 <= n < |g| => Rule(g[n], Around(GridLive(L, g, CellAt(L, n)))))
  }

  /** Cell (row, col) of rank r's halo is the life-grid cell one up and one left of tile
      cell (row, col), dead outside the grid. */
  lemma HaloCell(L: Layout, g: seq<int>, r: int, row: int, col: int)
    requires Valid(L) && |g| == L.lRow * L.lCol && 0 <= r < Procs(L)
    requires 0 <= row < RowSize(L) + 2 && 0 <= col < ColSize(L) + 2
    ensures HaloAt(Halo(L, g, r), RowSize(L) + 2, ColSize(L) + 2, row, col)
         == Live(CellState(L, g, Top(L, r) + row - 1, Left(L, r) + col - 1))
  {
    FlatIndex(RowSize(L) + 2, ColSize(L) + 2, row, col);
  }

  /** A quotient by d of a value one step outside the block q * d .. q * d + d - 1 is the
      neighbouring block's. */
  lemma QuotientNear(x: int, d: int, q: int)
    requires d > 0 && q * d - 1 <= x <= q * d + d
    ensures x / d == if x < q * d then q - 1 else if x < q * d + d then q else q + 1
  {
    if x < q * d {
      QuotientIs(x, d, q - 1);
    } else if x < q * d + d {
      QuotientIs(x, d, q);
    } else {
      QuotientIs(x, d, q + 1);
    }
  }

  /** Every cell of rank r's halo ring that lies in the life grid belongs to a neighbour of r:
      the ring is filled from the partners of the partner loop, and only from them. */
  lemma HaloFromNeighbours(L: Layout, r: int, row: int, col: int)
    requires Valid(L) && 0 <= r < Procs(L)
    requires 0 <= row < RowSize(L) + 2 && 0 <= col < ColSize(L) + 2
    requires row == 0 || row == RowSize(L) + 1 || col == 0 || col == ColSize(L) + 1
    requires InGrid(L, Cell(Top(L, r) + row - 1, Left(L, r) + col - 1))
    ensures IsNeighbour(L, r, Dest(L, Cell(Top(L, r) + row - 1, Left(L, r) + col - 1)))
  {
    var c := Cell(Top(L, r) + row - 1, Left(L, r) + col - 1);
    TileSizes(L);
    RankToPlace(L, r);
    CellPlace(L, c);
    DestIs(L, r, c);
    QuotientNear(c.i, RowSize(L), RowOf(L, r));
    QuotientNear(c.j, ColSize(L), ColOf(L, r));
  }

  /** Around tile cell (i, j) the halo shows what the life grid holds around the cell. */
  lemma HaloAgrees(L: Layout, g: seq<int>, r: int, k: int)
    requires Valid(L) && |g| == L.lRow * L.lCol && 0 <= r < Procs(L) && 0 <= k < LocalSize(L)
    ensures Around(HaloLive(Halo(L, g, r), RowSize(L), ColSize(L), k / ColSize(L), k % ColSize(L)))
         == Around(GridLive(L, g, TileCell(L, r, k)))
  {
    TileSizes(L);
    var rows, cols := RowSize(L), ColSize(L);
    assert cols > 0;
    var i, j := k / cols, k % cols;
    var c := TileCell(L, r, k);
    assert c == Cell(Top(L, r) + i, Left(L, r) + j);
    var f, f' := HaloLive(Halo(L, g, r), rows, cols, i, j), GridLive(L, g, c);
    forall dl, dk | -1 <= dl <= 1 && -1 <= dk <= 1
      ensures f(dl, dk) == f'(dl, dk)
    {
      HaloCell(L, g, r, i + 1 + dl, j + 1 + dk);
    }
    AroundSame(f, f');
  }

  /** A generation computed tile by tile, each tile from its halo, gives every rank the tile of
      the next generation of the whole life grid. */
  lemma TileStepIsGridStep(L: Layout, g: seq<int>, r: int)
    requires Valid(L) && |g| == L.lRow * L.lCol && 0 <= r < Procs(L)
    ensures NextTile(RowSize(L), ColSize(L), Tile(L, g, r), Halo(L, g, r)) == Tile(L, NextGrid(L, g), r)
  {
    TileSizes(L);
    forall k | 0 <= k < LocalSize(L)
      ensures NextTile(RowSize(L), ColSize(L), Tile(L, g, r), Halo(L, g, r))[k] == Tile(L, NextGrid(L, g), r)[k]
    {
      var c := TileCell(L, r, k);
      HaloAgrees(L, g, r, k);
      FlatIndex(L.lRow, L.lCol, c.i, c.j);
      assert CellAt(L, GridIndex(L, c)) == c;
    }
  }

  // ---------------------------------------------------------------------------
  // `Join` as written

  /** The value of one life-grid cell after the k loop of `Join` has stored temp[k], then
      temp[k + 1], and so on up to the last entry, into it; v is its value before. */
  function Overwritten(v: int, temp: seq<int>, k: nat): int
    decreases |temp| - k
  {
    if k >= |temp| then v else Overwritten(temp[k], temp, k + 1)
  }

  /** Each store replaces the one before, so the cell keeps the last entry of temp, or its old
      value when the loop does not run. */
  lemma {:induction false} OverwrittenLast(v: int, temp: seq<int>, k: nat)
    requires k <= |temp|
    ensures Overwritten(v, temp, k) == if k < |temp| then temp[|temp| - 1] else v
    decreases |temp| - k
  {
    if k < |temp| {
      OverwrittenLast(temp[k], temp, k + 1);
    }
  }

  /** The life array after `Join` as written: every cell of the l_row × l_col grid has gone
      through the k loop; the cells after it are untouched. */
  function JoinedAsWritten(life: seq<int>, temp: seq<int>, lRow: int, lCol: int): (grid: seq<int>)
    ensures |grid| == |life|
  {
    seq(|life|, n requires 0 <= n < |life| => if n < lRow * lCol then Overwritten(life[n], temp, 0) else life[n])
  }

  /** `Join` as written: for every cell n = i * l_col + j of the life grid, the k loop copies
      every entry of `temp_array` into life_array[n] in turn. Each cell ends up holding
      temp_array[local_size - 1]. */
  method JoinAsWritten(localSize: int, lRow: int, lCol: int, life: array<int>, temp: array<int>)
    requires 0 <= lRow && 0 <= lCol && lRow * lCol <= life.Length
    requires 0 <= localSize <= temp.Length && life != temp
    modifies life
    ensures life[..] == JoinedAsWritten(old(life[..]), temp[..localSize], lRow, lCol)
    ensures localSize > 0 ==> forall n :: 0 <= n < lRow * lCol ==> life[n] == temp[localSize - 1]
  {
    ghost var grid := JoinedAsWritten(life[..], temp[..localSize], lRow, lCol);
    var i := 0;
    while i < lRow
      invariant 0 <= i <= lRow
      invariant 0 <= i * lCol <= lRow * lCol
      invariant forall n :: 0 <= n < i * lCol ==> life[n] == grid[n]
      invariant forall n :: i * lCol <= n < life.Length ==> life[n] == old(life[n])
    {
      RowSpan(lRow, lCol, i);
      JoinAsWrittenRow(localSize, lRow, lCol, life, temp, i, grid);
      i := i + 1;
    }
    assert life[..] == grid;
    forall n | 0 <= n < lRow * lCol
      ensures localSize > 0 ==> life[n] == temp[localSize - 1]
    {
      OverwrittenLast(old(life[n]), temp[..localSize], 0);
    }
  }

  /** The j loop of `Join` as written: row i of the life grid. */
  method JoinAsWrittenRow(localSize: int, lRow: int, lCol: int, life: array<int>, temp: array<int>, i: int,
                          ghost grid: seq<int>)
    requires 0 <= lRow && 0 <= lCol && lRow * lCol <= life.Length
    requires 0 <= localSize <= temp.Length && life != temp
    requires 0 <= i * lCol && i * lCol + lCol <= lRow * lCol
    requires |grid| == life.Length
    requires forall n :: i * lCol <= n < i * lCol + lCol ==> grid[n] == Overwritten(life[n], temp[..localSize], 0)
    modifies life
    ensures forall n :: 0 <= n < life.Length && !(i * lCol <= n < i * lCol + lCol) ==> life[n] == old(life[n])
    ensures forall n :: i * lCol <= n < i * lCol + lCol ==> life[n] == grid[n]
  {
    var j := 0;
    while j < lCol
      invariant 0 <= j <= lCol
      invariant forall n :: 0 <= n < life.Length && !(i * lCol <= n < i * lCol + j) ==> life[n] == old(life[n])
      invariant forall n :: i * lCol <= n < i * lCol + j ==> life[n] == grid[n]
    {
      var n := i * lCol + j;
      CopyEntries(localSize, life, temp, n);
      j := j + 1;
    }
  }

  /** The k loop of `Join` as written: life_array[n] = temp_array[k] for every k < local_size. */
  method CopyEntries(localSize: int, life: array<int>, temp: array<int>, n: int)
    requires 0 <= n < life.Length && 0 <= localSize <= temp.Length && life != temp
    modifies life
    ensures life[n] == Overwritten(old(life[n]), temp[..localSize], 0)
    ensures forall x :: 0 <= x < life.Length && x != n ==> life[x] == old(life[x])
  {
    var k := 0;
    while k < localSize
      invariant 0 <= k <= localSize
      invariant Overwritten(life[n], temp[..localSize], k) == Overwritten(old(life[n]), temp[..localSize], 0)
      invariant forall x :: 0 <= x < life.Length && x != n ==> life[x] == old(life[x])
    {
      life[n] := temp[k];
      k := k + 1;
    }
  }

  /** Whatever rank 0's `temp_array` holds, `Join` as written gives every cell of the life
      grid the same value, so a grid with two different cells (such as [1, 0]) is not what
      comes back, although every rank sent its cells unchanged; reassembling the tiles, as
      the corrected `Join` does, gives the grid back. */
  lemma JoinAsWrittenLosesCells(L: Layout, g: seq<int>, temp: seq<int>, n: int, m: int)
    requires Valid(L) && |g| == L.lRow * L.lCol && |temp| > 0
    requires 0 <= n < |g| && 0 <= m < |g| && g[n] != g[m]
    ensures JoinedAsWritten(g, temp, L.lRow, L.lCol) != g
    ensures Assembled(L, seq(Procs(L), r requires 0 <= r < Procs(L) => Tile(L, g, r))) == g
  {
    var w := JoinedAsWritten(g, temp, L.lRow, L.lCol);
    OverwrittenLast(g[n], temp, 0);
    OverwrittenLast(g[m], temp, 0);
    assert w[n] == w[m];
    SplitThenAssemble(L, g);
  }
}
