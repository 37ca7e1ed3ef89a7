/** The fixed-size grid of cells and the row-major pass that refreshes every
    cell's neighbour count. The per-cell refresh has an empty body, so the
    pass visits every square once, in order, and changes nothing. */
module Boards {
  import opened Cells

  const HEIGHT: nat := 10
  const WIDTH: nat := 10

  /** A board position: `row` indexes the outer array, `col` the inner one. */
  datatype Index = Index(row: nat, col: nat)

  predicate InRange(x: Index) {
    x.row < HEIGHT && x.col < WIDTH
  }

  /** Strict row-major (lexicographic) order on positions. */
  predicate Precedes(x: Index, y: Index) {
    x.row < y.row || (x.row == y.row && x.col < y.col)
  }

  /** The grid, as `HEIGHT` rows of `WIDTH` cells. The source's array type
      fixes the shape; here `Valid` states it. */
  datatype Board = Board(cells: seq<seq<Cell>>) {
    predicate Valid() {
      && |cells| == HEIGHT
      && forall i :: 0 <= i < |cells| ==> |cells[i]| == WIDTH
    }
  }

  /** A board of fresh cells. */
  function New(): (b: Board)
    ensures b.Valid()
    ensures forall i, j :: 0 <= i < HEIGHT && 0 <= j < WIDTH ==> b.cells[i][j] == Cells.New()
  {
    Board(seq(HEIGHT, _ => seq(WIDTH, _ => Cells.New())))
  }

  /** Stores `c` at square (`i`, `j`), as a write through a mutable reference
      into the grid does. */
  function Put(b: Board, i: nat, j: nat, c: Cell): (r: Board)
    requires b.Valid() && i < HEIGHT && j < WIDTH
    ensures r.Valid()
    ensures r.cells[i][j] == c
    ensures forall i', j' :: 0 <= i' < HEIGHT && 0 <= j' < WIDTH && (i', j') != (i, j) ==>
              r.cells[i'][j'] == b.cells[i'][j']
  {
    Board(b.cells[i := b.cells[i][j := c]])
  }

  /** Writing back the value already at a square leaves the board as it was. */
  lemma PutSameIsIdentity(b: Board, i: nat, j: nat)
    requires b.Valid() && i < HEIGHT && j < WIDTH
    ensures Put(b, i, j, b.cells[i][j]) == b
  {
    assert b.cells[i][j := b.cells[i][j]] == b.cells[i];
    assert b.cells[i := b.cells[i]] == b.cells;
  }

  /** Switching one square on changes that square's liveness only: its count
      and every other square are unchanged. */
  lemma TurnOnChangesOnlyThatCell(b: Board, i: nat, j: nat)
    requires b.Valid() && i < HEIGHT && j < WIDTH
    ensures var r := Put(b, i, j, On(b.cells[i][j]));
      && r.Valid()
      && r.cells[i][j].live
      && r.cells[i][j].neighborCount == b.cells[i][j].neighborCount
      && forall i', j' :: 0 <= i' < HEIGHT && 0 <= j' < WIDTH && (i', j') != (i, j) ==>
           r.cells[i'][j'] == b.cells[i'][j']
  {
  }

  /** The per-square refresh. Its body is empty: it reads nothing, writes
      nothing and accepts any index. */
  function UpdateNeighborCount(b: Board, i: nat, j: nat): (r: Board)
    ensures r == b
  {
    b
  }

  /** The board after a per-square routine `f` has been called at each
      position of `calls`, first to last. */
  function Fold(f: (Board, nat, nat) -> Board, b: Board, calls: seq<Index>): (r: Board)
    decreases |calls|
  {
    if calls == [] then b
    else
      var last := calls[|calls| - 1];
      f(Fold(f, b, calls[..|calls| - 1]), last.row, last.col)
  }

  /** However many refreshes are made, at whatever positions, every cell keeps
      its liveness and its count. */
  lemma {:induction false} RefreshesLeaveBoard(b: Board, calls: seq<Index>)
    ensures Fold(UpdateNeighborCount, b, calls) == b
    decreases |calls|
  {
    if calls != [] {
      RefreshesLeaveBoard(b, calls[..|calls| - 1]);
    }
  }

  /** The positions of the grid listed row by row: position `k` of the list
      is row `k / WIDTH`, column `k % WIDTH`. */
  function RowMajor(): (s: seq<Index>) {
    seq(HEIGHT * WIDTH, k requires 0 <= k => Index(k / WIDTH, k % WIDTH))
  }

  /** A visiting order that stays in range, goes strictly forward in row-major
      order (so it repeats no square), and reaches every square. */
  predicate VisitsRowMajor(calls: seq<Index>) {
    && (forall k :: 0 <= k < |calls| ==> InRange(calls[k]))
    && (forall k, l :: 0 <= k < l < |calls| ==> Precedes(calls[k], calls[l]))
    && (forall i, j :: 0 <= i < HEIGHT && 0 <= j < WIDTH ==> Index(i, j) in calls)
  }

  /** Square (`i`, `j`) sits at position `i * WIDTH + j` of the row-major list. */
  lemma RowMajorAt(i: nat, j: nat)
    requires i < HEIGHT && j < WIDTH
    ensures i * WIDTH + j < |RowMajor()|
    ensures RowMajor()[i * WIDTH + j] == Index(i, j)
  {
  }

  /** The row-major list is in range, strictly increasing and complete. */
  lemma RowMajorVisits()
    ensures VisitsRowMajor(RowMajor())
  {
    var s := RowMajor();
    forall k, l | 0 <= k < l < |s|
      ensures Precedes(s[k], s[l])
    {
    }
    forall i, j | 0 <= i < HEIGHT && 0 <= j < WIDTH
      ensures Index(i, j) in s
    {
      RowMajorAt(i, j);
    }
  }

  /** No position occurs twice in a visiting order that goes strictly forward,
      so each square is visited exactly once. */
  lemma VisitsOnce(calls: seq<Index>, k: nat, l: nat)
    requires VisitsRowMajor(calls)
    requires k < |calls| && l < |calls| && calls[k] == calls[l]
    ensures k == l
  {
  }

  /** The nested loop of the refresh pass, over rows and then columns, for
      any per-square routine `f`: the result is `f` applied at every position
      of the row-major list, in that order, and at no other position. */
  method RowMajorPass(f: (Board, nat, nat) -> Board, b: Board) returns (r: Board)
    ensures r == Fold(f, b, RowMajor())
  {
    r := b;
    ghost var calls: seq<Index> := [];
    var i := 0;
    while i < HEIGHT
      invariant 0 <= i <= HEIGHT
      invariant |calls| == i * WIDTH
      invariant forall k :: 0 <= k < |calls| ==> calls[k] == RowMajor()[k]
      invariant r == Fold(f, b, calls)
    {
      var j := 0;
      while j < WIDTH
        invariant 0 <= j <= WIDTH
        invariant |calls| == i * WIDTH + j
        invariant forall k :: 0 <= k < |calls| ==> calls[k] == RowMajor()[k]
        invariant r == Fold(f, b, calls)
      {
        RowMajorAt(i, j);
        r := f(r, i, j);
        calls := calls + [Index(i, j)];
        j := j + 1;
      }
      i := i + 1;
    }
    assert calls == RowMajor();
  }

  /** The full refresh pass: the nested loop with the per-square refresh.
      It makes one call at each square, in row-major order, never out of
      range, and since each call changes nothing, the board comes back as
      it was. */
  method UpdateNeighborCounts(b: Board) returns (r: Board)
    ensures r == Fold(UpdateNeighborCount, b, RowMajor())
    ensures r == b
  {
    r := RowMajorPass(UpdateNeighborCount, b);
    RefreshesLeaveBoard(b, RowMajor());
  }

  /** The program's entry point, without its final print: on a fresh board it
      switches square (0, 1) on, writes 14 into that square's count, and runs
      the refresh pass. The square ends live with count 14, beyond any real
      neighbour count, and every other square is still fresh. */
  lemma EntryPointState()
    ensures var b0 := New();
      var b1 := Put(b0, 0, 1, On(b0.cells[0][1]));
      var b2 := Put(b1, 0, 1, WithNeighborCount(b1.cells[0][1], 14));
      var b3 := Fold(UpdateNeighborCount, b2, RowMajor());
      && b3.Valid()
      && b3.cells[0][1] == Cell(true, 14)
      && forall i, j :: 0 <= i < HEIGHT && 0 <= j < WIDTH && (i, j) != (0, 1) ==>
           b3.cells[i][j] == Cells.New()
  {
    var b0 := New();
    var b1 := Put(b0, 0, 1, On(b0.cells[0][1]));
    var b2 := Put(b1, 0, 1, WithNeighborCount(b1.cells[0][1], 14));
    RefreshesLeaveBoard(b2, RowMajor());
  }
}
