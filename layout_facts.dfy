/**
 * What the grouped-block layout promises: which records are drawn and where, that
 * the cells of a block do not overlap, that the cursor separates the blocks, and
 * that groups outside the fixed order play no part.
 */
module LayoutFacts {
  import opened HexColor
  import opened ColorScale
  import opened Grouping
  import opened Layout

  /** A block of `rows` rows has room for `i` exactly when `i`'s column is below `cols`. */
  lemma ColumnBelow(i: nat, cols: nat, rows: nat)
    requires rows > 0
    ensures i < cols * rows <==> i / rows < cols
  {
    var q := i / rows;
    assert i == q * rows + i % rows;
    MulMonotone(cols, q, rows);
    MulMonotone(q + 1, cols, rows);
    assert (q + 1) * rows == q * rows + rows;
  }

  /**
   * Record `i` of a group is drawn exactly when it is within the block's capacity;
   * its metric `m` is then the cell at column `i / rows`, row `i % rows`, in metric
   * order, coloured by the metric's value.
   */
  lemma RecordDrawn(species: seq<Record>, cols: nat, rows: nat, x0: int, i: nat, m: nat)
    requires i < |species| && m < 3
    ensures 3 * i + m < |BlockCells(species, cols, rows, x0)| <==> i < cols * rows
    ensures i < cols * rows ==>
      rows > 0
      && BlockCells(species, cols, rows, x0)[3 * i + m]
         == Cell(x0 + (i / rows) * COLUMN_STRIDE + m * CELL_WIDTH, MARGIN_Y + (i % rows) * CELL_HEIGHT,
                 ZToColor(species[i].Values()[m]))
  {
    assert (3 * i + m) / 3 == i && (3 * i + m) % 3 == m;
  }

  /** No record at or past the group's length, or past the block's capacity, is drawn. */
  lemma NothingPastTheEnd(species: seq<Record>, cols: nat, rows: nat, x0: int, i: nat)
    requires i >= |species| || i >= cols * rows
    ensures |BlockCells(species, cols, rows, x0)| <= 3 * i
  {
  }

  /** Entry `k` of a block is the cell at the grid position of record `k / 3`, metric `k % 3`. */
  lemma BlockCellAt(species: seq<Record>, cols: nat, rows: nat, x0: int, k: nat)
    requires k < |BlockCells(species, cols, rows, x0)|
    ensures rows > 0 && k / 3 < |species|
    ensures var c := BlockCells(species, cols, rows, x0)[k];
      c.x == x0 + (k / 3 / rows) * COLUMN_STRIDE + (k % 3) * CELL_WIDTH
      && c.y == MARGIN_Y + (k / 3 % rows) * CELL_HEIGHT
  {
  }

  /** A grid position inside `cols` x `rows` lies inside the block's extent. */
  lemma GridWithin(x0: int, cols: int, rows: int, col: int, row: int, m: int, c: Cell)
    requires 0 <= col < cols && 0 <= row < rows && 0 <= m < 3
    requires c.x == x0 + col * COLUMN_STRIDE + m * CELL_WIDTH && c.y == MARGIN_Y + row * CELL_HEIGHT
    ensures x0 <= c.x && c.x + CELL_WIDTH + 6 <= x0 + cols * COLUMN_STRIDE
    ensures MARGIN_Y <= c.y && c.y + CELL_HEIGHT <= MARGIN_Y + rows * CELL_HEIGHT
  {
    MulMonotone(col, cols - 1, COLUMN_STRIDE);
    MulMonotone(row, rows - 1, CELL_HEIGHT);
  }

  /** Every cell of a block lies inside the block's `cols` columns and `rows` rows. */
  lemma CellWithinBlock(species: seq<Record>, cols: nat, rows: nat, x0: int, k: nat)
    requires k < |BlockCells(species, cols, rows, x0)|
    ensures var c := BlockCells(species, cols, rows, x0)[k];
      x0 <= c.x && c.x + CELL_WIDTH + 6 <= x0 + cols * COLUMN_STRIDE
      && MARGIN_Y <= c.y && c.y + CELL_HEIGHT <= MARGIN_Y + rows * CELL_HEIGHT
  {
    BlockCellAt(species, cols, rows, x0, k);
    assert k / 3 < cols * rows;
    ColumnBelow(k / 3, cols, rows);
    GridWithin(x0, cols, rows, k / 3 / rows, k / 3 % rows, k % 3, BlockCells(species, cols, rows, x0)[k]);
  }

  /** Two cells at different (column, row, metric) grid positions do not overlap. */
  lemma GridApart(x0: int, col1: int, row1: int, m1: int, col2: int, row2: int, m2: int, c1: Cell, c2: Cell)
    requires 0 <= m1 < 3 && 0 <= m2 < 3
    requires col1 != col2 || row1 != row2 || m1 != m2
    requires c1.x == x0 + col1 * COLUMN_STRIDE + m1 * CELL_WIDTH && c1.y == MARGIN_Y + row1 * CELL_HEIGHT
    requires c2.x == x0 + col2 * COLUMN_STRIDE + m2 * CELL_WIDTH && c2.y == MARGIN_Y + row2 * CELL_HEIGHT
    ensures Apart(c1, c2)
  {
  }

  /** An index is determined by its column and row. */
  lemma SamePlaceSameIndex(i1: nat, i2: nat, rows: nat)
    requires rows > 0
    ensures i1 / rows == i2 / rows && i1 % rows == i2 % rows ==> i1 == i2
  {
    assert i1 == (i1 / rows) * rows + i1 % rows;
    assert i2 == (i2 / rows) * rows + i2 % rows;
  }

  /** Two different entries of a block sit at different grid positions or metrics. */
  lemma PlacesDiffer(k1: nat, k2: nat, rows: nat)
    requires k1 != k2 && rows > 0
    ensures k1 / 3 / rows != k2 / 3 / rows || k1 / 3 % rows != k2 / 3 % rows || k1 % 3 != k2 % 3
  {
    SamePlaceSameIndex(k1 / 3, k2 / 3, rows);
  }

  /** Two different cells of one block do not overlap. */
  lemma CellsApart(species: seq<Record>, cols: nat, rows: nat, x0: int, k1: nat, k2: nat)
    requires k1 < k2 < |BlockCells(species, cols, rows, x0)|
    ensures Apart(BlockCells(species, cols, rows, x0)[k1], BlockCells(species, cols, rows, x0)[k2])
  {
    BlockCellAt(species, cols, rows, x0, k1);
    BlockCellAt(species, cols, rows, x0, k2);
    PlacesDiffer(k1, k2, rows);
    var cells := BlockCells(species, cols, rows, x0);
    GridApart(x0, k1 / 3 / rows, k1 / 3 % rows, k1 % 3, k2 / 3 / rows, k2 / 3 % rows, k2 % 3, cells[k1], cells[k2]);
  }

  /** The first drawn block starts at the left margin. */
  lemma FirstBlockAtMargin(gs: seq<string>)
    requires LaidOut(gs) && |gs| > 0
    ensures Blocks(gs)[0].x == MARGIN_X
  {
  }

  /** After block `j` the cursor has moved past it by its group's advance. */
  lemma CursorStep(gs: seq<string>, j: nat)
    requires LaidOut(gs) && j < |gs|
    ensures Blocks(gs)[j].x + Advance(gs[j]) == MARGIN_X + TotalAdvance(gs[..j + 1])
    ensures j + 1 < |gs| ==> Blocks(gs)[j + 1].x == Blocks(gs)[j].x + Advance(gs[j])
  {
    assert gs[..j + 1][..j] == gs[..j];
  }

  /** The cursor left by the group loop is one advance past the last drawn block. */
  lemma FinalCursor(gs: seq<string>)
    requires LaidOut(gs) && |gs| > 0
    ensures MARGIN_X + TotalAdvance(gs) == Blocks(gs)[|gs| - 1].x + Advance(gs[|gs| - 1])
  {
    CursorStep(gs, |gs| - 1);
    assert gs[..|gs|] == gs;
  }

  /** A later block starts at or after the end of an earlier block's advance. */
  lemma {:induction false} BlocksIncreasing(gs: seq<string>, j: nat, k: nat)
    requires LaidOut(gs) && j < k < |gs|
    ensures Blocks(gs)[j].x + Advance(gs[j]) <= Blocks(gs)[k].x
    decreases k - j
  {
    CursorStep(gs, k - 1);
    if j < k - 1 {
      BlocksIncreasing(gs, j, k - 1);
    }
  }

  /** Every cell of an earlier drawn block lies strictly left of every cell of a later one. */
  lemma BlocksSeparated(grouped: map<string, seq<Record>>, j: nat, k: nat, a: nat, b: nat)
    requires j < k < |DrawnGroups(grouped)|
    requires a < |CellsOf(grouped, Blocks(DrawnGroups(grouped))[j])|
    requires b < |CellsOf(grouped, Blocks(DrawnGroups(grouped))[k])|
    ensures CellsOf(grouped, Blocks(DrawnGroups(grouped))[j])[a].x + CELL_WIDTH
            < CellsOf(grouped, Blocks(DrawnGroups(grouped))[k])[b].x
  {
    var gs := DrawnGroups(grouped);
    var bj, bk := Blocks(gs)[j], Blocks(gs)[k];
    CellWithinBlock(grouped[bj.group], GROUP_LAYOUT[bj.group].0, GROUP_LAYOUT[bj.group].1, bj.x, a);
    CellWithinBlock(grouped[bk.group], GROUP_LAYOUT[bk.group].0, GROUP_LAYOUT[bk.group].1, bk.x, b);
    BlocksIncreasing(gs, j, k);
  }

  /** A group outside `order` does not change which groups of `order` are present. */
  lemma {:induction false} PresentIgnores(order: seq<string>, grouped: map<string, seq<Record>>, g: string, species: seq<Record>)
    requires g !in order
    ensures Present(order, grouped[g := species]) == Present(order, grouped)
  {
    if order != [] {
      PresentIgnores(order[..|order| - 1], grouped, g, species);
    }
  }

  /** The cells of blocks that do not show group `g` do not depend on `g`'s bucket. */
  lemma {:induction false} AllCellsIgnores(grouped: map<string, seq<Record>>, blocks: seq<Block>, g: string, species: seq<Record>)
    requires Drawable(grouped, blocks)
    requires forall k | 0 <= k < |blocks| :: blocks[k].group != g
    ensures Drawable(grouped[g := species], blocks)
    ensures AllCells(grouped[g := species], blocks) == AllCells(grouped, blocks)
  {
    if blocks != [] {
      AllCellsIgnores(grouped, blocks[..|blocks| - 1], g, species);
    }
  }

  /**
   * A group outside the fixed order is ignored: adding, replacing or extending its
   * bucket changes neither the drawn groups nor any drawn cell.
   */
  lemma UnknownGroupIgnored(grouped: map<string, seq<Record>>, g: string, species: seq<Record>)
    requires g !in GROUP_ORDER
    ensures DrawnGroups(grouped[g := species]) == DrawnGroups(grouped)
    ensures AllCells(grouped[g := species], Blocks(DrawnGroups(grouped))) == AllCells(grouped, Blocks(DrawnGroups(grouped)))
  {
    PresentIgnores(GROUP_ORDER, grouped, g, species);
    AllCellsIgnores(grouped, Blocks(DrawnGroups(grouped)), g, species);
  }

  /**
   * A 2 x 30 block of 61 records: record 29 ends column 0, record 30 starts column 1,
   * and record 60 does not fit.
   */
  lemma ColumnMajorExample(species: seq<Record>, x0: int)
    requires |species| == 61
    ensures |BlockCells(species, 2, 30, x0)| == 3 * 60
    ensures BlockCells(species, 2, 30, x0)[3 * 29].x == x0
    ensures BlockCells(species, 2, 30, x0)[3 * 29].y == MARGIN_Y + 29 * CELL_HEIGHT
    ensures BlockCells(species, 2, 30, x0)[3 * 30 + 2].x == x0 + COLUMN_STRIDE + 2 * CELL_WIDTH
    ensures BlockCells(species, 2, 30, x0)[3 * 30 + 2].y == MARGIN_Y
  {
    assert Placed(61, 2, 30) == 60;
    RecordDrawn(species, 2, 30, x0, 29, 0);
    assert 29 / 30 == 0 && 29 % 30 == 29;
    RecordDrawn(species, 2, 30, x0, 30, 2);
    assert 30 / 30 == 1 && 30 % 30 == 0;
  }

  /** A lone record with metrics 0, -2 and 2 is drawn as a mid, a low and a high cell. */
  lemma SingleRecordBlock(r: Record)
    requires r.rootToTip == 0.0 && r.meanDist == -2.0 && r.closestBact == 2.0
    ensures BlockCells([r], 2, 35, MARGIN_X)
      == [Cell(50, 120, MID_COLOR), Cell(62, 120, LOW_COLOR), Cell(74, 120, HIGH_COLOR)]
  {
    var cells := BlockCells([r], 2, 35, MARGIN_X);
    RecordDrawn([r], 2, 35, MARGIN_X, 0, 0);
    RecordDrawn([r], 2, 35, MARGIN_X, 0, 1);
    RecordDrawn([r], 2, 35, MARGIN_X, 0, 2);
  }
}
