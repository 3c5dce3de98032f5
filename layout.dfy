/**
 * The grouped-block layout loop of Fig5_heatmap.py.
 *
 * Groups are visited in the fixed order BACT, PLANT, FUNGI, ALGAE; a group with no
 * records is skipped. Each drawn group gets a block of `cols` columns of `rows`
 * rows; record `i` of the group sits in column `i / rows`, row `i % rows`, and each
 * of its three metrics is one cell. A running cursor `current_x` moves right by the
 * block's width plus a fixed spacing after every drawn group.
 *
 * The loop writes SVG text; the model appends each filled rectangle as a `Cell` and
 * each group title position as a `Block`.
 */
module Layout {
  import opened HexColor
  import opened ColorScale
  import opened Grouping

  const CELL_WIDTH: int := 12
  const CELL_HEIGHT: int := 22
  const MARGIN_X: int := 50
  const MARGIN_Y: int := 120
  const BLOCK_SPACING: int := 80
  /** The width of one column of a block: three cells and six pixels of padding. */
  const COLUMN_STRIDE: int := CELL_WIDTH * 3 + 6

  const GROUP_ORDER: seq<string> := ["BACT", "PLANT", "FUNGI", "ALGAE"]

  /** `GROUP_LAYOUT`: (columns, rows) of each group's block. */
  const GROUP_LAYOUT: map<string, (nat, nat)> :=
    map["BACT" := (2, 35), "PLANT" := (2, 30), "FUNGI" := (2, 30), "ALGAE" := (1, 6)]

  /** A filled rectangle of CELL_WIDTH x CELL_HEIGHT at (x, y). */
  datatype Cell = Cell(x: int, y: int, color: Rgb)

  /** A drawn group and the cursor value at which its block (and its title) starts. */
  datatype Block = Block(group: string, x: int)

  function Min(a: nat, b: nat): nat
  {
    if a <= b then a else b
  }

  /** How many records of a group of `n` records a `cols` x `rows` block draws. */
  function Placed(n: nat, cols: nat, rows: nat): (p: nat)
    ensures p <= n && p <= cols * rows
    ensures p == n || p == cols * rows
  {
    Min(n, cols * rows)
  }

  /**
   * The cell of metric `m` of record `i` of a block starting at `x0`: the `m`-th of
   * the three cells of the record's column slot, in the record's row, coloured by
   * the metric's value.
   */
  function CellOf(species: seq<Record>, rows: nat, x0: int, i: nat, m: nat): (c: Cell)
    requires rows > 0 && i < |species| && m < 3
    ensures c.color == ZToColor(species[i].Values()[m]) && c.color.InByteRange()
    ensures x0 + m * CELL_WIDTH <= c.x
    ensures MARGIN_Y <= c.y <= MARGIN_Y + (rows - 1) * CELL_HEIGHT
  {
    var col, row := i / rows, i % rows;
    Cell(x0 + col * COLUMN_STRIDE + m * CELL_WIDTH, MARGIN_Y + row * CELL_HEIGHT, ZToColor(species[i].Values()[m]))
  }

  /**
   * What one block draws, by position: entry `3 * i + m` is metric `m` of record `i`,
   * for every record the block has room for.
   */
  function BlockCells(species: seq<Record>, cols: nat, rows: nat, x0: int): (cells: seq<Cell>)
    ensures |cells| == 3 * Placed(|species|, cols, rows)
  {
    var n := Placed(|species|, cols, rows);
    assert n > 0 ==> rows > 0;
    seq(3 * n, k requires 0 <= k < 3 * n => CellOf(species, rows, x0, k / 3, k % 3))
  }

  lemma MulMonotone(a: int, b: int, c: nat)
    ensures a <= b ==> a * c <= b * c
  {
  }

  /** Column-major flattening: index `col * rows + row` is column `col`, row `row`. */
  lemma FlatIndex(col: nat, rows: nat, row: nat)
    requires row < rows
    ensures (col * rows + row) / rows == col && (col * rows + row) % rows == row
  {
    var i := col * rows + row;
    var q, r := i / rows, i % rows;
    assert i == q * rows + r;
    MulMonotone(col + 1, q, rows);
    MulMonotone(q + 1, col, rows);
    assert (col + 1) * rows == col * rows + rows;
    assert (q + 1) * rows == q * rows + rows;
  }

  /** The cells `DrawBlock` has emitted so far are the first ones of the block. */
  ghost predicate EmittedPrefix(species: seq<Record>, rows: nat, x0: int, cells: seq<Cell>)
  {
    forall k | 0 <= k < |cells| ::
      rows > 0 && k / 3 < |species| && cells[k] == CellOf(species, rows, x0, k / 3, k % 3)
  }

  /** Emitting metric `m` of the record at column `col`, row `row` extends the emitted prefix. */
  lemma EmitCell(species: seq<Record>, rows: nat, x0: int, cells: seq<Cell>, col: nat, row: nat, m: nat)
    requires row < rows && col * rows + row < |species| && m < 3
    requires |cells| == 3 * (col * rows + row) + m
    requires EmittedPrefix(species, rows, x0, cells)
    ensures EmittedPrefix(species, rows, x0, cells + [Cell(x0 + col * COLUMN_STRIDE + m * CELL_WIDTH,
      MARGIN_Y + row * CELL_HEIGHT, ZToColor(species[col * rows + row].Values()[m]))])
  {
    var index := col * rows + row;
    FlatIndex(col, rows, row);
    assert (3 * index + m) / 3 == index && (3 * index + m) % 3 == m;
  }

  /** The column, row and metric loops of one group's block. */
  method DrawBlock(species: seq<Record>, cols: nat, rows: nat, x0: int) returns (cells: seq<Cell>)
    ensures cells == BlockCells(species, cols, rows, x0)
  {
    cells := [];
    for col := 0 to cols
      invariant |cells| == 3 * Min(|species|, col * rows)
      invariant EmittedPrefix(species, rows, x0, cells)
    {
      var xBase := x0 + col * COLUMN_STRIDE;
      for rowI := 0 to rows
        invariant |cells| == 3 * Min(|species|, col * rows + rowI)
        invariant EmittedPrefix(species, rows, x0, cells)
      {
        var index := col * rows + rowI;
        if index >= |species| {
          continue;
        }
        var y := MARGIN_Y + rowI * CELL_HEIGHT;
        var vals := species[index].Values();
        FlatIndex(col, rows, rowI);
        for m := 0 to 3
          invariant |cells| == 3 * index + m
          invariant EmittedPrefix(species, rows, x0, cells)
        {
          var color := ZToColor(vals[m]);
          var x := xBase + m * CELL_WIDTH;
          EmitCell(species, rows, x0, cells, col, rowI, m);
          cells := cells + [Cell(x, y, color)];
        }
      }
      assert col * rows + rows == (col + 1) * rows;
    }
    assert |cells| == |BlockCells(species, cols, rows, x0)|;
  }

  /** Every group named in `gs` has an entry in `GROUP_LAYOUT`. */
  predicate LaidOut(gs: seq<string>)
  {
    forall k | 0 <= k < |gs| :: gs[k] in GROUP_LAYOUT
  }

  /** The groups of `order` that have records, kept in the order of `order`. */
  function Present(order: seq<string>, grouped: map<string, seq<Record>>): (p: seq<string>)
    ensures forall g :: g in p <==> g in order && g in grouped
    ensures |p| <= |order|
  {
    if order == [] then []
    else
      var earlier := Present(order[..|order| - 1], grouped);
      var g := order[|order| - 1];
      assert forall h :: h in order <==> h in order[..|order| - 1] || h == g;
      if g in grouped then earlier + [g] else earlier
  }

  /** Every group of the fixed order has a block shape. */
  lemma OrderLaidOut()
    ensures forall g | g in GROUP_ORDER :: g in GROUP_LAYOUT
  {
  }

  /** The groups the figure draws, left to right. */
  function DrawnGroups(grouped: map<string, seq<Record>>): (drawn: seq<string>)
    ensures forall g :: g in drawn <==> g in GROUP_ORDER && g in grouped
    ensures LaidOut(drawn)
    ensures forall k | 0 <= k < |drawn| :: drawn[k] in grouped
  {
    OrderLaidOut();
    Present(GROUP_ORDER, grouped)
  }

  /** How far `current_x` moves after drawing group `g`. */
  function Advance(g: string): (step: int)
    requires g in GROUP_LAYOUT
    ensures step >= COLUMN_STRIDE + BLOCK_SPACING
  {
    GROUP_LAYOUT[g].0 * COLUMN_STRIDE + BLOCK_SPACING
  }

  /** The sum of the advances of the groups `gs`. */
  function TotalAdvance(gs: seq<string>): int
    requires LaidOut(gs)
  {
    if gs == [] then 0 else TotalAdvance(gs[..|gs| - 1]) + Advance(gs[|gs| - 1])
  }

  /** The block of each drawn group: it starts where the advances of the earlier ones end. */
  function Blocks(gs: seq<string>): (blocks: seq<Block>)
    requires LaidOut(gs)
    ensures |blocks| == |gs|
    ensures forall j | 0 <= j < |gs| :: blocks[j].group == gs[j]
  {
    seq(|gs|, j requires 0 <= j < |gs| => Block(gs[j], MARGIN_X + TotalAdvance(gs[..j])))
  }

  /** Every block names a group that has records and a layout. */
  predicate Drawable(grouped: map<string, seq<Record>>, blocks: seq<Block>)
  {
    forall k | 0 <= k < |blocks| :: blocks[k].group in grouped && blocks[k].group in GROUP_LAYOUT
  }

  /** Two cells overlap in no point of their interiors. */
  predicate Apart(c1: Cell, c2: Cell)
  {
    c1.x + CELL_WIDTH <= c2.x || c2.x + CELL_WIDTH <= c1.x
    || c1.y + CELL_HEIGHT <= c2.y || c2.y + CELL_HEIGHT <= c1.y
  }

  /** The cells of one block, laid out with its group's shape. */
  function CellsOf(grouped: map<string, seq<Record>>, b: Block): seq<Cell>
    requires b.group in grouped && b.group in GROUP_LAYOUT
  {
    BlockCells(grouped[b.group], GROUP_LAYOUT[b.group].0, GROUP_LAYOUT[b.group].1, b.x)
  }

  /** The cells of all blocks, in drawing order. */
  function AllCells(grouped: map<string, seq<Record>>, blocks: seq<Block>): seq<Cell>
    requires Drawable(grouped, blocks)
  {
    if blocks == [] then []
    else AllCells(grouped, blocks[..|blocks| - 1]) + CellsOf(grouped, blocks[|blocks| - 1])
  }

  lemma PresentSnoc(order: seq<string>, grouped: map<string, seq<Record>>, g: string)
    ensures Present(order + [g], grouped) == if g in grouped then Present(order, grouped) + [g] else Present(order, grouped)
  {
    assert (order + [g])[..|order|] == order;
  }

  lemma BlocksSnoc(gs: seq<string>, g: string)
    requires LaidOut(gs) && g in GROUP_LAYOUT
    ensures LaidOut(gs + [g])
    ensures Blocks(gs + [g]) == Blocks(gs) + [Block(g, MARGIN_X + TotalAdvance(gs))]
    ensures TotalAdvance(gs + [g]) == TotalAdvance(gs) + Advance(g)
  {
    var gs' := gs + [g];
    assert gs'[..|gs|] == gs;
    forall j | 0 <= j < |gs|
      ensures gs'[..j] == gs[..j]
    {
    }
  }

  lemma AllCellsSnoc(grouped: map<string, seq<Record>>, blocks: seq<Block>, b: Block)
    requires Drawable(grouped, blocks) && b.group in grouped && b.group in GROUP_LAYOUT
    ensures Drawable(grouped, blocks + [b])
    ensures AllCells(grouped, blocks + [b]) == AllCells(grouped, blocks) + CellsOf(grouped, b)
  {
    assert (blocks + [b])[..|blocks|] == blocks;
  }

  /** The state of the group loop after visiting the groups `done`. */
  ghost predicate DrewAfter(grouped: map<string, seq<Record>>, done: seq<string>, blocks: seq<Block>, cells: seq<Cell>, cursor: int)
  {
    var drawn := Present(done, grouped);
    LaidOut(drawn)
    && blocks == Blocks(drawn)
    && Drawable(grouped, blocks) && cells == AllCells(grouped, blocks)
    && cursor == MARGIN_X + TotalAdvance(drawn)
  }

  /** One iteration of the group loop keeps `DrewAfter`. */
  lemma DrawStep(grouped: map<string, seq<Record>>, done: seq<string>, group: string, blocks: seq<Block>, cells: seq<Cell>, cursor: int)
    requires group in GROUP_LAYOUT && DrewAfter(grouped, done, blocks, cells, cursor)
    ensures group !in grouped ==> DrewAfter(grouped, done + [group], blocks, cells, cursor)
    ensures group in grouped ==>
      var b := Block(group, cursor);
      DrewAfter(grouped, done + [group], blocks + [b], cells + CellsOf(grouped, b), cursor + Advance(group))
  {
    PresentSnoc(done, grouped, group);
    if group in grouped {
      BlocksSnoc(Present(done, grouped), group);
      AllCellsSnoc(grouped, blocks, Block(group, cursor));
    }
  }

  /**
   * The group loop: visit the fixed group order, skip groups without records, draw
   * a block at the cursor and advance the cursor past it.
   */
  method DrawGroups(grouped: map<string, seq<Record>>) returns (blocks: seq<Block>, cells: seq<Cell>, cursor: int)
    ensures blocks == Blocks(DrawnGroups(grouped))
    ensures Drawable(grouped, blocks) && cells == AllCells(grouped, blocks)
    ensures cursor == MARGIN_X + TotalAdvance(DrawnGroups(grouped))
  {
    cursor := MARGIN_X;
    blocks := [];
    cells := [];
    OrderLaidOut();
    for j := 0 to |GROUP_ORDER|
      invariant DrewAfter(grouped, GROUP_ORDER[..j], blocks, cells, cursor)
    {
      var group := GROUP_ORDER[j];
      assert GROUP_ORDER[..j + 1] == GROUP_ORDER[..j] + [group];
      assert group in GROUP_ORDER;
      DrawStep(grouped, GROUP_ORDER[..j], group, blocks, cells, cursor);
      if group !in grouped {
        continue;
      }
      var (cols, rows) := GROUP_LAYOUT[group];
      var species := grouped[group];
      blocks := blocks + [Block(group, cursor)];
      var blockCells := DrawBlock(species, cols, rows, cursor);
      cells := cells + blockCells;
      cursor := cursor + cols * COLUMN_STRIDE + BLOCK_SPACING;
    }
    assert GROUP_ORDER[..|GROUP_ORDER|] == GROUP_ORDER;
  }
}
