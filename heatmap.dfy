/**
 * The figure as a whole: records are bucketed by group, then the buckets of the
 * fixed group order are laid out left to right.
 */
module Heatmap {
  import opened HexColor
  import opened Grouping
  import opened Layout
  import opened LayoutFacts

  /** The buckets the grouping loop builds, as a function of the records. */
  function GroupMap(data: seq<Record>): (grouped: map<string, seq<Record>>)
    ensures grouped.Keys == GroupsOf(data)
    ensures forall g | g in grouped :: forall k | 0 <= k < |grouped[g]| :: grouped[g][k].group == g
  {
    map g | g in GroupsOf(data) :: Bucket(data, g)
  }

  /** Group the records, then draw the groups. */
  method Render(data: seq<Record>) returns (blocks: seq<Block>, cells: seq<Cell>)
    ensures blocks == Blocks(DrawnGroups(GroupMap(data)))
    ensures Drawable(GroupMap(data), blocks) && cells == AllCells(GroupMap(data), blocks)
  {
    var order, grouped := GroupRecords(data);
    assert grouped == GroupMap(data);
    var cursor;
    blocks, cells, cursor := DrawGroups(grouped);
  }

  /** The bucket of `g` after one more record. */
  lemma GroupMapAt(data: seq<Record>, r: Record, g: string)
    requires g in GroupsOf(data + [r])
    ensures g == r.group || g in GroupsOf(data)
    ensures GroupMap(data + [r])[g] == if g == r.group then Bucket(data, g) + [r] else GroupMap(data)[g]
  {
    GroupsOfSnoc(data, r);
    BucketsSnoc(data, r);
    if g == r.group && r.group !in GroupsOf(data) {
      BucketOfAbsent(data, r.group);
    }
  }

  /** One more record extends its own group's bucket and leaves the others alone. */
  lemma GroupMapSnoc(data: seq<Record>, r: Record)
    ensures GroupMap(data + [r]) == GroupMap(data)[r.group := Bucket(data, r.group) + [r]]
  {
    var grown, updated := GroupMap(data + [r]), GroupMap(data)[r.group := Bucket(data, r.group) + [r]];
    assert grown.Keys == updated.Keys by {
      GroupsOfSnoc(data, r);
    }
    forall g | g in grown
      ensures grown[g] == updated[g]
    {
      GroupMapAt(data, r, g);
    }
  }

  /** A record of a group outside the fixed order changes nothing in the figure. */
  lemma UnknownRecordIgnored(data: seq<Record>, r: Record)
    requires r.group !in GROUP_ORDER
    ensures DrawnGroups(GroupMap(data + [r])) == DrawnGroups(GroupMap(data))
    ensures AllCells(GroupMap(data + [r]), Blocks(DrawnGroups(GroupMap(data + [r]))))
            == AllCells(GroupMap(data), Blocks(DrawnGroups(GroupMap(data))))
  {
    GroupMapSnoc(data, r);
    UnknownGroupIgnored(GroupMap(data), r.group, Bucket(data, r.group) + [r]);
  }

  /** When BACT is the only group with records, it is the only group drawn. */
  lemma OnlyBactDrawn(grouped: map<string, seq<Record>>)
    requires grouped.Keys == {"BACT"}
    ensures DrawnGroups(grouped) == ["BACT"]
  {
    assert Present(["BACT"], grouped) == ["BACT"] by {
      PresentSnoc([], grouped, "BACT");
      assert [] + ["BACT"] == ["BACT"];
    }
    assert Present(["BACT", "PLANT"], grouped) == ["BACT"] by {
      PresentSnoc(["BACT"], grouped, "PLANT");
      assert ["BACT"] + ["PLANT"] == ["BACT", "PLANT"];
    }
    assert Present(["BACT", "PLANT", "FUNGI"], grouped) == ["BACT"] by {
      PresentSnoc(["BACT", "PLANT"], grouped, "FUNGI");
      assert ["BACT", "PLANT"] + ["FUNGI"] == ["BACT", "PLANT", "FUNGI"];
    }
    PresentSnoc(["BACT", "PLANT", "FUNGI"], grouped, "ALGAE");
    assert ["BACT", "PLANT", "FUNGI"] + ["ALGAE"] == GROUP_ORDER;
  }

  /** A lone block starts at the left margin. */
  lemma LoneBlockAtMargin(g: string)
    requires g in GROUP_LAYOUT
    ensures Blocks([g]) == [Block(g, MARGIN_X)]
  {
    assert [g][..0] == [];
  }

  /** The cells of a lone BACT block. */
  lemma BactBlockCells(grouped: map<string, seq<Record>>, r: Record)
    requires "BACT" in grouped && grouped["BACT"] == [r]
    requires r.rootToTip == 0.0 && r.meanDist == -2.0 && r.closestBact == 2.0
    ensures Drawable(grouped, [Block("BACT", MARGIN_X)])
    ensures AllCells(grouped, [Block("BACT", MARGIN_X)])
            == [Cell(50, 120, MID_COLOR), Cell(62, 120, LOW_COLOR), Cell(74, 120, HIGH_COLOR)]
  {
    OrderLaidOut();
    assert "BACT" in GROUP_ORDER;
    assert GROUP_LAYOUT["BACT"] == (2, 35);
    var blocks := [Block("BACT", MARGIN_X)];
    assert blocks[..0] == [];
    assert AllCells(grouped, blocks) == CellsOf(grouped, blocks[0]);
    SingleRecordBlock(r);
  }

  /**
   * A single BACT record with metrics 0, -2 and 2 gives one block at the left margin
   * with a mid, a low and a high cell in its first row.
   */
  lemma SingleRecordFigure(r: Record)
    requires r.group == "BACT" && r.rootToTip == 0.0 && r.meanDist == -2.0 && r.closestBact == 2.0
    ensures DrawnGroups(GroupMap([r])) == ["BACT"]
    ensures Blocks(DrawnGroups(GroupMap([r]))) == [Block("BACT", MARGIN_X)]
    ensures AllCells(GroupMap([r]), Blocks(DrawnGroups(GroupMap([r]))))
            == [Cell(50, 120, MID_COLOR), Cell(62, 120, LOW_COLOR), Cell(74, 120, HIGH_COLOR)]
  {
    var grouped := GroupMap([r]);
    assert GroupsOf([r]) == {"BACT"};
    assert grouped["BACT"] == [r];
    OnlyBactDrawn(grouped);
    OrderLaidOut();
    assert "BACT" in GROUP_ORDER;
    LoneBlockAtMargin("BACT");
    BactBlockCells(grouped, r);
  }
}
