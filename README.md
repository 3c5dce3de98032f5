# Fig5_heatmap.py in Dafny

`Fig5_heatmap.py` reads a table of species. Each species has an ID, a taxonomic group and three standardised distance metrics (RootToTip, MeanDist, ClosestBact). The script draws the table as an SVG heatmap. The records are bucketed by group, and each of the groups BACT, PLANT, FUNGI and ALGAE becomes a block of `cols` x `rows` entries. An entry is three coloured cells, one per metric, and the colour comes from a diverging scale: blue below the mean, grey at it, red above it. A vertical legend with tick labels sits at the right.

This project models that core and proves what it promises:

- `wrappers.dfy`: `Option`, which stands in for a Python `ValueError`.
- `hex_color.dfy` (`HexColor`): `hex_to_rgb`. It models `lstrip("#")`, Python's clamped slicing and `int(s, 16)` on two-character slices: the whitespace `int` skips around a numeral (space, tab, newline, vertical tab, form feed, carriage return), a leading sign, and every way it fails. It also holds the anchor colours LOW, MID and HIGH, and an inverse (`ToHex`) for the round trip.
- `color_scale.dfy` (`ColorScale`): `interpolate` and `z_to_color` over `real`. `int()` on a float is modelled as truncation toward zero.
- `rgb_text.dfy` (`RgbText`): `rgb_str` and Python's `str` of an int, with a parser that proves the fill text is injective.
- `grouping.dfy` (`Grouping`): the `setdefault(...).append` grouping loop, as an imperative method over a map of sequences. Python's dict key order is kept as an explicit `order` sequence.
- `layout.dfy` (`Layout`): the grouped-block loop, as two methods. `DrawBlock` covers the column, row and metric loops of one block. `DrawGroups` covers the group loop with its `current_x` cursor. The methods append each filled rectangle as a `Cell(x, y, colour)` and each group's origin as a `Block(group, x)`. Both are proved equal to declarative specifications.
- `layout_facts.dfy` (`LayoutFacts`): the properties of the layout. They cover which records are drawn and where, that cells do not overlap, that blocks are separated, and that unknown groups are ignored.
- `heatmap.dfy` (`Heatmap`): the pipeline, which groups the records and then lays them out, with end-to-end facts.
- `legend.dfy` (`Legend`): the legend swatch loop and its geometry.

## Model

| member | source | states |
|---|---|---|
| HexColor.StripHashes | Fig5_heatmap.py:46 | `lstrip("#")`: the result is a suffix of the input, everything removed is `#`, and the result does not start with `#` |
| HexColor.Slice | Fig5_heatmap.py:47 | Python slicing `s[i:i+2]`: the exact slice when in range, the rest of the string when it straddles the end, empty past the end, never longer than requested |
| HexColor.Strip | Fig5_heatmap.py:47 | the whitespace `int` ignores around a numeral, removed from a slice: what is left is the infix after the leading whitespace, it neither starts nor ends with whitespace, and everything outside it is whitespace |
| HexColor.HexNumeral | Fig5_heatmap.py:47 | what `int(.., 16)` accepts once the whitespace is gone: any success ends in a digit, a two-character numeral starts with a digit or a sign, and the value lies in [-15, 255] |
| HexColor.ParseHexInt | Fig5_heatmap.py:47 | `int(t, 16)` on a slice of at most two characters. Two hex digits give their byte value, one digit its value. A sign and a digit give the signed digit, and a digit padded by whitespace gives the digit. When it succeeds, every character is a digit, whitespace or a sign, some character is a digit, the second character is not a sign, and the value lies in [-15, 255]. So an empty slice, a slice with any other character (`#`, `g`, `x`, U+001C) and a lone sign all fail |
| HexColor.SeparatorsNotSkipped | Fig5_heatmap.py:47 | U+001C to U+001F next to a digit make `int(.., 16)` raise, though `str.isspace` accepts them; `hex_to_rgb` of a colour spelled with U+001C fails |
| HexColor.WhitespaceSkipped | Fig5_heatmap.py:47 | a digit padded on either side by space or U+0009 to U+000D parses to the digit |
| HexColor.PieceRejected | Fig5_heatmap.py:47 | a slice holding a character that no numeral may contain does not parse |
| HexColor.SliceRejected | Fig5_heatmap.py:47 | the slice `h[i:i+2]` that holds such a character does not parse |
| HexColor.HexToRgb | Fig5_heatmap.py:45-47 | fails when fewer than five characters remain after stripping `#`; every parsed channel lies in [-15, 255] |
| HexColor.BadCharRejected | Fig5_heatmap.py:45-47 | a character that no numeral may contain among the first six after the `#`s makes `hex_to_rgb` fail |
| HexColor.NonHexRejected | Fig5_heatmap.py:45-47 | `hex_to_rgb("#gg0000")` raises (model: `None`) |
| HexColor.SixDigitsParse | Fig5_heatmap.py:45-47 | six hex digits after the `#`s parse to the three two-digit pair values, each in [0, 255] |
| HexColor.LowAnchorParses | Fig5_heatmap.py:49 | `hex_to_rgb("#0008ff")` is (0, 8, 255) |
| HexColor.MidAnchorParses | Fig5_heatmap.py:50 | `hex_to_rgb("#d9d9d9")` is (217, 217, 217) |
| HexColor.HighAnchorParses | Fig5_heatmap.py:51 | `hex_to_rgb("#FF0000")` is (255, 0, 0) |
| HexColor.HashedColorParses | Fig5_heatmap.py:45-47 | any `#` followed by six hex digits parses to the colour its pairs spell |
| HexColor.HexRoundTrip | Fig5_heatmap.py:45-47 | `hex_to_rgb` inverts hex formatting of any byte-range colour, in upper or lower case |
| HexColor.CaseInsensitive | Fig5_heatmap.py:47 | upper- and lower-case hex spellings of a colour parse to the same colour |
| HexColor.StripHashesOf | Fig5_heatmap.py:46 | stripping removes exactly the leading run of `#` |
| HexColor.HashesAndTailIgnored | Fig5_heatmap.py:46-47 | any number of leading `#` and anything after the sixth digit do not change the parsed colour |
| HexColor.ShortHexRejected | Fig5_heatmap.py:45-47 | `"#abc"` and `""` raise (model: `None`), because the slice for the third channel is empty |
| ColorScale.Trunc | Fig5_heatmap.py:54 | `int()` of a float rounds toward zero: floor for non-negative values, ceiling for negative ones |
| ColorScale.TruncMonotone | Fig5_heatmap.py:54 | truncation preserves order |
| ColorScale.Mix | Fig5_heatmap.py:54 | the value `c1[i] + (c2[i] - c1[i]) * t` that line 54 truncates is the weighted mean `(1 - t)*c1[i] + t*c2[i]` of the two ends |
| ColorScale.Blend | Fig5_heatmap.py:54 | one output channel of `interpolate` is that value truncated toward zero: the largest integer not above it when it is non-negative, the smallest not below it otherwise |
| ColorScale.BlendEnds | Fig5_heatmap.py:53-54 | a channel blend at t = 0 is the first end and at t = 1 the second |
| ColorScale.BlendBetween | Fig5_heatmap.py:53-54 | for t in [0, 1] a blended channel lies between its two ends |
| ColorScale.BlendMonotone | Fig5_heatmap.py:53-54 | a blended channel moves monotonically from its first end toward its second as t grows |
| ColorScale.Interpolate | Fig5_heatmap.py:53-54 | each output channel is the blend of the matching input channels; `interpolate(c1, c2, 0)` is `c1` and `interpolate(c1, c2, 1)` is `c2` |
| ColorScale.InterpolateBetween | Fig5_heatmap.py:53-54 | for t in [0, 1] every channel lies between `c1[i]` and `c2[i]`, so byte-range inputs give a byte-range output |
| ColorScale.Clamp | Fig5_heatmap.py:57 | `max(Z_MIN, min(Z_MAX, z))` lies in [-2, 2], is the identity inside, and is the nearer bound outside |
| ColorScale.Ratio | Fig5_heatmap.py:57-58 | `ratio` lies in [0, 1], is 0 at or below Z_MIN and 1 at or above Z_MAX, and scales z linearly inside the range |
| ColorScale.ZToColor | Fig5_heatmap.py:56-62 | at or below Z_MIN the colour is LOW, at or above Z_MAX it is HIGH, at 0 it is MID, and every channel is in [0, 255] |
| ColorScale.AnchorsInRange | Fig5_heatmap.py:49-51 | the three anchors have byte-range channels |
| ColorScale.ClampedColor | Fig5_heatmap.py:57 | below Z_MIN the colour equals `z_to_color(Z_MIN)`, above Z_MAX it equals `z_to_color(Z_MAX)`, and always equals the colour of the clamped value |
| ColorScale.AnchorPoints | Fig5_heatmap.py:59-62 | `z_to_color(Z_MIN)` is LOW, `z_to_color(0)` is MID (ratio 0.5 takes the `else` branch with t = 0), `z_to_color(Z_MAX)` is HIGH |
| ColorScale.LowerHalf | Fig5_heatmap.py:59-60 | for z at most 0 the colour is the LOW-to-MID blend at `ratio * 2` |
| ColorScale.UpperHalf | Fig5_heatmap.py:61-62 | for z at least 0 the colour is the MID-to-HIGH blend at `(ratio - 0.5) * 2` |
| ColorScale.RatioMonotone | Fig5_heatmap.py:57-58 | `ratio` does not decrease as z grows |
| ColorScale.MonotoneLowerHalf | Fig5_heatmap.py:58-60 | for z1 <= z2 <= 0 each channel moves from LOW toward MID: red and green do not fall, blue does not rise |
| ColorScale.MonotoneUpperHalf | Fig5_heatmap.py:58-62 | for 0 <= z1 <= z2 each channel moves from MID toward HIGH: red does not fall, green and blue do not rise |
| RgbText.NatStr | Fig5_heatmap.py:65 | `str` of a natural number is a non-empty digit string without a leading zero |
| RgbText.IntStr | Fig5_heatmap.py:65 | `str` of an int is digits with a leading `-` exactly when the number is negative |
| RgbText.NatStrValue | Fig5_heatmap.py:65 | the decimal digits of `str(n)` denote `n` |
| RgbText.IntStrRoundTrip | Fig5_heatmap.py:65 | parsing `str(n)` back gives `n` |
| RgbText.NegativeRoundTrip | Fig5_heatmap.py:65 | parsing `str(n)` of a negative `n` reads the `-` and the digits of `-n` back to `n` |
| RgbText.IntStrInjective | Fig5_heatmap.py:65 | different ints have different `str` |
| RgbText.RgbStr | Fig5_heatmap.py:64-65 | `rgb_str` is `rgb(` + the three comma-separated channels + `)` |
| RgbText.RgbStrInjective | Fig5_heatmap.py:64-65 | different colours give different fill text |
| RgbText.LowText | Fig5_heatmap.py:64-65 | the low anchor is written `rgb(0,8,255)` |
| RgbText.MidText | Fig5_heatmap.py:64-65 | the mid anchor is written `rgb(217,217,217)` |
| RgbText.HighText | Fig5_heatmap.py:64-65 | the high anchor is written `rgb(255,0,0)` |
| Grouping.Record.Values | Fig5_heatmap.py:148-152 | the three metrics of a record, in the order RootToTip, MeanDist, ClosestBact |
| Grouping.Bucket | Fig5_heatmap.py:84-86 | a bucket holds only records of its group and is no longer than the input |
| Grouping.GroupRecords | Fig5_heatmap.py:84-86 | the loop's key order is the first-seen group order; its keys are exactly the groups in the data; each `grouped[g]` is the subsequence of records with group g, in input order |
| Grouping.GroupStep | Fig5_heatmap.py:85-86 | one `setdefault(...).append` keeps the grouping invariant for the records seen so far |
| Grouping.BucketsSnoc | Fig5_heatmap.py:85-86 | one more record extends only its own bucket, and adds its group to the key order only if the group is new |
| Grouping.GroupsOfSnoc | Fig5_heatmap.py:85-86 | one more record adds only its own group to the key set |
| Grouping.FirstSeenCovers | Fig5_heatmap.py:84-86 | the key order lists exactly the groups in the data |
| Grouping.FirstSeenDistinct | Fig5_heatmap.py:84-86 | no group appears twice in the key order |
| Grouping.FirstIndex | Fig5_heatmap.py:84-86 | the first record of a group present in the data |
| Grouping.FirstIndexPrefix | Fig5_heatmap.py:84-86 | a group's first record is the same in any prefix that contains that group |
| Grouping.FirstSeenOrder | Fig5_heatmap.py:84-86 | groups appear in the key order in the order of their first record |
| Grouping.FirstSeenOrderStep | Fig5_heatmap.py:84-86 | the inductive step of `FirstSeenOrder` |
| Grouping.NewGroupFirstAtEnd | Fig5_heatmap.py:85-86 | a group that the last record adds to the key order has its first record at the end |
| Grouping.BucketAppend | Fig5_heatmap.py:84-86 | the bucket of a concatenation is the concatenation of the buckets |
| Grouping.BucketMembers | Fig5_heatmap.py:84-86 | a record is in bucket g exactly when it is in the data with group g |
| Grouping.BucketOfAbsent | Fig5_heatmap.py:84-86 | a group with no records has an empty bucket |
| Grouping.ConcatBucketsSnoc | Fig5_heatmap.py:84-86 | appending one record adds it once to the concatenated buckets of distinct keys that include its group |
| Grouping.ConcatBucketsPartition | Fig5_heatmap.py:84-86 | the buckets of distinct keys covering all groups together are a permutation of the data |
| Grouping.EmptyBuckets | Fig5_heatmap.py:84-86 | no records give empty buckets |
| Grouping.GroupingKeepsEveryRecord | Fig5_heatmap.py:84-86 | every record lands in exactly one bucket: the buckets in key order are a permutation of the data, of the same length |
| Layout.Placed | Fig5_heatmap.py:141-145 | a block draws `min(len(species), cols*rows)` records |
| Layout.CellOf | Fig5_heatmap.py:127-156 | the cell of metric `m` of record `i` is coloured `z_to_color` of that metric, a byte-range colour; it lies right of `current_x + m*CELL_WIDTH` and in one of the block's `rows` rows below `margin_y` |
| Layout.BlockCells | Fig5_heatmap.py:124-161 | a block emits three cells per drawn record |
| Layout.FlatIndex | Fig5_heatmap.py:143 | column-major flattening `index = col*rows + row_i` is undone by `/ rows` and `% rows` |
| Layout.EmitCell | Fig5_heatmap.py:154-161 | emitting the next metric's rectangle keeps the emitted cells a prefix of the block specification |
| Layout.DrawBlock | Fig5_heatmap.py:124-161 | the column, row and metric loops emit exactly the block specification: entry `3*i + m` is metric `m` of record `i`, for every record that fits, and nothing for skipped indices |
| Layout.Present | Fig5_heatmap.py:109-112 | a group is kept exactly when it is in the list and in `grouped`, in list order |
| Layout.OrderLaidOut | Fig5_heatmap.py:33-38 | every group of the fixed list has a `GROUP_LAYOUT` entry |
| Layout.DrawnGroups | Fig5_heatmap.py:109-115 | the drawn groups are exactly those of BACT, PLANT, FUNGI, ALGAE that have records, and each has a layout |
| Layout.Advance | Fig5_heatmap.py:163 | the cursor step after a group, `cols*(3*CELL_WIDTH+6) + block_spacing`, is at least one column stride plus the spacing, so the cursor strictly increases |
| Layout.Blocks | Fig5_heatmap.py:107-122 | one block per drawn group, in order |
| Layout.PresentSnoc | Fig5_heatmap.py:109-112 | visiting one more group of the list adds it exactly when it has records |
| Layout.BlocksSnoc | Fig5_heatmap.py:107-163 | drawing one more group adds a block at the current cursor and advances the cursor by its step |
| Layout.AllCellsSnoc | Fig5_heatmap.py:124-161 | drawing one more block appends its cells after those already drawn |
| Layout.DrawStep | Fig5_heatmap.py:109-163 | one iteration of the group loop, drawn or skipped, keeps the loop's state equal to the specification of the groups visited so far |
| Layout.DrawGroups | Fig5_heatmap.py:107-163 | the group loop produces exactly one block per drawn group at the cursor, the cells of each block in order, and a final cursor of the margin plus all advances |
| LayoutFacts.ColumnBelow | Fig5_heatmap.py:141-143 | an index fits a `cols` x `rows` block exactly when its column `i / rows` is below `cols` |
| LayoutFacts.RecordDrawn | Fig5_heatmap.py:124-161 | record `i` of a group is drawn exactly when `i < cols*rows`; its metric `m` is then at x = `current_x + (i/rows)*(3*CELL_WIDTH+6) + m*CELL_WIDTH` and y = `margin_y + (i%rows)*CELL_HEIGHT`, coloured by `z_to_color` of that metric |
| LayoutFacts.NothingPastTheEnd | Fig5_heatmap.py:141-145 | no index at or past `len(species)`, and none past `cols*rows`, is drawn |
| LayoutFacts.BlockCellAt | Fig5_heatmap.py:143-156 | entry `k` of a block sits at the grid position of record `k / 3`, metric `k % 3` |
| LayoutFacts.CellWithinBlock | Fig5_heatmap.py:127-156 | every cell lies in the block's `cols` columns (ending 6 pixels before the next column stride) and `rows` rows |
| LayoutFacts.CellsApart | Fig5_heatmap.py:127-161 | two different cells of a block do not overlap |
| LayoutFacts.FirstBlockAtMargin | Fig5_heatmap.py:107 | the first drawn block starts at `margin_x` |
| LayoutFacts.CursorStep | Fig5_heatmap.py:163 | each block starts where the previous block's start plus its step ends |
| LayoutFacts.FinalCursor | Fig5_heatmap.py:163 | after the loop the cursor is one step past the last drawn block |
| LayoutFacts.BlocksIncreasing | Fig5_heatmap.py:163 | a later block starts at or after an earlier block's start plus its step |
| LayoutFacts.BlocksSeparated | Fig5_heatmap.py:109-163 | every cell of a drawn block lies strictly left of every cell of each later block |
| LayoutFacts.PresentIgnores | Fig5_heatmap.py:109-112 | a group outside the list does not affect which groups of the list are present |
| LayoutFacts.AllCellsIgnores | Fig5_heatmap.py:114-115 | blocks that do not show a group do not read its bucket |
| LayoutFacts.UnknownGroupIgnored | Fig5_heatmap.py:109-115 | a group outside the fixed list changes neither the drawn groups nor any cell, and its layout is never looked up |
| LayoutFacts.ColumnMajorExample | Fig5_heatmap.py:141-147 | in a 2 x 30 block of 61 records, record 29 ends column 0, record 30 starts column 1, and record 60 is not drawn |
| LayoutFacts.SingleRecordBlock | Fig5_heatmap.py:124-161 | a lone record with metrics 0, -2, 2 gives cells at x = 50, 62, 74, y = 120, coloured MID, LOW, HIGH |
| Heatmap.GroupMap | Fig5_heatmap.py:84-86 | the bucket map's keys are the groups in the data, and each bucket holds only its own group |
| Heatmap.Render | Fig5_heatmap.py:84-163 | grouping then drawing gives the blocks and cells of the layout specification applied to the buckets |
| Heatmap.GroupMapAt | Fig5_heatmap.py:85-86 | after one more record, its group's bucket ends with it and every other bucket is unchanged |
| Heatmap.GroupMapSnoc | Fig5_heatmap.py:85-86 | one more record changes the bucket map only at its own group |
| Heatmap.UnknownRecordIgnored | Fig5_heatmap.py:84-115 | a record whose group is outside the fixed list changes nothing in the figure |
| Heatmap.OnlyBactDrawn | Fig5_heatmap.py:109-112 | when BACT is the only group, only BACT is drawn |
| Heatmap.LoneBlockAtMargin | Fig5_heatmap.py:107 | a single drawn group starts at `margin_x` |
| Heatmap.BactBlockCells | Fig5_heatmap.py:114-161 | a lone BACT record with metrics 0, -2, 2 gives a MID, a LOW and a HIGH cell in the first row |
| Heatmap.SingleRecordFigure | Fig5_heatmap.py:84-163 | the whole figure for that one record is one BACT block at x = 50 with those three cells |
| Legend.Geometry | Fig5_heatmap.py:169-181 | the legend is 525 high, its frame's top is at 487.5 and bottom at 1012.5, each swatch is 5.25 high, and the bar is at x = 1100 |
| Legend.StepZ | Fig5_heatmap.py:175-176 | the value of swatch `i` lies in [Z_MIN, Z_MAX] for `i <= steps` and below Z_MAX for `i < steps` |
| Legend.TickY | Fig5_heatmap.py:192 | a tick for a value in [Z_MIN, Z_MAX] lies within the frame, at its bottom for Z_MIN and at its top for Z_MAX |
| Legend.SwatchTopAsWritten | Fig5_heatmap.py:178 | the top edge line 178 gives swatch `i` is the tick position of the swatch's own value |
| Legend.StepZIncreasing | Fig5_heatmap.py:174-176 | the swatch values start at Z_MIN, reach 0 at step 50, stay below Z_MAX and strictly increase |
| Legend.LegendAnchors | Fig5_heatmap.py:174-177 | the bottom swatch is LOW and the middle one MID |
| Legend.LowerLegendGradient | Fig5_heatmap.py:174-177 | up the lower half of the bar red and green do not fall and blue does not rise, from LOW toward MID |
| Legend.UpperLegendGradient | Fig5_heatmap.py:174-177 | up the upper half of the bar red does not fall and green and blue do not rise, from MID toward HIGH |
| Legend.Ticks | Fig5_heatmap.py:191-192 | the tick labels Z_MIN, 0 and Z_MAX sit at the frame's bottom, middle and top |
| Legend.AsWrittenBarShifted | Fig5_heatmap.py:178-184 | as written, each swatch's top edge is the tick of its own value, exactly one swatch height below the strip of the frame it should fill: the bottom swatch hangs below the frame and the top strip of the frame stays empty |
| Legend.SwatchesTileFrame | Fig5_heatmap.py:178-190 | with the corrected top edge the swatches tile the frame exactly, and each swatch's bottom edge is the tick of its value |
| Legend.DrawLegend | Fig5_heatmap.py:174-184 | the swatch loop emits 100 swatches, swatch `i` coloured `z_to_color(Z_MIN + i/100*(Z_MAX-Z_MIN))` with its top edge where line 178 puts it |

## Left out

- File input and SVG output: `open`, reading and splitting the TSV lines, `float()` on fields, and every `svg.write`. Records are typed input, and what the loops draw is a sequence of cells, blocks and swatches.
- Text elements: the group titles (only their x is kept, as `Block.x`), the rotated column labels, `COLUMN_LABEL_MODE` and the font attributes. They are presentation only.
- The legend frame rectangle and the tick label text. Only their positions are modelled.
- Python floats are modelled as exact reals, so truncation can differ from IEEE doubles at integer boundaries. NaN is not modelled either: Python's `min(Z_MAX, nan)` returns `Z_MAX`, so the figure colours a NaN metric HIGH.
- Layout.Cell: holds the colour triple rather than the `rgb_str` fill text. `RgbText.RgbStrInjective` shows that the text determines the triple.
- HexColor.ParseHexInt: covers only slices of at most two characters, the only ones `hex_to_rgb` produces. It models only ASCII text. For a slice holding a non-ASCII character, Python first maps Unicode whitespace to a space and Unicode decimal digits to ASCII digits; the model rejects every non-ASCII character instead.
- Grouping.GroupRecords: Python's dict insertion order is not part of a Dafny map, so it is returned as the separate `order` sequence.

## Findings

| source | as written | input that shows it | evidently intended | confidence | as-written member | corrected member |
|---|---|---|---|---|---|---|
| Fig5_heatmap.py:178 | swatch `i` has its top edge at `legend_y + legend_height - (i/steps)*legend_height` | `i = 0`: the swatch spans y = 1012.5 to 1017.75, below the frame's bottom at 1012.5. No swatch covers y = 487.5 to 492.75 at the top of the frame | `(i+1)/steps`, so that the 100 swatches fill the frame drawn at lines 185-189 | medium, not executed | Legend.AsWrittenBarShifted | Legend.SwatchesTileFrame |
