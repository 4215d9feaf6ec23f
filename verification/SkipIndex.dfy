/** The skip index of a tile layer: each tile a scan stops at says how many empty tiles
    follow, so that the scan can jump over them. */
module SkipIndex {
  datatype Tile = Tile(index: nat, flags: nat, skip: nat, reserved: nat)

  type Row = seq<Tile>

  /** The tile at `x` tells the truth: what it skips is empty, and it skips all it can. */
  predicate Honest(row: Row, x: nat)
    requires x < |row|
  {
    var next := x + row[x].skip + 1;
    && row[x].skip <= 254 && next <= |row|
    && (forall c :: x < c < next ==> row[c].index == 0)
    && (row[x].skip == 254 || next == |row| || row[next].index != 0)
  }

  /** Jumping by the skip index from column `from` lands on `to`, on honest tiles only. */
  predicate Leads(row: Row, from: nat, to: nat)
    requires to <= |row|
    decreases if from < to then to - from else 0
  {
    from == to || (from < to && Honest(row, from) && Leads(row, from + row[from].skip + 1, to))
  }

  /** The columns from `x` on with a tile, looked up one by one. */
  function PlainScan(row: Row, x: nat): seq<nat>
    decreases if x < |row| then |row| - x else 0
  {
    if x >= |row| then []
    else (if row[x].index != 0 then [x] else []) + PlainScan(row, x + 1)
  }

  /** The same with jumps, as the renderer goes through a row. */
  function SkipScan(row: Row, x: nat): seq<nat>
    decreases if x < |row| then |row| - x else 0
  {
    if x >= |row| then []
    else (if row[x].index != 0 then [x] else []) + SkipScan(row, x + row[x].skip + 1)
  }

  /** Jumping over an honest row finds exactly the tiles of the plain scan. */
  lemma {:induction false} SkipFindsAll(row: Row, x: nat)
    requires x <= |row| && Leads(row, x, |row|)
    ensures SkipScan(row, x) == PlainScan(row, x)
    decreases |row| - x
  {
    if x < |row| {
      var next := x + row[x].skip + 1;
      SkipFindsAll(row, next);
      EmptyStretch(row, x + 1, next);
    }
  }

  lemma {:induction false} EmptyStretch(row: Row, x: nat, next: nat)
    requires x <= next <= |row| && forall c :: x <= c < next ==> row[c].index == 0
    ensures PlainScan(row, x) == PlainScan(row, next)
    decreases next - x
  {
    if x < next {
      EmptyStretch(row, x + 1, next);
    }
  }

  lemma {:induction false} LeadsOn(row: Row, from: nat, x: nat)
    requires x < |row| && Leads(row, from, x) && Honest(row, x)
    ensures Leads(row, from, x + row[x].skip + 1)
    decreases if from < x then x - from else 0
  {
    if from < x {
      LeadsOn(row, from + row[from].skip + 1, x);
    }
  }

  /** Only the skips before `to` matter. */
  lemma {:induction false} LeadsFrame(row: Row, other: Row, from: nat, to: nat)
    requires |row| == |other| && to <= |row| && Leads(row, from, to)
    requires forall c :: 0 <= c < |row| ==> row[c].index == other[c].index
    requires forall c :: from <= c < to ==> row[c].skip == other[c].skip
    ensures Leads(other, from, to)
    decreases if from < to then to - from else 0
  {
    if from < to {
      LeadsFrame(row, other, from + row[from].skip + 1, to);
    }
  }

  /** Everything but the skips is as before. */
  predicate SameButSkips(a: seq<Tile>, b: seq<Tile>) {
    |a| == |b| && forall i :: 0 <= i < |a| ==> b[i] == a[i].(skip := b[i].skip)
  }

  function RowOf(tiles: seq<Tile>, width: nat, y: nat): Row
    requires (y + 1) * width <= |tiles|
  {
    tiles[y * width..(y + 1) * width]
  }

  lemma TimesMonotone(a: nat, b: nat, c: nat)
    requires a <= b
    ensures a * c <= b * c
  {
  }

  lemma RowFits(width: nat, height: nat, y: nat)
    requires y < height
    ensures 0 <= y * width
    ensures (y + 1) * width == y * width + width
    ensures (y + 1) * width <= height * width
  {
    TimesMonotone(y + 1, height, width);
  }

  /** The index of one row, written in place. */
  method SkipRow(tiles: array<Tile>, base: nat, width: nat)
    requires base + width <= tiles.Length
    modifies tiles
    ensures width > 1 ==> Leads(tiles[base..base + width], 1, width)
    ensures SameButSkips(old(tiles[..]), tiles[..])
    ensures forall i :: 0 <= i < tiles.Length && !(base < i < base + width) ==> tiles[i] == old(tiles[i])
    ensures OnlyLanded(old(tiles[base..base + width]), tiles[base..base + width])
  {
    hide Leads, Honest;
    ghost var was := tiles[base..base + width];
    var x := 1;
    if width > 1 {
      LeadsStart(tiles[base..base + width]);
    }
    while x < width
      invariant 1 <= x && (width > 1 ==> x <= width)
      invariant width > 1 ==> Leads(tiles[base..base + width], 1, x)
      invariant SameButSkips(old(tiles[..]), tiles[..])
      invariant forall i :: 0 <= i < tiles.Length && !(base < i < base + width) ==> tiles[i] == old(tiles[i])
      invariant OnlyLanded(was, tiles[base..base + width])
      invariant forall c :: x <= c < width ==> tiles[base + c] == was[c]
      decreases width - x
    {
      ghost var row := tiles[base..base + width];
      var skipped := CountEmpty(tiles, base, width, x);
      tiles[base + x] := tiles[base + x].(skip := skipped - 1);
      assert tiles[base..base + width] == row[x := row[x].(skip := skipped - 1)];
      SkipWritten(row, x, skipped);
      OnlyLandedStep(was, row, x, skipped);
      x := x + skipped;
    }
  }

  /** A tile differs from what it was only where the jumps from column 1 land. */
  ghost predicate OnlyLanded(was: Row, row: Row) {
    |was| == |row| && forall c: nat :: c < |row| && row[c] != was[c] ==> c >= 1 && Leads(row, 1, c)
  }

  lemma OnlyLandedStep(was: Row, row: Row, x: nat, skipped: nat)
    requires OnlyLanded(was, row) && 1 <= x < |row| && Leads(row, 1, x) && skipped >= 1
    requires forall c :: x <= c < |row| ==> row[c] == was[c]
    ensures OnlyLanded(was, row[x := row[x].(skip := skipped - 1)])
  {
    hide Leads;
    var written := row[x := row[x].(skip := skipped - 1)];
    forall c: nat | c < |row| && written[c] != was[c]
      ensures c >= 1 && Leads(written, 1, c)
    {
      LeadsFrame(row, written, 1, c);
    }
  }

  lemma LeadsStart(row: Row)
    requires 1 <= |row|
    ensures Leads(row, 1, 1)
  {
  }

  /** How far the next tile is, at most 255. */
  ghost predicate FirstTileAt(row: Row, x: nat, skipped: nat)
    requires x < |row|
  {
    && 1 <= skipped <= 255 && x + skipped <= |row|
    && (forall c :: x < c < x + skipped ==> row[c].index == 0)
    && (skipped == 255 || x + skipped == |row| || row[x + skipped].index != 0)
  }

  /** The inner loop. */
  method CountEmpty(tiles: array<Tile>, base: nat, width: nat, x: nat) returns (skipped: nat)
    requires base + width <= tiles.Length && 1 <= x < width
    ensures FirstTileAt(tiles[base..base + width], x, skipped)
  {
    skipped := 1;
    while x + skipped < width && skipped < 255
      invariant 1 <= skipped <= 255 && x + skipped <= width
      invariant forall c :: base + x < c < base + x + skipped ==> tiles[c].index == 0
    {
      if tiles[base + x + skipped].index != 0 {
        break;
      }
      skipped := skipped + 1;
    }
  }

  lemma SkipWritten(row: Row, x: nat, skipped: nat)
    requires 1 <= x < |row| && Leads(row, 1, x) && FirstTileAt(row, x, skipped)
    ensures Leads(row[x := row[x].(skip := skipped - 1)], 1, x + skipped)
  {
    hide Leads;
    var written := row[x := row[x].(skip := skipped - 1)];
    LeadsFrame(row, written, 1, x);
    LeadsOn(written, 1, x);
  }

  /** In the first `n` rows jumping leads over honest tiles. */
  ghost predicate RowsReady(tiles: seq<Tile>, width: nat, n: nat) {
    forall y: nat :: y < n ==> RowReady(tiles, width, y)
  }

  ghost predicate RowReady(tiles: seq<Tile>, width: nat, y: nat) {
    (y + 1) * width <= |tiles| && (width > 1 ==> Leads(RowOf(tiles, width, y), 1, width))
  }

  /** There, column 0 and the tiles that are jumped over are as they were. */
  ghost predicate RowsLanded(start: seq<Tile>, tiles: seq<Tile>, width: nat, n: nat) {
    |start| == |tiles| && forall y: nat :: y < n ==> RowLanded(start, tiles, width, y)
  }

  ghost predicate RowLanded(start: seq<Tile>, tiles: seq<Tile>, width: nat, y: nat) {
    && (y + 1) * width <= |tiles| && (y + 1) * width <= |start|
    && OnlyLanded(RowOf(start, width, y), RowOf(tiles, width, y))
  }

  /** The first `n` rows are done, and the others are as they were. */
  ghost predicate Done(start: seq<Tile>, tiles: seq<Tile>, width: nat, height: nat, n: nat) {
    && |start| == |tiles| == height * width
    && SameButSkips(start, tiles) && RowsReady(tiles, width, n) && RowsLanded(start, tiles, width, n)
    && 0 <= n * width <= |tiles| && tiles[n * width..] == start[n * width..]
  }

  /** All rows of a layer: in each, jumping from column 1 finds every tile of the row from
      there on, and nothing but the skip index has changed, only where the jumps land. */
  method InitTilemapSkip(tiles: array<Tile>, width: nat, height: nat)
    requires tiles.Length == height * width
    modifies tiles
    ensures SameButSkips(old(tiles[..]), tiles[..])
    ensures RowsReady(tiles[..], width, height)
    ensures RowsLanded(old(tiles[..]), tiles[..], width, height)
    ensures forall y: nat :: y < height && width > 1 ==>
              (y + 1) * width <= tiles.Length &&
              SkipScan(RowOf(tiles[..], width, y), 1) == PlainScan(RowOf(tiles[..], width, y), 1)
  {
    hide Leads, RowsReady, OnlyLanded, RowsLanded, SameButSkips, Done;
    ghost var start := tiles[..];
    var y := 0;
    NothingDone(start, width, height);
    while y < height
      invariant 0 <= y <= height
      invariant Done(start, tiles[..], width, height, y)
    {
      RowFits(width, height, y);
      ghost var was := tiles[..];
      var base := y * width;
      SkipRow(tiles, base, width);
      RowFrame(was, tiles[..], base, width);
      RowDone(start, was, tiles[..], width, height, y, base);
      y := y + 1;
    }
    AllDone(start, tiles[..], width, height);
  }

  lemma NothingDone(tiles: seq<Tile>, width: nat, height: nat)
    requires |tiles| == height * width
    ensures Done(tiles, tiles, width, height, 0)
  {
  }

  lemma AllDone(start: seq<Tile>, tiles: seq<Tile>, width: nat, height: nat)
    requires Done(start, tiles, width, height, height)
    ensures SameButSkips(start, tiles) && RowsReady(tiles, width, height) && RowsLanded(start, tiles, width, height)
    ensures forall y: nat :: y < height && width > 1 ==>
              (y + 1) * width <= |tiles| &&
              SkipScan(RowOf(tiles, width, y), 1) == PlainScan(RowOf(tiles, width, y), 1)
  {
    hide Leads, OnlyLanded;
    RowsScan(tiles, width, height);
  }

  /** Outside the row, and in its first column, all is as it was. */
  lemma RowFrame(was: seq<Tile>, tiles: seq<Tile>, base: nat, width: nat)
    requires |was| == |tiles| && base + width <= |tiles|
    requires forall i :: 0 <= i < |tiles| && !(base < i < base + width) ==> tiles[i] == was[i]
    ensures tiles[..base] == was[..base] && tiles[base + width..] == was[base + width..]
  {
  }

  lemma RowDone(start: seq<Tile>, was: seq<Tile>, tiles: seq<Tile>, width: nat, height: nat, y: nat, base: nat)
    requires y < height && Done(start, was, width, height, y) && |tiles| == |was|
    requires base == y * width && base + width == (y + 1) * width <= |tiles|
    requires SameButSkips(was, tiles)
    requires width > 1 ==> Leads(tiles[base..base + width], 1, width)
    requires OnlyLanded(was[base..base + width], tiles[base..base + width])
    requires tiles[..base] == was[..base] && tiles[base + width..] == was[base + width..]
    ensures Done(start, tiles, width, height, y + 1)
  {
    hide Leads, OnlyLanded;
    NextRow(start, was, tiles, width, height, y, base);
    hide RowsReady, RowsLanded;
    SameSlice(was, start, base, width);
  }

  lemma RowAt(tiles: seq<Tile>, width: nat, y: nat, base: nat)
    requires base == y * width && base + width == (y + 1) * width <= |tiles|
    ensures RowOf(tiles, width, y) == tiles[base..base + width]
  {
  }

  lemma SameSlice(a: seq<Tile>, b: seq<Tile>, base: nat, width: nat)
    requires base + width <= |a| == |b| && a[base..] == b[base..]
    ensures a[base..base + width] == b[base..base + width] && a[base + width..] == b[base + width..]
  {
    assert forall i :: base <= i < |a| ==> a[i] == a[base..][i - base] == b[i];
  }

  /** The row just written. */
  lemma LastRow(start: seq<Tile>, tiles: seq<Tile>, width: nat, y: nat, base: nat)
    requires base == y * width && base + width == (y + 1) * width <= |tiles| == |start|
    requires width > 1 ==> Leads(tiles[base..base + width], 1, width)
    requires OnlyLanded(start[base..base + width], tiles[base..base + width])
    ensures RowReady(tiles, width, y) && RowLanded(start, tiles, width, y)
  {
    hide Leads, OnlyLanded;
    RowAt(start, width, y, base);
    RowAt(tiles, width, y, base);
    hide RowOf;
  }

  /** A row before it. */
  lemma EarlierRow(start: seq<Tile>, was: seq<Tile>, tiles: seq<Tile>, width: nat, base: nat, y: nat, z: nat)
    requires z < y && base == y * width && base <= |was| == |tiles| == |start| && tiles[..base] == was[..base]
    requires RowReady(was, width, z) && RowLanded(start, was, width, z)
    ensures RowReady(tiles, width, z) && RowLanded(start, tiles, width, z)
  {
    hide Leads, OnlyLanded;
    RowKept(was, tiles, width, base, y, z);
    hide RowOf;
  }

  lemma NextRow(start: seq<Tile>, was: seq<Tile>, tiles: seq<Tile>, width: nat, height: nat, y: nat, base: nat)
    requires y < height && |start| == |was| == |tiles| == height * width
    requires RowsReady(was, width, y) && RowsLanded(start, was, width, y)
    requires base == y * width && base + width == (y + 1) * width <= |tiles|
    requires width > 1 ==> Leads(tiles[base..base + width], 1, width)
    requires OnlyLanded(was[base..base + width], tiles[base..base + width])
    requires tiles[..base] == was[..base] && was[base..] == start[base..]
    ensures RowsReady(tiles, width, y + 1) && RowsLanded(start, tiles, width, y + 1)
  {
    hide Leads, OnlyLanded, RowReady, RowLanded;
    SameSlice(was, start, base, width);
    LastRow(start, tiles, width, y, base);
    forall z: nat | z < y
      ensures RowReady(tiles, width, z) && RowLanded(start, tiles, width, z)
    {
      EarlierRow(start, was, tiles, width, base, y, z);
    }
  }

  lemma RowKept(was: seq<Tile>, tiles: seq<Tile>, width: nat, base: nat, y: nat, z: nat)
    requires z < y && base == y * width && base <= |was| == |tiles| && tiles[..base] == was[..base]
    ensures (z + 1) * width <= |tiles| && RowOf(tiles, width, z) == RowOf(was, width, z)
  {
    TimesMonotone(z + 1, y, width);
    RowFits(width, y, z);
    var from, to := z * width, (z + 1) * width;
    assert tiles[from..to] == tiles[..base][from..to] && was[from..to] == was[..base][from..to];
  }

  lemma RowsScan(tiles: seq<Tile>, width: nat, height: nat)
    requires RowsReady(tiles, width, height) && |tiles| == height * width
    ensures forall y: nat :: y < height && width > 1 ==>
              (y + 1) * width <= |tiles| && SkipScan(RowOf(tiles, width, y), 1) == PlainScan(RowOf(tiles, width, y), 1)
  {
    forall y: nat | y < height && width > 1
      ensures (y + 1) * width <= |tiles| && SkipScan(RowOf(tiles, width, y), 1) == PlainScan(RowOf(tiles, width, y), 1)
    {
      RowFits(width, height, y);
      assert RowReady(tiles, width, y);
      SkipFindsAll(RowOf(tiles, width, y), 1);
    }
  }
}
