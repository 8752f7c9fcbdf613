/**
 The layout side of `rip` (src/lib.rs:208-275): the address of each cell,
 the order in which cells are fetched, the canvas size, and where each
 tile is copied. Pixels are not modelled; a tile is its rectangle.
 */
module Rip {
  import opened Results
  import opened Decimal
  import opened Limit
  import Dimensions

  // ---------------------------------------------------------------------
  // Cell addresses

  /** The query part of a cell address, `=x<x>-y<y>-z<zoom>`. */
  function CellQuery(x: nat, y: nat, zoom: nat): string {
    "=x" + (Format(x) + ("-y" + (Format(y) + ("-z" + Format(zoom)))))
  }

  /**
   `format!("{}=x{}-y{}-z{}", base, x, y, zoom)`. The head cell's address is
   the very address the zoom probe asks about for that zoom.
   */
  function CellAddress(base: string, x: nat, y: nat, zoom: nat): (a: string)
    ensures |base| < |a| && a[..|base|] == base
    ensures x == 0 && y == 0 ==> a == Dimensions.ProbeAddress(Dimensions.ZoomTemplate(base), zoom)
  {
    assert Format(0) == "0";
    base + CellQuery(x, y, zoom)
  }

  lemma CancelPrefix(p: string, a: string, b: string)
    requires p + a == p + b
    ensures a == b
  {
    assert a == (p + a)[|p|..];
  }

  /** Each cell of each zoom level has an address of its own. */
  lemma CellAddressInjective(base: string, x: nat, y: nat, zoom: nat, x': nat, y': nat, zoom': nat)
    ensures CellAddress(base, x, y, zoom) == CellAddress(base, x', y', zoom') <==> x == x' && y == y' && zoom == zoom'
  {
    if CellAddress(base, x, y, zoom) == CellAddress(base, x', y', zoom') {
      CancelPrefix(base, CellQuery(x, y, zoom), CellQuery(x', y', zoom'));
      var restY, restY' := "-y" + (Format(y) + ("-z" + Format(zoom))), "-y" + (Format(y') + ("-z" + Format(zoom')));
      CancelPrefix("=x", Format(x) + restY, Format(x') + restY');
      FormatPrefixUnique(x, restY, x', restY');
      var restZ, restZ' := "-z" + Format(zoom), "-z" + Format(zoom');
      CancelPrefix("-y", Format(y) + restZ, Format(y') + restZ');
      FormatPrefixUnique(y, restZ, y', restZ');
      CancelPrefix("-z", Format(zoom), Format(zoom'));
      FormatInjective(zoom, zoom');
    }
  }

  // ---------------------------------------------------------------------
  // Cell enumeration

  datatype Cell = Cell(x: nat, y: nat)

  /** The head tile, fetched on its own before the canvas exists. */
  const Head: Cell := Cell(0, 0)

  predicate InGrid(c: Cell, columns: nat, rows: nat) {
    c.x < columns && c.y < rows
  }

  /** x-major order: by column first, then by row. */
  predicate Before(a: Cell, b: Cell) {
    a.x < b.x || (a.x == b.x && a.y < b.y)
  }

  predicate XMajor(cs: seq<Cell>) {
    forall i, j :: 0 <= i < j < |cs| ==> Before(cs[i], cs[j])
  }

  function Column(x: nat, rows: nat): (cs: seq<Cell>)
    ensures |cs| == rows
    ensures forall y :: 0 <= y < rows ==> cs[y] == Cell(x, y)
  {
    seq(rows, y requires 0 <= y < rows => Cell(x, y))
  }

  /** `(0..columns).cartesian_product(0..rows)`. */
  function Product(columns: nat, rows: nat): (cs: seq<Cell>)
    ensures |cs| == columns * rows
  {
    if columns == 0 then [] else Product(columns - 1, rows) + Column(columns - 1, rows)
  }

  /** `Iterator::skip(1)`. */
  function Drop1<T>(s: seq<T>): seq<T> {
    if |s| == 0 then [] else s[1..]
  }

  /** The cells fetched concurrently after the head: the product with its first element skipped. */
  function Cells(columns: nat, rows: nat): (cs: seq<Cell>)
    ensures |cs| == if columns * rows == 0 then 0 else columns * rows - 1
  {
    Drop1(Product(columns, rows))
  }

  /** The product is in x-major order and holds exactly the cells of the grid. */
  lemma {:induction false} ProductShape(columns: nat, rows: nat)
    ensures XMajor(Product(columns, rows))
    ensures forall c :: c in Product(columns, rows) <==> InGrid(c, columns, rows)
  {
    if columns > 0 {
      var p, col := Product(columns - 1, rows), Column(columns - 1, rows);
      ProductShape(columns - 1, rows);
      var all := p + col;
      forall i, j | 0 <= i < j < |all|
        ensures Before(all[i], all[j])
      {
        if j < |p| {
          assert Before(p[i], p[j]);
        } else if i < |p| {
          assert p[i] in p;
        }
      }
      forall c
        ensures c in all <==> InGrid(c, columns, rows)
      {
        if InGrid(c, columns, rows) && c.x == columns - 1 {
          assert col[c.y] == c;
        }
      }
    }
  }

  /**
   The cells after the head are, in x-major order, every cell of the grid but
   (0, 0), each exactly once.
   */
  lemma CellsCoverGridOnce(columns: nat, rows: nat)
    ensures XMajor(Cells(columns, rows))
    ensures forall i, j :: 0 <= i < j < |Cells(columns, rows)| ==> Cells(columns, rows)[i] != Cells(columns, rows)[j]
    ensures forall c :: c in Cells(columns, rows) <==> InGrid(c, columns, rows) && c != Head
    ensures |Cells(columns, rows)| == if columns * rows == 0 then 0 else columns * rows - 1
  {
    var p := Product(columns, rows);
    ProductShape(columns, rows);
    if |p| > 0 {
      assert InGrid(Head, columns, rows) by {
        assert p[0] in p;
      }
      var k :| 0 <= k < |p| && p[k] == Head;
      forall c
        ensures c in p[1..] <==> c in p && c != Head
      {
        if c in p && c != Head {
          var j :| 0 <= j < |p| && p[j] == c;
          assert p[1..][j - 1] == c;
        }
        if c in p[1..] {
          var j :| 0 <= j < |p[1..]| && p[1..][j] == c;
          assert Before(p[0], p[j + 1]);
        }
      }
    }
  }

  // ---------------------------------------------------------------------
  // Canvas and tile regions

  /** A pixel rectangle: columns [left, left + width) and rows [top, top + height). */
  datatype Rect = Rect(left: nat, top: nat, width: nat, height: nat)

  predicate Covers(r: Rect, px: nat, py: nat) {
    r.left <= px < r.left + r.width && r.top <= py < r.top + r.height
  }

  /**
   `inner` lies inside `outer`, the bounds check `copy_from` makes: for a
   non-empty `inner`, every one of its pixels is a pixel of `outer`.
   */
  predicate Within(inner: Rect, outer: Rect): (b: bool)
    ensures inner.width > 0 && inner.height > 0 ==>
      (b <==> forall px: nat, py: nat :: Covers(inner, px, py) ==> Covers(outer, px, py))
  {
    // A non-empty rectangle's first and last pixels pin down its bounds.
    assert inner.width > 0 && inner.height > 0 ==>
      Covers(inner, inner.left, inner.top) &&
      Covers(inner, inner.left + inner.width - 1, inner.top + inner.height - 1);
    && outer.left <= inner.left && inner.left + inner.width <= outer.left + outer.width
    && outer.top <= inner.top && inner.top + inner.height <= outer.top + outer.height
  }

  ghost predicate Disjoint(a: Rect, b: Rect) {
    forall px: nat, py: nat :: !(Covers(a, px, py) && Covers(b, px, py))
  }

  /** `ImageBuffer::new(columns * tile_width, rows * tile_height)`: the pixels of `columns` x `rows` tiles. */
  function Canvas(columns: nat, rows: nat, width: nat, height: nat): (r: Rect)
    ensures forall px: nat, py: nat :: Covers(r, px, py) <==> px < columns * width && py < rows * height
  {
    Rect(0, 0, columns * width, rows * height)
  }

  /** A coordinate lies in slot x of size w exactly when dividing it by w gives x. */
  lemma SlotIsQuotient(x: nat, w: nat)
    requires w > 0
    ensures forall p: nat :: x * w <= p < x * w + w <==> p / w == x
  {
    forall p: nat
      ensures x * w <= p < x * w + w <==> p / w == x
    {
      var q := p / w;
      assert q * w <= p < q * w + w;
      if x * w <= p < x * w + w {
        SameSlot(x, q, w, p);
      }
    }
  }

  /**
   Where the tile of cell c is copied: offset (x * width, y * height). A
   pixel lands in it exactly when dividing its coordinates by the tile size
   gives the cell.
   */
  function Region(c: Cell, width: nat, height: nat): (r: Rect)
    ensures width > 0 && height > 0 ==>
      forall px: nat, py: nat :: Covers(r, px, py) <==> px / width == c.x && py / height == c.y
  {
    if width > 0 && height > 0 then
      SlotIsQuotient(c.x, width);
      SlotIsQuotient(c.y, height);
      Rect(c.x * width, c.y * height, width, height)
    else Rect(c.x * width, c.y * height, width, height)
  }

  lemma MulMonotone(a: nat, b: nat, w: nat)
    requires a <= b
    ensures a * w <= b * w
  {
  }

  /** A coordinate lies in the span of at most one slot of size w. */
  lemma SameSlot(a: nat, b: nat, w: nat, p: nat)
    requires a * w <= p < a * w + w
    requires b * w <= p < b * w + w
    ensures a == b
  {
    if a < b {
      MulMonotone(a + 1, b, w);
    } else if b < a {
      MulMonotone(b + 1, a, w);
    }
  }

  /** A cell of the grid is copied entirely inside the canvas. */
  lemma RegionInsideCanvas(c: Cell, columns: nat, rows: nat, width: nat, height: nat)
    requires InGrid(c, columns, rows)
    ensures Within(Region(c, width, height), Canvas(columns, rows, width, height))
  {
    MulMonotone(c.x + 1, columns, width);
    MulMonotone(c.y + 1, rows, height);
  }

  /** Two different cells are copied to regions that share no pixel. */
  lemma RegionsDisjoint(a: Cell, b: Cell, width: nat, height: nat)
    requires a != b
    ensures Disjoint(Region(a, width, height), Region(b, width, height))
  {
    forall px: nat, py: nat
      ensures !(Covers(Region(a, width, height), px, py) && Covers(Region(b, width, height), px, py))
    {
      if Covers(Region(a, width, height), px, py) && Covers(Region(b, width, height), px, py) {
        SameSlot(a.x, b.x, width, px);
        SameSlot(a.y, b.y, height, py);
      }
    }
  }

  /** Every pixel of the canvas belongs to the region of some cell of the grid. */
  lemma CanvasCovered(columns: nat, rows: nat, width: nat, height: nat, px: nat, py: nat)
    requires Covers(Canvas(columns, rows, width, height), px, py)
    ensures width > 0 && height > 0
    ensures InGrid(Cell(px / width, py / height), columns, rows)
    ensures Covers(Region(Cell(px / width, py / height), width, height), px, py)
  {
  }

  // ---------------------------------------------------------------------
  // The rip

  /** `head.dimensions()`: the pixel size of the decoded head tile. */
  datatype Tile = Tile(width: nat, height: nat)

  /** `deathrip::Error`. */
  datatype RipError = HttpError(error: Limit.HttpError) | ImageError | ImageFormatGuessError

  /** One `copy_from` of a fetched cell: which cell, and the rectangle it fills. */
  datatype Placement = Placement(cell: Cell, region: Rect)

  datatype Layout = Layout(canvas: Rect, head: Rect, placements: seq<Placement>)

  function Place(c: Cell, width: nat, height: nat): Placement {
    Placement(c, Region(c, width, height))
  }

  function PlaceAll(cells: seq<Cell>, width: nat, height: nat): (ps: seq<Placement>)
    ensures |ps| == |cells|
  {
    seq(|cells|, k requires 0 <= k < |cells| => Place(cells[k], width, height))
  }

  /** The canvas, the head's region at (0, 0), and every other cell at its offset. */
  function FullLayout(columns: nat, rows: nat, width: nat, height: nat): (l: Layout)
    ensures l.canvas.width == columns * width && l.canvas.height == rows * height
  {
    Layout(Canvas(columns, rows, width, height), Region(Head, width, height),
           PlaceAll(Cells(columns, rows), width, height))
  }

  /**
   `rip` once the dimensions and the head tile are in: the canvas is
   columns x rows tiles of the head's size, the head is copied to (0, 0), and
   every other cell is then copied to its own offset. A failure of either
   input is returned (the dimension error first); a head that does not fit
   the canvas makes `copy_from` fail.
   */
  function Rip(dims: Result<(nat, nat), Limit.HttpError>, head: Result<Tile, RipError>): (r: Result<Layout, RipError>)
    ensures dims.Err? ==> r == Err(HttpError(dims.error))
    ensures dims.Ok? && head.Err? ==> r == Err(head.error)
    ensures r.Ok? <==> (dims.Ok? && head.Ok? &&
                        Within(Region(Head, head.value.width, head.value.height),
                               Canvas(dims.value.0, dims.value.1, head.value.width, head.value.height)))
    ensures r.Ok? ==> r.value.canvas.width == dims.value.0 * head.value.width
    ensures r.Ok? ==> r.value.canvas.height == dims.value.1 * head.value.height
  {
    match dims
    case Err(e) => Err(HttpError(e))
    case Ok((columns, rows)) =>
      match head
      case Err(e) => Err(e)
      case Ok(tile) =>
        var layout := FullLayout(columns, rows, tile.width, tile.height);
        if !Within(layout.head, layout.canvas) then Err(ImageError) else Ok(layout)
  }

  /** With at least one column and one row, the head always fits. */
  lemma HeadFits(columns: nat, rows: nat, width: nat, height: nat)
    requires 1 <= columns && 1 <= rows
    ensures Within(Region(Head, width, height), Canvas(columns, rows, width, height))
  {
    RegionInsideCanvas(Head, columns, rows, width, height);
  }

  /**
   The layout is an exact tiling of a columns x rows grid: every placement
   lies inside the canvas, no placement overlaps the head or another
   placement, the placements are the grid's cells but (0, 0), and together
   with the head they cover every pixel of the canvas.
   */
  ghost predicate Tiles(l: Layout, columns: nat, rows: nat) {
    && (forall k :: 0 <= k < |l.placements| ==> Within(l.placements[k].region, l.canvas))
    && (forall k :: 0 <= k < |l.placements| ==> Disjoint(l.placements[k].region, l.head))
    && (forall i, j :: 0 <= i < j < |l.placements| ==> Disjoint(l.placements[i].region, l.placements[j].region))
    && (forall c :: c in PlacedCells(l) <==> InGrid(c, columns, rows) && c != Head)
    && (forall i, j :: 0 <= i < j < |l.placements| ==> l.placements[i].cell != l.placements[j].cell)
    && (forall px: nat, py: nat :: Covers(l.canvas, px, py) ==>
          Covers(l.head, px, py) || exists k :: 0 <= k < |l.placements| && Covers(l.placements[k].region, px, py))
  }

  lemma PlacementsInsideCanvas(columns: nat, rows: nat, w: nat, h: nat)
    ensures var l := FullLayout(columns, rows, w, h);
      forall k :: 0 <= k < |l.placements| ==> Within(l.placements[k].region, l.canvas) && Disjoint(l.placements[k].region, l.head)
  {
    var l, cells := FullLayout(columns, rows, w, h), Cells(columns, rows);
    CellsCoverGridOnce(columns, rows);
    forall k | 0 <= k < |l.placements|
      ensures Within(l.placements[k].region, l.canvas) && Disjoint(l.placements[k].region, l.head)
    {
      assert cells[k] in cells;
      RegionInsideCanvas(cells[k], columns, rows, w, h);
      RegionsDisjoint(cells[k], Head, w, h);
    }
  }

  lemma PlacementsDisjoint(columns: nat, rows: nat, w: nat, h: nat)
    ensures var l := FullLayout(columns, rows, w, h);
      forall i, j :: 0 <= i < j < |l.placements| ==> Disjoint(l.placements[i].region, l.placements[j].region)
  {
    var l, cells := FullLayout(columns, rows, w, h), Cells(columns, rows);
    CellsCoverGridOnce(columns, rows);
    forall i, j | 0 <= i < j < |l.placements|
      ensures Disjoint(l.placements[i].region, l.placements[j].region)
    {
      RegionsDisjoint(cells[i], cells[j], w, h);
    }
  }

  /** The cells the placements fill, in order. */
  function PlacedCells(l: Layout): (cs: seq<Cell>)
    ensures |cs| == |l.placements|
  {
    seq(|l.placements|, k requires 0 <= k < |l.placements| => l.placements[k].cell)
  }

  lemma PlacementsAreCells(columns: nat, rows: nat, w: nat, h: nat)
    ensures var l := FullLayout(columns, rows, w, h);
      && (forall c :: c in PlacedCells(l) <==> InGrid(c, columns, rows) && c != Head)
      && (forall i, j :: 0 <= i < j < |l.placements| ==> l.placements[i].cell != l.placements[j].cell)
  {
    var l := FullLayout(columns, rows, w, h);
    CellsCoverGridOnce(columns, rows);
    assert PlacedCells(l) == Cells(columns, rows);
  }

  lemma TilesCoverCanvas(columns: nat, rows: nat, w: nat, h: nat)
    ensures var l := FullLayout(columns, rows, w, h);
      forall px: nat, py: nat :: Covers(l.canvas, px, py) ==>
        Covers(l.head, px, py) || exists k :: 0 <= k < |l.placements| && Covers(l.placements[k].region, px, py)
  {
    var l, cells := FullLayout(columns, rows, w, h), Cells(columns, rows);
    CellsCoverGridOnce(columns, rows);
    forall px: nat, py: nat | Covers(l.canvas, px, py)
      ensures Covers(l.head, px, py) || exists k :: 0 <= k < |l.placements| && Covers(l.placements[k].region, px, py)
    {
      CanvasCovered(columns, rows, w, h, px, py);
      var c := Cell(px / w, py / h);
      if c != Head {
        assert c in cells;
        var k :| 0 <= k < |cells| && cells[k] == c;
        assert Covers(l.placements[k].region, px, py);
      }
    }
  }

  /** A successful rip's layout is an exact tiling of the probed grid. */
  lemma RipTilesCanvas(dims: Result<(nat, nat), Limit.HttpError>, head: Result<Tile, RipError>)
    requires Rip(dims, head).Ok?
    ensures Tiles(Rip(dims, head).value, dims.value.0, dims.value.1)
  {
    var (columns, rows) := dims.value;
    var w, h := head.value.width, head.value.height;
    assert Rip(dims, head).value == FullLayout(columns, rows, w, h);
    PlacementsInsideCanvas(columns, rows, w, h);
    PlacementsDisjoint(columns, rows, w, h);
    PlacementsAreCells(columns, rows, w, h);
    TilesCoverCanvas(columns, rows, w, h);
  }

  /** With at least one column and one row the rip succeeds, with columns x rows - 1 placements. */
  lemma RipLayout(columns: nat, rows: nat, tile: Tile)
    requires 1 <= columns && 1 <= rows
    ensures Rip(Ok((columns, rows)), Ok(tile)) == Ok(FullLayout(columns, rows, tile.width, tile.height))
    ensures |FullLayout(columns, rows, tile.width, tile.height).placements| == columns * rows - 1
  {
    HeadFits(columns, rows, tile.width, tile.height);
    CellsCoverGridOnce(columns, rows);
    assert columns * rows >= 1 by {
      MulMonotone(1, columns, rows);
    }
  }

  /** `dims_task`: the dimension probe with its error wrapped by `Error::HttpError`. */
  function DimsTask(dims: Option<Result<(nat, nat), Limit.HttpError>>): (r: Option<Result<(nat, nat), RipError>>)
    ensures r.Some? <==> dims.Some?
    ensures FinishedOk(r) <==> FinishedOk(dims)
    ensures FinishedOk(r) ==> r.value.value == dims.value.value
    ensures FinishedErr(r) ==> r.value.error == HttpError(dims.value.error)
  {
    match dims
    case None => None
    case Some(Ok(d)) => Some(Ok(d))
    case Some(Err(e)) => Some(Err(HttpError(e)))
  }

  /**
   The whole rip against a server: `try_join!` of the dimension probes, under
   their interleavings, with the head fetch, whose outcome is known; then the
   layout. `None` while the join is still waiting. A failed head ends the
   join at once, running probes or not; when both have failed, the
   dimension error is the one reported.
   */
  function RipFromServer(endpoint: Dimensions.Endpoint, base: string, zoom: nat, nHalf: nat,
                         columnSchedule: seq<nat>, rowSchedule: seq<nat>, head: Result<Tile, RipError>): (r: Option<Result<Layout, RipError>>)
    ensures var dims := Dimensions.DetermineDimensions(endpoint, base, zoom, nHalf, columnSchedule, rowSchedule);
      r.None? <==> dims.None? && head.Ok?
    ensures var dims := Dimensions.DetermineDimensions(endpoint, base, zoom, nHalf, columnSchedule, rowSchedule);
      head.Err? && !FinishedErr(dims) ==> r == Some(Err(head.error))
    ensures var dims := Dimensions.DetermineDimensions(endpoint, base, zoom, nHalf, columnSchedule, rowSchedule);
      FinishedErr(dims) ==> r == Some(Err(HttpError(dims.value.error)))
    ensures var dims := Dimensions.DetermineDimensions(endpoint, base, zoom, nHalf, columnSchedule, rowSchedule);
      FinishedOk(dims) && head.Ok? ==> r == Some(Rip(dims.value, head))
  {
    match TryJoin(DimsTask(Dimensions.DetermineDimensions(endpoint, base, zoom, nHalf, columnSchedule, rowSchedule)), Some(head))
    case None => None
    case Some(Err(e)) => Some(Err(e))
    case Some(Ok((dims, tile))) => Some(Rip(Ok(dims), Ok(tile)))
  }

  /**
   On a server whose columns and rows end at their first boundaries, a rip
   whose probes finish and whose head tile decodes lays out the full grid of
   exactly columns x rows tiles of the head's size.
   */
  lemma RipFromServerLaysOutGrid(endpoint: Dimensions.Endpoint, base: string, zoom: nat, columns: Level, rows: Level,
                                 nHalf: nat, columnSchedule: seq<nat>, rowSchedule: seq<nat>, tile: Tile)
    requires Dimensions.FirstBoundaryAt(endpoint, Dimensions.ColumnsTemplate(base, zoom), columns)
    requires Dimensions.FirstBoundaryAt(endpoint, Dimensions.RowsTemplate(base, zoom), rows)
    requires columns <= USIZE_MAX && rows <= USIZE_MAX && 1 <= nHalf
    requires Dimensions.DetermineColumns(endpoint, base, zoom, nHalf, columnSchedule).Some?
    requires Dimensions.DetermineRows(endpoint, base, zoom, nHalf, rowSchedule).Some?
    ensures RipFromServer(endpoint, base, zoom, nHalf, columnSchedule, rowSchedule, Ok(tile))
            == Some(Ok(FullLayout(columns, rows, tile.width, tile.height)))
  {
    Dimensions.DimensionsAreFirstBoundaries(endpoint, base, zoom, columns, rows, nHalf, columnSchedule, rowSchedule);
    RipLayout(columns, rows, tile);
  }

  // ---------------------------------------------------------------------
  // The fetch-and-copy loop

  lemma Drop1Append<T>(s: seq<T>, t: T)
    ensures Drop1(s + [t]) == if |s| == 0 then [] else Drop1(s) + [t]
  {
    if |s| > 0 {
      assert (s + [t])[1..] == s[1..] + [t];
    }
  }

  lemma PlaceAllAppend(cells: seq<Cell>, c: Cell, width: nat, height: nat)
    ensures PlaceAll(cells + [c], width, height) == PlaceAll(cells, width, height) + [Place(c, width, height)]
  {
  }

  /**
   The placements the fetch tasks perform, in the order the cell iterator
   yields them: x outer, y inner, the first pair skipped.
   */
  method PlaceCells(columns: nat, rows: nat, width: nat, height: nat) returns (ps: seq<Placement>)
    ensures ps == PlaceAll(Cells(columns, rows), width, height)
  {
    ps := [];
    var first := true;
    var x := 0;
    while x < columns
      invariant x <= columns
      invariant first <==> |Product(x, rows)| == 0
      invariant ps == PlaceAll(Drop1(Product(x, rows)), width, height)
    {
      var y := 0;
      var col := Column(x, rows);
      while y < rows
        invariant y <= rows
        invariant first <==> |Product(x, rows)| + y == 0
        invariant ps == PlaceAll(Drop1(Product(x, rows) + col[..y]), width, height)
      {
        var done := Product(x, rows) + col[..y];
        assert done + [Cell(x, y)] == Product(x, rows) + col[..y + 1];
        Drop1Append(done, Cell(x, y));
        if first {
          first := false;
        } else {
          PlaceAllAppend(Drop1(done), Cell(x, y), width, height);
          ps := ps + [Place(Cell(x, y), width, height)];
        }
        y := y + 1;
      }
      assert col[..rows] == col;
      x := x + 1;
    }
  }
}
