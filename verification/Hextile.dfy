/** The hextile encoding of RFC 6143, section 7.7.4: abstract tiles, the colours they mean,
    the grid they cover and the bytes that carry them. Nothing here refers to a decoder. */
module Hextile {
  import opened Bytes
  import opened Panels

  // ----- Subencoding bits -----

  predicate RawBit(sub: byte) { sub % 2 == 1 }
  predicate BackgroundBit(sub: byte) { (sub / 2) % 2 == 1 }
  predicate ForegroundBit(sub: byte) { (sub / 4) % 2 == 1 }
  predicate SubrectsBit(sub: byte) { (sub / 8) % 2 == 1 }
  predicate ColouredBit(sub: byte) { (sub / 16) % 2 == 1 }

  // ----- Abstract tiles -----

  datatype Subrect = Subrect(colour: word, x: nat, y: nat, w: nat, h: nat)

  /** A tile with its subencoding byte. A value whose bit is clear is not sent. */
  datatype Tile =
    | Raw(sub: byte, pixels: seq<word>)
    | Coded(sub: byte, bg: word, fg: word, subrects: seq<Subrect>)

  /** Background and foreground carried from tile to tile. */
  datatype Carry = Carry(bg: word, fg: word)

  /** One or two bytes for each pixel. */
  type depth = d: nat | d == 1 || d == 2 witness 1

  predicate Fits(d: depth, v: word)
  {
    d == 2 || v < 256
  }

  predicate ValidSubrect(d: depth, s: Subrect)
  {
    && 0 < s.w && s.x + s.w <= 16
    && 0 < s.h && s.y + s.h <= 16
    && Fits(d, s.colour)
  }

  predicate ValidSubrects(d: depth, subs: seq<Subrect>)
  {
    forall k :: 0 <= k < |subs| ==> ValidSubrect(d, subs[k])
  }

  predicate ValidTile(d: depth, t: Tile, w: byte, h: byte)
  {
    match t
    case Raw(sub, pixels) =>
      RawBit(sub) && |pixels| == Cells(w, h) && forall k :: 0 <= k < |pixels| ==> Fits(d, pixels[k])
    case Coded(sub, bg, fg, subrects) =>
      && !RawBit(sub)
      && Fits(d, bg) && Fits(d, fg)
      && |subrects| <= 255
      && (!SubrectsBit(sub) ==> subrects == [])
      && ValidSubrects(d, subrects)
  }

  // ----- What a tile means -----

  predicate Covers(s: Subrect, i: int, j: int)
  {
    s.x <= i < s.x + s.w && s.y <= j < s.y + s.h
  }

  /** The colour of cell (i, j): the last subrectangle that covers it, else the base. */
  function SubrectColour(base: word, fg: word, coloured: bool, subs: seq<Subrect>, i: int, j: int): word
  {
    if subs == [] then base
    else
      var top := subs[|subs| - 1];
      if Covers(top, i, j) then if coloured then top.colour else fg
      else SubrectColour(base, fg, coloured, subs[..|subs| - 1], i, j)
  }

  /** The carry once the tile's own background and foreground are read. */
  function CarryInto(c: Carry, t: Tile): Carry
  {
    match t
    case Raw(_, _) => c
    case Coded(sub, bg, fg, _) =>
      Carry(if BackgroundBit(sub) then bg else c.bg, if ForegroundBit(sub) then fg else c.fg)
  }

  /** The tile has subrectangles in the foreground colour. */
  predicate UsesForeground(t: Tile)
  {
    t.Coded? && !ColouredBit(t.sub) && t.subrects != []
  }

  /** Section 7.7.4: the colour of cell (i, j) of tile t, given the carry from the tile before. */
  function TileColour(c: Carry, t: Tile, w: byte, h: byte, i: nat, j: nat): word
    requires ValidTile(2, t, w, h) && i < w && j < h
  {
    match t
    case Raw(_, pixels) => PixelAt(pixels, w, h, i, j)
    case Coded(sub, _, _, subrects) =>
      var now := CarryInto(c, t);
      SubrectColour(now.bg, now.fg, ColouredBit(sub), subrects, i, j)
  }

  function ColourRow(c: Carry, t: Tile, w: byte, j: nat): (px: seq<word>)
    requires t.Coded?
    ensures |px| == w
  {
    var now := CarryInto(c, t);
    seq(w, i requires 0 <= i < w => SubrectColour(now.bg, now.fg, ColouredBit(t.sub), t.subrects, i, j))
  }

  function ColourRows(c: Carry, t: Tile, w: byte, h: byte): (px: seq<word>)
    requires t.Coded?
    ensures |px| == Cells(w, h)
    decreases h
  {
    if h == 0 then [] else
      ColourRows(c, t, w, h - 1) + ColourRow(c, t, w, h - 1)
  }

  /** The tile's pixels in the order they go to the panel. */
  function TilePixels(c: Carry, t: Tile, w: byte, h: byte): (px: seq<word>)
    requires ValidTile(2, t, w, h)
    ensures |px| == Cells(w, h)
  {
    if t.Raw? then t.pixels else ColourRows(c, t, w, h)
  }

  lemma {:induction false} ColourRowsAt(c: Carry, t: Tile, w: byte, h: byte, i: nat, j: nat)
    requires t.Coded? && i < w && j < h
    ensures var now := CarryInto(c, t);
            PixelAt(ColourRows(c, t, w, h), w, h, i, j) ==
            SubrectColour(now.bg, now.fg, ColouredBit(t.sub), t.subrects, i, j)
    decreases h
  {
    CellIndex(w, h, i, j);
    if j < h - 1 {
      ColourRowsAt(c, t, w, h - 1, i, j);
      CellIndex(w, h - 1, i, j);
    }
  }

  lemma TilePixelsAt(c: Carry, t: Tile, w: byte, h: byte, i: nat, j: nat)
    requires ValidTile(2, t, w, h) && i < w && j < h
    ensures PixelAt(TilePixels(c, t, w, h), w, h, i, j) == TileColour(c, t, w, h, i, j)
  {
    if t.Coded? {
      ColourRowsAt(c, t, w, h, i, j);
    }
  }

  /** A buffer that holds the right colour in every cell of the tile streams the tile's pixels. */
  lemma {:induction false} CellsAreColours(buf: seq<byte>, c: Carry, t: Tile, w: byte, h: byte)
    requires |buf| == 512 && w <= 16 && h <= 16 && t.Coded?
    requires var now := CarryInto(c, t);
             forall i: nat, j: nat {:trigger Cell(buf, i, j)} :: i < w && j < h ==>
               Cell(buf, i, j) == SubrectColour(now.bg, now.fg, ColouredBit(t.sub), t.subrects, i, j)
    ensures TileCells(buf, w, h) == ColourRows(c, t, w, h)
    decreases h
  {
    if h > 0 {
      CellsAreColours(buf, c, t, w, h - 1);
      assert RowCells(buf, w, h - 1) == ColourRow(c, t, w, h - 1);
    }
  }

  // ----- Which colours a tile shows -----

  ghost predicate Covered(subs: seq<Subrect>, i: int, j: int)
  {
    exists m :: 0 <= m < |subs| && Covers(subs[m], i, j)
  }

  /** Some cell of the tile has the background colour. */
  ghost predicate ShowsBackground(t: Tile, w: byte, h: byte)
  {
    t.Coded? && exists i: nat, j: nat :: i < w && j < h && !Covered(t.subrects, i, j)
  }

  /** Some cell of the tile has the foreground colour. */
  ghost predicate ShowsForeground(t: Tile, w: byte, h: byte)
  {
    t.Coded? && !ColouredBit(t.sub) && exists i: nat, j: nat :: i < w && j < h && Covered(t.subrects, i, j)
  }

  /** The cell of a tile shows the base, the foreground, or neither of them. */
  lemma {:induction false} ColourOfCell(base: word, fg: word, coloured: bool, subs: seq<Subrect>, i: int, j: int)
    ensures var c := SubrectColour(base, fg, coloured, subs, i, j);
            if !Covered(subs, i, j) then c == base
            else if !coloured then c == fg
            else c == SubrectColour(0, 0, true, subs, i, j)
    decreases |subs|
  {
    if subs != [] {
      var n := |subs| - 1;
      CoveredTop(subs, i, j);
      if !Covers(subs[n], i, j) {
        ColourOfCell(base, fg, coloured, subs[..n], i, j);
      }
    }
  }

  lemma CoveredTop(subs: seq<Subrect>, i: int, j: int)
    requires subs != []
    ensures Covered(subs, i, j) <==> Covers(subs[|subs| - 1], i, j) || Covered(subs[..|subs| - 1], i, j)
  {
    var n := |subs| - 1;
    if Covered(subs[..n], i, j) {
      var m :| 0 <= m < n && Covers(subs[..n][m], i, j);
      assert Covers(subs[m], i, j);
    }
    if Covered(subs, i, j) {
      var m :| 0 <= m < |subs| && Covers(subs[m], i, j);
      if m < n {
        assert Covers(subs[..n][m], i, j);
      }
    }
  }

  /** From two carries the tile gets the same of those colours that it shows. */
  ghost predicate SameShown(c: Carry, d: Carry, t: Tile, w: byte, h: byte)
  {
    && (ShowsBackground(t, w, h) ==> CarryInto(c, t).bg == CarryInto(d, t).bg)
    && (ShowsForeground(t, w, h) ==> CarryInto(c, t).fg == CarryInto(d, t).fg)
  }

  lemma SameCell(c: Carry, d: Carry, t: Tile, w: byte, h: byte, i: nat, j: nat)
    requires ValidTile(2, t, w, h) && i < w && j < h && SameShown(c, d, t, w, h)
    ensures TileColour(c, t, w, h, i, j) == TileColour(d, t, w, h, i, j)
  {
    if t.Coded? {
      var m, n := CarryInto(c, t), CarryInto(d, t);
      ColourOfCell(m.bg, m.fg, ColouredBit(t.sub), t.subrects, i, j);
      ColourOfCell(n.bg, n.fg, ColouredBit(t.sub), t.subrects, i, j);
    }
  }

  /** If every cell is the same, so are the colours shown. */
  lemma CellsTell(c: Carry, d: Carry, t: Tile, w: byte, h: byte)
    requires ValidTile(2, t, w, h)
    requires forall i: nat, j: nat :: i < w && j < h ==> TileColour(c, t, w, h, i, j) == TileColour(d, t, w, h, i, j)
    ensures SameShown(c, d, t, w, h)
  {
    if t.Coded? {
      var m, n, coloured := CarryInto(c, t), CarryInto(d, t), ColouredBit(t.sub);
      forall i: nat, j: nat | i < w && j < h
        ensures !Covered(t.subrects, i, j) ==> m.bg == n.bg
        ensures !coloured && Covered(t.subrects, i, j) ==> m.fg == n.fg
      {
        assert TileColour(c, t, w, h, i, j) == TileColour(d, t, w, h, i, j);
        ColourOfCell(m.bg, m.fg, coloured, t.subrects, i, j);
        ColourOfCell(n.bg, n.fg, coloured, t.subrects, i, j);
      }
    }
  }

  lemma {:induction false} RowsSame(c: Carry, d: Carry, t: Tile, w: byte, h: byte)
    requires ValidTile(2, t, w, h) && t.Coded?
    requires forall i: nat, j: nat :: i < w && j < h ==> TileColour(c, t, w, h, i, j) == TileColour(d, t, w, h, i, j)
    ensures ColourRows(c, t, w, h) == ColourRows(d, t, w, h)
    decreases h
  {
    if h > 0 {
      var n: byte := h - 1;
      forall i: nat, j: nat | i < w && j < n
        ensures TileColour(c, t, w, n, i, j) == TileColour(d, t, w, n, i, j)
      {
        assert TileColour(c, t, w, h, i, j) == TileColour(d, t, w, h, i, j);
      }
      RowsSame(c, d, t, w, n);
      var one, two := ColourRow(c, t, w, n), ColourRow(d, t, w, n);
      forall i | 0 <= i < w
        ensures one[i] == two[i]
      {
        assert TileColour(c, t, w, h, i, n) == TileColour(d, t, w, h, i, n);
      }
      assert one == two;
    }
  }

  /** A tile has the same pixels from two carries if and only if it gets the same of the colours
      that it shows. */
  lemma SamePixels(c: Carry, d: Carry, t: Tile, w: byte, h: byte)
    requires ValidTile(2, t, w, h)
    ensures TilePixels(c, t, w, h) == TilePixels(d, t, w, h) <==> SameShown(c, d, t, w, h)
  {
    hide SameShown, TileColour;
    if SameShown(c, d, t, w, h) {
      if t.Coded? {
        forall i: nat, j: nat | i < w && j < h
          ensures TileColour(c, t, w, h, i, j) == TileColour(d, t, w, h, i, j)
        {
          SameCell(c, d, t, w, h, i, j);
        }
        RowsSame(c, d, t, w, h);
      }
    } else if TilePixels(c, t, w, h) == TilePixels(d, t, w, h) {
      forall i: nat, j: nat | i < w && j < h
        ensures TileColour(c, t, w, h, i, j) == TileColour(d, t, w, h, i, j)
      {
        TilePixelsAt(c, t, w, h, i, j);
        TilePixelsAt(d, t, w, h, i, j);
      }
      CellsTell(c, d, t, w, h);
    }
  }

  /** A tile whose subrectangles lie inside it shows the foreground if it uses it. */
  lemma InsideShows(t: Tile, w: byte, h: byte)
    requires ValidTile(2, t, w, h) && UsesForeground(t)
    requires forall k :: 0 <= k < |t.subrects| ==> InsideTile(t.subrects[k], w, h)
    ensures ShowsForeground(t, w, h)
  {
    var q := t.subrects[0];
    assert Covers(q, q.x, q.y);
    assert Covered(t.subrects, q.x, q.y);
  }

  /** A subrectangle inside the w x h cells of its tile. */
  predicate InsideTile(s: Subrect, w: nat, h: nat)
  {
    s.x + s.w <= w && s.y + s.h <= h
  }

  // ----- The grid of tiles of a rectangle -----

  datatype Area = Area(x: nat, y: nat, w: nat, h: nat)

  predicate Inside(r: Area, a: int, b: int)
  {
    r.x <= a < r.x + r.w && r.y <= b < r.y + r.h
  }

  /** The number of tiles that cover a length of n pixels. */
  function Across(n: nat): nat
  {
    (n + 15) / 16
  }

  /** The tile in column col, row row of the grid of r. */
  function GridArea(r: Area, col: nat, row: nat): Area
    requires col < Across(r.w) && row < Across(r.h)
  {
    Area(r.x + 16 * col, r.y + 16 * row, Min(16, r.w - 16 * col), Min(16, r.h - 16 * row))
  }

  /** Every pixel of a rectangle lies in exactly one tile of its grid, and tiles stay inside. */
  lemma GridPartition(r: Area, a: int, b: int, col: nat, row: nat)
    requires col < Across(r.w) && row < Across(r.h)
    ensures Inside(GridArea(r, col, row), a, b) <==>
            Inside(r, a, b) && col == (a - r.x) / 16 && row == (b - r.y) / 16
    ensures Inside(r, a, b) ==> (a - r.x) / 16 < Across(r.w) && (b - r.y) / 16 < Across(r.h)
    ensures 0 < GridArea(r, col, row).w <= 16 && 0 < GridArea(r, col, row).h <= 16
  {
  }

  // ----- The local window -----

  const SCREEN_WIDTH: word := 128
  const SCREEN_HEIGHT: word := 160

  predicate InWindow(r: Area)
  {
    r.x + r.w <= SCREEN_WIDTH && r.y + r.h <= SCREEN_HEIGHT
  }

  function PaintTile(p: Panel, r: Area, px: seq<word>): Panel
  {
    if InWindow(r) && r.w < 256 && r.h < 256 then PutAll(SetWindow(p, r.x, r.y, r.w, r.h), px) else p
  }

  // ----- Tiles of a rectangle in row-major order -----

  predicate ValidTiles(d: depth, r: Area, tiles: seq<Tile>, col: nat, row: nat)
    decreases |tiles|
  {
    if tiles == [] then
      col == 0 && row == Across(r.h)
    else
      && col < Across(r.w) && row < Across(r.h)
      && var g := GridArea(r, col, row);
      && ValidTile(d, tiles[0], g.w, g.h)
      && if col + 1 < Across(r.w) then ValidTiles(d, r, tiles[1..], col + 1, row)
         else ValidTiles(d, r, tiles[1..], 0, row + 1)
  }

  function CarryThrough(c: Carry, tiles: seq<Tile>): Carry
    decreases |tiles|
  {
    if tiles == [] then c else CarryThrough(CarryInto(c, tiles[0]), tiles[1..])
  }

  /** The panel once the tiles from grid cell (col, row) on are drawn. */
  function PaintTiles(p: Panel, r: Area, c: Carry, tiles: seq<Tile>, col: nat, row: nat): Panel
    requires ValidTiles(2, r, tiles, col, row)
    decreases |tiles|
  {
    if tiles == [] then p
    else
      var g := GridArea(r, col, row);
      var q := PaintTile(p, g, TilePixels(c, tiles[0], g.w, g.h));
      var c' := CarryInto(c, tiles[0]);
      if col + 1 < Across(r.w) then PaintTiles(q, r, c', tiles[1..], col + 1, row)
      else PaintTiles(q, r, c', tiles[1..], 0, row + 1)
  }

  /** Row-major position of grid cell (i, j). */
  function GridIndex(r: Area, i: nat, j: nat): nat
  {
    Cells(Across(r.w), j) + i
  }

  lemma GridCount(r: Area, tiles: seq<Tile>, d: depth, col: nat, row: nat)
    requires ValidTiles(d, r, tiles, col, row) && 0 < r.w && 0 < r.h
    ensures row <= Across(r.h) && GridIndex(r, col, row) + |tiles| == Cells(Across(r.w), Across(r.h))
    decreases |tiles|
  {
    if tiles == [] {
    } else if col + 1 < Across(r.w) {
      GridCount(r, tiles[1..], d, col + 1, row);
    } else {
      GridCount(r, tiles[1..], d, 0, row + 1);
    }
  }

  /** The k-th tile of a valid list has the shape of the k-th grid cell. */
  lemma {:induction false} TileAt(d: depth, r: Area, tiles: seq<Tile>, col: nat, row: nat, i: nat, j: nat)
    requires ValidTiles(d, r, tiles, col, row)
    requires i < Across(r.w) && j < Across(r.h) && !Before(i, j, col, row)
    ensures var k := GridIndex(r, i, j) - GridIndex(r, col, row);
            0 <= k < |tiles| && ValidTile(d, tiles[k], GridArea(r, i, j).w, GridArea(r, i, j).h)
    decreases |tiles|
  {
    if tiles != [] && !(i == col && j == row) {
      var col1, row1 := if col + 1 < Across(r.w) then col + 1 else 0, if col + 1 < Across(r.w) then row else row + 1;
      GridStep(r, col, row);
      TileAt(d, r, tiles[1..], col1, row1, i, j);
    }
  }

  lemma GridStep(r: Area, col: nat, row: nat)
    requires col < Across(r.w)
    ensures GridIndex(r, col, row) + 1 ==
            if col + 1 < Across(r.w) then GridIndex(r, col + 1, row) else GridIndex(r, 0, row + 1)
  {
  }

  /** The colour of pixel (a, b), in grid cell (i, j), when `tiles` start at grid cell (col, row). */
  function PartColour(r: Area, c: Carry, tiles: seq<Tile>, col: nat, row: nat, i: nat, j: nat, a: int, b: int): word
    requires ValidTiles(2, r, tiles, col, row)
    requires i < Across(r.w) && j < Across(r.h) && !Before(i, j, col, row)
    requires Inside(GridArea(r, i, j), a, b)
  {
    TileAt(2, r, tiles, col, row, i, j);
    var k := GridIndex(r, i, j) - GridIndex(r, col, row);
    var g := GridArea(r, i, j);
    TileColour(CarryThrough(c, tiles[..k]), tiles[k], g.w, g.h, a - g.x, b - g.y)
  }

  /** The colour that a list of tiles gives pixel (a, b) of its rectangle: the meaning of the
      row-major tile the pixel is in, under the carry of the tiles before it. */
  function PixelColour(r: Area, c: Carry, tiles: seq<Tile>, a: int, b: int): word
    requires ValidTiles(2, r, tiles, 0, 0) && Inside(r, a, b)
  {
    GridPartition(r, a, b, (a - r.x) / 16, (b - r.y) / 16);
    PartColour(r, c, tiles, 0, 0, (a - r.x) / 16, (b - r.y) / 16, a, b)
  }

  lemma PartColourHere(r: Area, c: Carry, tiles: seq<Tile>, col: nat, row: nat, a: int, b: int)
    requires ValidTiles(2, r, tiles, col, row) && tiles != []
    requires Inside(GridArea(r, col, row), a, b)
    ensures var g := GridArea(r, col, row);
            PartColour(r, c, tiles, col, row, col, row, a, b) == TileColour(c, tiles[0], g.w, g.h, a - g.x, b - g.y)
  {
    assert tiles[..0] == [];
  }

  lemma PartColourStep(r: Area, c: Carry, tiles: seq<Tile>, col: nat, row: nat, i: nat, j: nat, a: int, b: int)
    requires ValidTiles(2, r, tiles, col, row) && tiles != []
    requires i < Across(r.w) && j < Across(r.h) && Before(col, row, i, j)
    requires Inside(GridArea(r, i, j), a, b)
    ensures var col1, row1 := if col + 1 < Across(r.w) then col + 1 else 0,
                              if col + 1 < Across(r.w) then row else row + 1;
            PartColour(r, c, tiles, col, row, i, j, a, b) ==
            PartColour(r, CarryInto(c, tiles[0]), tiles[1..], col1, row1, i, j, a, b)
  {
    var col1, row1 := if col + 1 < Across(r.w) then col + 1 else 0, if col + 1 < Across(r.w) then row else row + 1;
    GridStep(r, col, row);
    TileAt(2, r, tiles[1..], col1, row1, i, j);
    var k := GridIndex(r, i, j) - GridIndex(r, col, row);
    assert tiles[..k][1..] == tiles[1..][..k - 1];
  }

  /** One drawn tile changes exactly its own pixels, and only if all of it is on the screen. */
  lemma TilePicture(p: Panel, g: Area, c: Carry, t: Tile, a: int, b: int)
    requires 0 < g.w <= 16 && 0 < g.h <= 16 && ValidTile(2, t, g.w, g.h)
    ensures At(PaintTile(p, g, TilePixels(c, t, g.w, g.h)).pixels, a, b) ==
            if InWindow(g) && Inside(g, a, b) then Some(TileColour(c, t, g.w, g.h, a - g.x, b - g.y))
            else At(p.pixels, a, b)
  {
    if InWindow(g) {
      WholeTile(p, g.x, g.y, g.w, g.h, TilePixels(c, t, g.w, g.h), a, b);
      if Inside(g, a, b) {
        TilePixelsAt(c, t, g.w, g.h, a - g.x, b - g.y);
      }
    }
  }

  lemma OneCell(r: Area, i: nat, j: nat, col: nat, row: nat, a: int, b: int)
    requires i < Across(r.w) && j < Across(r.h) && Inside(GridArea(r, i, j), a, b)
    requires col < Across(r.w) && row < Across(r.h)
    ensures Inside(GridArea(r, col, row), a, b) <==> col == i && row == j
    ensures Inside(r, a, b)
  {
  }

  /** The picture of the tiles from (col, row) on: cells already passed are left alone. */
  lemma {:induction false} PicturePart(p: Panel, r: Area, c: Carry, tiles: seq<Tile>, col: nat, row: nat,
                                       i: nat, j: nat, a: int, b: int)
    requires ValidTiles(2, r, tiles, col, row)
    requires i < Across(r.w) && j < Across(r.h) && Inside(GridArea(r, i, j), a, b)
    ensures At(PaintTiles(p, r, c, tiles, col, row).pixels, a, b) ==
            if !Before(i, j, col, row) && InWindow(GridArea(r, i, j))
            then Some(PartColour(r, c, tiles, col, row, i, j, a, b))
            else At(p.pixels, a, b)
    decreases |tiles|
  {
    hide PaintTile, TilePixels, CarryInto;
    if tiles != [] {
      var g := GridArea(r, col, row);
      var q := PaintTile(p, g, TilePixels(c, tiles[0], g.w, g.h));
      var c1 := CarryInto(c, tiles[0]);
      var hit := i == col && j == row;
      assert Inside(g, a, b) <==> hit by { OneCell(r, i, j, col, row, a, b); }
      assert At(q.pixels, a, b) ==
             if hit && InWindow(g) then Some(PartColour(r, c, tiles, col, row, i, j, a, b)) else At(p.pixels, a, b) by {
        TilePicture(p, g, c, tiles[0], a, b);
        if hit { PartColourHere(r, c, tiles, col, row, a, b); }
      }
      var col1, row1 := if col + 1 < Across(r.w) then col + 1 else 0, if col + 1 < Across(r.w) then row else row + 1;
      assert PaintTiles(p, r, c, tiles, col, row) == PaintTiles(q, r, c1, tiles[1..], col1, row1);
      PicturePart(q, r, c1, tiles[1..], col1, row1, i, j, a, b);
      if Before(col, row, i, j) {
        PartColourStep(r, c, tiles, col, row, i, j, a, b);
      }
    }
  }

  /** Outside its rectangle a list of tiles changes nothing. */
  lemma {:induction false} PictureOutside(p: Panel, r: Area, c: Carry, tiles: seq<Tile>, col: nat, row: nat,
                                          a: int, b: int)
    requires ValidTiles(2, r, tiles, col, row) && !Inside(r, a, b)
    ensures At(PaintTiles(p, r, c, tiles, col, row).pixels, a, b) == At(p.pixels, a, b)
    decreases |tiles|
  {
    hide PaintTile, TilePixels, CarryInto;
    if tiles != [] {
      var g := GridArea(r, col, row);
      var q := PaintTile(p, g, TilePixels(c, tiles[0], g.w, g.h));
      assert !Inside(g, a, b);
      assert At(q.pixels, a, b) == At(p.pixels, a, b) by { TilePicture(p, g, c, tiles[0], a, b); }
      assert PaintTiles(p, r, c, tiles, col, row) ==
             if col + 1 < Across(r.w) then PaintTiles(q, r, CarryInto(c, tiles[0]), tiles[1..], col + 1, row)
             else PaintTiles(q, r, CarryInto(c, tiles[0]), tiles[1..], 0, row + 1);
      if col + 1 < Across(r.w) {
        PictureOutside(q, r, CarryInto(c, tiles[0]), tiles[1..], col + 1, row, a, b);
      } else {
        PictureOutside(q, r, CarryInto(c, tiles[0]), tiles[1..], 0, row + 1, a, b);
      }
    }
  }

  /** The picture of a whole hextile rectangle, pixel by pixel: the section 7.7.4 colour where the
      pixel's tile lies wholly on the screen, and no change anywhere else. */
  lemma RectanglePicture(p: Panel, r: Area, c: Carry, tiles: seq<Tile>, a: int, b: int)
    requires ValidTiles(2, r, tiles, 0, 0)
    ensures Inside(r, a, b) ==> (a - r.x) / 16 < Across(r.w) && (b - r.y) / 16 < Across(r.h)
    ensures At(PaintTiles(p, r, c, tiles, 0, 0).pixels, a, b) ==
            if Inside(r, a, b) && InWindow(GridArea(r, (a - r.x) / 16, (b - r.y) / 16))
            then Some(PixelColour(r, c, tiles, a, b))
            else At(p.pixels, a, b)
  {
    hide PaintTiles, PartColour;
    if Inside(r, a, b) {
      GridPartition(r, a, b, (a - r.x) / 16, (b - r.y) / 16);
      PicturePart(p, r, c, tiles, 0, 0, (a - r.x) / 16, (b - r.y) / 16, a, b);
    } else {
      PictureOutside(p, r, c, tiles, 0, 0, a, b);
    }
  }

  // ----- The bytes -----

  function EncodePixel(d: depth, v: word): (s: seq<byte>)
    requires Fits(d, v)
    ensures |s| == d
  {
    if d == 1 then [v] else [v % 256, v / 256]
  }

  function EncodePixels(d: depth, px: seq<word>): (s: seq<byte>)
    requires forall k :: 0 <= k < |px| ==> Fits(d, px[k])
    ensures |s| == if d == 1 then |px| else 2 * |px|
  {
    if px == [] then [] else EncodePixel(d, px[0]) + EncodePixels(d, px[1..])
  }

  lemma PixelsOfMore(a: seq<byte>, b: seq<byte>)
    requires |a| == 2
    ensures PixelsOf(a + b) == [Word(a[1], a[0])] + PixelsOf(b)
  {
    var one, two := PixelsOf(a + b), [Word(a[1], a[0])] + PixelsOf(b);
    forall k | 0 <= k < |one|
      ensures one[k] == two[k]
    {
      if k > 0 {
        assert (a + b)[2 * k] == b[2 * (k - 1)] && (a + b)[2 * k + 1] == b[2 * (k - 1) + 1];
      }
    }
    assert one == two;
  }

  /** The pixel loop of the driver reads back the pixels that a raw tile of two-byte pixels sends. */
  lemma {:induction false} PixelsOfEncoded(px: seq<word>)
    ensures PixelsOf(EncodePixels(2, px)) == px
    decreases |px|
  {
    hide PixelsOf;
    if px == [] {
      assert |PixelsOf([])| == 0;
    } else {
      PixelsOfMore(EncodePixel(2, px[0]), EncodePixels(2, px[1..]));
      PixelsOfEncoded(px[1..]);
      assert px == [px[0]] + px[1..];
    }
  }

  /** rfbHextilePackXY and rfbHextilePackWH. */
  function PackXY(x: nat, y: nat): byte
    requires x < 16 && y < 16
  {
    x * 16 + y
  }

  function PackWH(w: nat, h: nat): byte
    requires 1 <= w <= 16 && 1 <= h <= 16
  {
    (w - 1) * 16 + (h - 1)
  }

  function EncodeSubrect(d: depth, coloured: bool, s: Subrect): (e: seq<byte>)
    requires ValidSubrect(d, s)
    ensures |e| == SubrectSize(d, coloured)
  {
    (if coloured then EncodePixel(d, s.colour) else []) + [PackXY(s.x, s.y), PackWH(s.w, s.h)]
  }

  function SubrectSize(d: depth, coloured: bool): nat
  {
    if coloured then 2 + d else 2
  }

  function EncodeSubrects(d: depth, coloured: bool, subs: seq<Subrect>): (e: seq<byte>)
    requires ValidSubrects(d, subs)
    ensures |e| == if !coloured then 2 * |subs| else if d == 1 then 3 * |subs| else 4 * |subs|
  {
    if subs == [] then [] else
      EncodeSubrect(d, coloured, subs[0]) + EncodeSubrects(d, coloured, subs[1..])
  }

  /** The optional fields between the subencoding byte and the subrectangles. */
  function EncodeFields(d: depth, t: Tile): (e: seq<byte>)
    requires t.Coded? && Fits(d, t.bg) && Fits(d, t.fg) && |t.subrects| <= 255
    ensures |e| == FieldsSize(d, t.sub)
  {
    (if BackgroundBit(t.sub) then EncodePixel(d, t.bg) else []) +
    (if ForegroundBit(t.sub) then EncodePixel(d, t.fg) else []) +
    (if SubrectsBit(t.sub) then [|t.subrects|] else [])
  }

  function FieldsSize(d: depth, sub: byte): nat
  {
    (if BackgroundBit(sub) then d else 0) + (if ForegroundBit(sub) then d else 0) + (if SubrectsBit(sub) then 1 else 0)
  }

  function EncodeBody(d: depth, t: Tile): seq<byte>
    requires t.Raw? ==> forall k :: 0 <= k < |t.pixels| ==> Fits(d, t.pixels[k])
    requires t.Coded? ==> Fits(d, t.bg) && Fits(d, t.fg) && |t.subrects| <= 255 && ValidSubrects(d, t.subrects)
  {
    match t
    case Raw(_, pixels) => EncodePixels(d, pixels)
    case Coded(sub, bg, fg, subrects) => EncodeFields(d, t) + EncodeSubrects(d, ColouredBit(sub), subrects)
  }

  function EncodeTile(d: depth, t: Tile, w: byte, h: byte): seq<byte>
    requires ValidTile(d, t, w, h)
  {
    [t.sub] + EncodeBody(d, t)
  }

  function EncodeTiles(d: depth, r: Area, tiles: seq<Tile>, col: nat, row: nat): seq<byte>
    requires ValidTiles(d, r, tiles, col, row)
    decreases |tiles|
  {
    if tiles == [] then []
    else
      var g := GridArea(r, col, row);
      EncodeTile(d, tiles[0], g.w, g.h) +
      if col + 1 < Across(r.w) then EncodeTiles(d, r, tiles[1..], col + 1, row)
      else EncodeTiles(d, r, tiles[1..], 0, row + 1)
  }

  // ----- The bytes, spelt out -----

  /** The bits of the subencoding byte and what each announces, in the order of the standard: 1 raw
      pixels, 2 a background, 4 a foreground, 8 a count of subrectangles, 16 a colour in each; two-byte
      pixels have the low byte first. */
  lemma TileBytes(t: Tile, w: byte, h: byte)
    requires ValidTile(2, t, w, h)
    ensures t.Raw? <==> t.sub % 2 == 1
    ensures t.Coded? ==>
              EncodeTile(2, t, w, h) ==
              [t.sub] + (((if t.sub / 2 % 2 == 1 then [t.bg % 256, t.bg / 256] else []) +
                          (if t.sub / 4 % 2 == 1 then [t.fg % 256, t.fg / 256] else []) +
                          (if t.sub / 8 % 2 == 1 then [|t.subrects|] else [])) +
                         EncodeSubrects(2, t.sub / 16 % 2 == 1, t.subrects))
  {
    hide EncodePixels, EncodeSubrects;
    if t.Coded? {
      PixelBytes(t.bg);
      PixelBytes(t.fg);
      hide EncodePixel;
    }
  }

  lemma PixelBytes(v: word)
    ensures EncodePixel(2, v) == [v % 256, v / 256]
  {
  }

  /** Position and size as nibbles, x and width high. */
  lemma SubrectBytes(s: Subrect, more: seq<Subrect>)
    requires ValidSubrect(2, s) && ValidSubrects(2, more)
    ensures EncodeSubrects(2, false, [s] + more) ==
            [s.x * 16 + s.y, (s.w - 1) * 16 + (s.h - 1)] + EncodeSubrects(2, false, more)
    ensures EncodeSubrects(2, true, [s] + more) ==
            ([s.colour % 256, s.colour / 256] + [s.x * 16 + s.y, (s.w - 1) * 16 + (s.h - 1)]) +
            EncodeSubrects(2, true, more)
  {
    hide EncodePixel;
    PixelBytes(s.colour);
    assert ([s] + more)[1..] == more;
    assert EncodeSubrect(2, false, s) == [s.x * 16 + s.y, (s.w - 1) * 16 + (s.h - 1)];
  }
}
