/** The two decoders against each other. The streaming one draws what RFC 6143 says and drops
    every tile that is not wholly on the screen. The file one has no window test, and lets a
    coloured subrectangle overwrite the carried foreground. */
module Agreement {
  import opened Bytes
  import opened Panels
  import opened Hextile
  import opened TileFile
  import Picture
  import Receiver
  import Streams
  import TileDecoders

  // ----- What each of them draws -----

  /** Drawing a list of tiles as the streaming decoder does. */
  function PaintClipped(p: Panel, drawn: seq<Drawn>): Panel
    decreases |drawn|
  {
    if drawn == [] then p else PaintClipped(PaintTile(p, drawn[0].area, drawn[0].pixels), drawn[1..])
  }

  /** What the standard draws from grid cell (col, row) on. */
  function StandardTiles(r: Area, c: Carry, tiles: seq<Tile>, col: nat, row: nat): seq<Drawn>
    requires ValidTiles(2, r, tiles, col, row)
    decreases |tiles|
  {
    if tiles == [] then []
    else
      var g := GridArea(r, col, row);
      [Drawn(g, TilePixels(c, tiles[0], g.w, g.h))] +
      if col + 1 < Across(r.w) then StandardTiles(r, CarryInto(c, tiles[0]), tiles[1..], col + 1, row)
      else StandardTiles(r, CarryInto(c, tiles[0]), tiles[1..], 0, row + 1)
  }

  lemma {:induction false} PaintedStandard(p: Panel, r: Area, c: Carry, tiles: seq<Tile>, col: nat, row: nat)
    requires ValidTiles(2, r, tiles, col, row)
    ensures PaintTiles(p, r, c, tiles, col, row) == PaintClipped(p, StandardTiles(r, c, tiles, col, row))
    decreases |tiles|
  {
    hide PaintTile, TilePixels, CarryInto;
    if tiles != [] {
      var g := GridArea(r, col, row);
      var q := PaintTile(p, g, TilePixels(c, tiles[0], g.w, g.h));
      var c1 := CarryInto(c, tiles[0]);
      var col1, row1 := if col + 1 < Across(r.w) then col + 1 else 0, if col + 1 < Across(r.w) then row else row + 1;
      PaintedStandard(q, r, c1, tiles[1..], col1, row1);
      var s := StandardTiles(r, c, tiles, col, row);
      assert s[1..] == StandardTiles(r, c1, tiles[1..], col1, row1);
    }
  }

  /** The streaming decoder uses up the rest of a rectangle and draws the standard's tiles in
      order, those that are not wholly on the screen excepted. */
  lemma StreamDrawsStandard(s: Receiver.Rx, r: Area, tiles: seq<Tile>, col: nat, row: nat)
    requires Streams.AtCell(s, r, col, row) && s.tile == Receiver.ParseHeader && tiles != []
    requires ValidTiles(2, r, tiles, col, row) && Streams.PromptTiles(tiles)
    ensures var e := Receiver.Run(s, EncodeTiles(2, r, tiles, col, row));
            && e.Quiet? && e.rest == []
            && e.st.panel == PaintClipped(s.panel, StandardTiles(r, Picture.CarryOf(s), tiles, col, row))
  {
    hide Receiver.Run, PaintTiles, PaintClipped, StandardTiles;
    Streams.RunTiles(s, r, tiles, col, row);
    PaintedStandard(s.panel, r, Picture.CarryOf(s), tiles, col, row);
  }

  // ----- Tile by tile -----

  /** At every tile the two decoders, under carry c of the streaming one and c' of the file one, get
      the same of the colours that the tile shows. */
  ghost predicate ColoursAgree(r: Area, c: Carry, c': Carry, tiles: seq<Tile>, col: nat, row: nat)
    requires ValidTiles(2, r, tiles, col, row)
    decreases |tiles|
  {
    tiles == [] ||
    (var g := GridArea(r, col, row);
     var d, d' := CarryInto(c, tiles[0]), CarryOut(c', tiles[0]);
     && SameShown(c, c', tiles[0], g.w, g.h)
     && if col + 1 < Across(r.w) then ColoursAgree(r, d, d', tiles[1..], col + 1, row)
        else ColoursAgree(r, d, d', tiles[1..], 0, row + 1))
  }

  /** The subrectangles of every tile lie inside the tile, as the standard demands. */
  predicate SubrectsInside(r: Area, tiles: seq<Tile>, col: nat, row: nat)
    requires ValidTiles(2, r, tiles, col, row)
    decreases |tiles|
  {
    tiles == [] ||
    (var g := GridArea(r, col, row);
     && (tiles[0].Coded? ==>
           forall k :: 0 <= k < |tiles[0].subrects| ==> InsideTile(tiles[0].subrects[k], g.w, g.h))
     && if col + 1 < Across(r.w) then SubrectsInside(r, tiles[1..], col + 1, row)
        else SubrectsInside(r, tiles[1..], 0, row + 1))
  }

  /** Exactly when the decoders agree on a rectangle, whatever colours each of them carries into it:
      at every tile they must get the same of the colours that it shows. They then draw the same
      tiles in the same order. */
  lemma {:induction false} DecodersAgree(p: Place, c: Carry, tiles: seq<Tile>, col: nat, row: nat)
    requires OnCell(p, col, row) && ValidTiles(2, p.r, tiles, col, row)
    ensures DrawnTiles(2, p, tiles, col, row) == StandardTiles(p.r, c, tiles, col, row) <==>
            ColoursAgree(p.r, c, Carry(p.bg, p.fg), tiles, col, row)
    decreases |tiles|
  {
    hide TilePixels, OnCell, SameShown, CarryInto, CarryOut;
    if tiles != [] {
      var t := tiles[0];
      CellPlace(p, col, row);
      NextCell(p, t, col, row);
      var g := TileHere(p);
      var col1, row1 := if col + 1 < Across(p.r.w) then col + 1 else 0,
                        if col + 1 < Across(p.r.w) then row else row + 1;
      SamePixels(c, Carry(p.bg, p.fg), t, g.w, g.h);
      var q := PlaceAfter(p, t);
      DecodersAgree(q, CarryInto(c, t), tiles[1..], col1, row1);
      var mine := DrawnTiles(2, p, tiles, col, row);
      var theirs := StandardTiles(p.r, c, tiles, col, row);
      assert mine[0] == DrawnTile(p, t) && mine[1..] == DrawnTiles(2, q, tiles[1..], col1, row1);
      assert theirs[0] == Drawn(g, TilePixels(c, t, g.w, g.h));
      assert theirs[1..] == StandardTiles(p.r, CarryInto(c, t), tiles[1..], col1, row1);
      HeadTail(mine, theirs);
    }
  }

  lemma HeadTail<T>(a: seq<T>, b: seq<T>)
    requires a != [] && b != []
    ensures a == b <==> a[0] == b[0] && a[1..] == b[1..]
  {
    if a[0] == b[0] && a[1..] == b[1..] {
      assert a == [a[0]] + a[1..] && b == [b[0]] + b[1..];
    }
  }

  /** A file in which every such tile behind a coloured one sends its foreground again. */
  predicate Respecifies(tiles: seq<Tile>, stale: bool)
    decreases |tiles|
  {
    tiles == [] ||
    (var t := tiles[0];
     var sends := t.Coded? && ForegroundBit(t.sub);
     && (UsesForeground(t) ==> sends || !stale)
     && Respecifies(tiles[1..], (stale && !sends) || (t.Coded? && ColouredBit(t.sub) && t.subrects != [])))
  }

  /** The first tile that is not raw sends its background, as the standard demands. */
  predicate SendsBackground(tiles: seq<Tile>)
    decreases |tiles|
  {
    tiles == [] || (if tiles[0].Coded? then BackgroundBit(tiles[0].sub) else SendsBackground(tiles[1..]))
  }

  /** That is enough. */
  lemma {:induction false} RespecifyingAgrees(r: Area, c: Carry, c': Carry, tiles: seq<Tile>, col: nat, row: nat,
                                              stale: bool)
    requires ValidTiles(2, r, tiles, col, row)
    requires Respecifies(tiles, stale) && (!stale ==> c.fg == c'.fg)
    requires SendsBackground(tiles) || c.bg == c'.bg
    ensures ColoursAgree(r, c, c', tiles, col, row)
    decreases |tiles|
  {
    if tiles != [] {
      var t := tiles[0];
      var sends := t.Coded? && ForegroundBit(t.sub);
      RespecifyingAgrees(r, CarryInto(c, t), CarryOut(c', t), tiles[1..],
                         if col + 1 < Across(r.w) then col + 1 else 0, if col + 1 < Across(r.w) then row else row + 1,
                         (stale && !sends) || (t.Coded? && ColouredBit(t.sub) && t.subrects != []));
    }
  }

  /** Without it they differ: a tile that sends a foreground and then colours its subrectangles
      otherwise, and a next tile that relies on the foreground sent. */
  lemma StaleForeground(p: Place, c: Carry, first: Tile, second: Tile)
    requires OnCell(p, 0, 0) && ValidTiles(2, p.r, [first, second], 0, 0) && SubrectsInside(p.r, [first, second], 0, 0)
    requires first.Coded? && ColouredBit(first.sub) && ForegroundBit(first.sub) && first.subrects != []
    requires first.subrects[|first.subrects| - 1].colour != first.fg
    requires UsesForeground(second) && !ForegroundBit(second.sub)
    ensures DrawnTiles(2, p, [first, second], 0, 0) != StandardTiles(p.r, c, [first, second], 0, 0)
  {
    hide DrawnTiles, StandardTiles, ShowsForeground, ShowsBackground;
    var tiles := [first, second];
    assert tiles[1..] == [second];
    var c', d := CarryOut(Carry(p.bg, p.fg), first), CarryInto(c, first);
    assert c'.fg != d.fg;
    var col, row := if 1 < Across(p.r.w) then 1 else 0, if 1 < Across(p.r.w) then 0 else 1;
    var g := GridArea(p.r, col, row);
    InsideShows(second, g.w, g.h);
    assert !SameShown(d, c', second, g.w, g.h);
    assert !ColoursAgree(p.r, d, c', [second], col, row);
    DecodersAgree(p, c, tiles, 0, 0);
  }

  // ----- The file decoder's picture -----

  /** The file decoder's carry behind a list of tiles. */
  function CarryOutAll(c: Carry, tiles: seq<Tile>): Carry
    decreases |tiles|
  {
    if tiles == [] then c else CarryOutAll(CarryOut(c, tiles[0]), tiles[1..])
  }

  /** The colour the file decoder gives pixel (a, b), in grid cell (i, j), when `tiles` start at
      grid cell (col, row). */
  function FileColour(r: Area, c: Carry, tiles: seq<Tile>, col: nat, row: nat, i: nat, j: nat, a: int, b: int): word
    requires ValidTiles(2, r, tiles, col, row)
    requires i < Across(r.w) && j < Across(r.h) && !Before(i, j, col, row)
    requires Inside(GridArea(r, i, j), a, b)
  {
    TileAt(2, r, tiles, col, row, i, j);
    var k := GridIndex(r, i, j) - GridIndex(r, col, row);
    var g := GridArea(r, i, j);
    TileColour(CarryOutAll(c, tiles[..k]), tiles[k], g.w, g.h, a - g.x, b - g.y)
  }

  /** No coordinate of the rectangle reaches 65536, so that no tile's window wraps. */
  predicate Straight(r: Area)
  {
    r.x + r.w <= 0x1_0000 && r.y + r.h <= 0x1_0000
  }

  lemma FileColourHere(r: Area, c: Carry, tiles: seq<Tile>, col: nat, row: nat, a: int, b: int)
    requires ValidTiles(2, r, tiles, col, row) && tiles != []
    requires Inside(GridArea(r, col, row), a, b)
    ensures var g := GridArea(r, col, row);
            FileColour(r, c, tiles, col, row, col, row, a, b) == TileColour(c, tiles[0], g.w, g.h, a - g.x, b - g.y)
  {
    assert tiles[..0] == [];
  }

  lemma FileColourStep(r: Area, c: Carry, tiles: seq<Tile>, col: nat, row: nat, i: nat, j: nat, a: int, b: int)
    requires ValidTiles(2, r, tiles, col, row) && tiles != []
    requires i < Across(r.w) && j < Across(r.h) && Before(col, row, i, j)
    requires Inside(GridArea(r, i, j), a, b)
    ensures var col1, row1 := if col + 1 < Across(r.w) then col + 1 else 0,
                              if col + 1 < Across(r.w) then row else row + 1;
            FileColour(r, c, tiles, col, row, i, j, a, b) ==
            FileColour(r, CarryOut(c, tiles[0]), tiles[1..], col1, row1, i, j, a, b)
  {
    hide TileColour, ValidTile, CarryOut, GridArea;
    var col1, row1 := if col + 1 < Across(r.w) then col + 1 else 0, if col + 1 < Across(r.w) then row else row + 1;
    GridStep(r, col, row);
    TileAt(2, r, tiles[1..], col1, row1, i, j);
    var k := GridIndex(r, i, j) - GridIndex(r, col, row);
    hide GridIndex;
    assert tiles[..k][1..] == tiles[1..][..k - 1];
  }

  /** One tile of the file decoder changes exactly its own pixels, on the screen or off it. */
  lemma OnePicture(p: Panel, g: Area, c: Carry, t: Tile, a: int, b: int)
    requires 0 < g.w <= 16 && 0 < g.h <= 16 && Straight(g)
    requires ValidTile(2, t, g.w, g.h)
    ensures At(PaintOne(2, p, Drawn(g, TilePixels(c, t, g.w, g.h))).pixels, a, b) ==
            if Inside(g, a, b) then Some(TileColour(c, t, g.w, g.h, a - g.x, b - g.y)) else At(p.pixels, a, b)
  {
    hide TilePixels, TileColour, PutAll, SetWindow;
    var px := TilePixels(c, t, g.w, g.h);
    assert Shades(2, px) == px;
    WholeTile(p, g.x, g.y, g.w, g.h, px, a, b);
    if Inside(g, a, b) {
      TilePixelsAt(c, t, g.w, g.h, a - g.x, b - g.y);
    }
  }

  /** The first tile is painted, then the others. */
  lemma FileStep(panel: Panel, p: Place, tiles: seq<Tile>, col: nat, row: nat) returns (q: Place)
    requires OnCell(p, col, row) && ValidTiles(2, p.r, tiles, col, row) && tiles != []
    ensures q.r == p.r && Carry(q.bg, q.fg) == CarryOut(Carry(p.bg, p.fg), tiles[0])
    ensures var g := GridArea(p.r, col, row);
            var col1 := if col + 1 < Across(p.r.w) then col + 1 else 0;
            var row1 := if col + 1 < Across(p.r.w) then row else row + 1;
            && OnCell(q, col1, row1) && ValidTiles(2, p.r, tiles[1..], col1, row1)
            && PaintDrawn(2, panel, DrawnTiles(2, p, tiles, col, row)) ==
               PaintDrawn(2, PaintOne(2, panel, Drawn(g, TilePixels(Carry(p.bg, p.fg), tiles[0], g.w, g.h))),
                          DrawnTiles(2, q, tiles[1..], col1, row1))
  {
    hide PaintOne, TilePixels, CarryOut, OnCell, ValidTile;
    var t := tiles[0];
    CellPlace(p, col, row);
    NextCell(p, t, col, row);
    var g := TileHere(p);
    q := PlaceAfter(p, t);
    var col1 := if col + 1 < Across(p.r.w) then col + 1 else 0;
    var row1 := if col + 1 < Across(p.r.w) then row else row + 1;
    var first := Drawn(g, TilePixels(Carry(p.bg, p.fg), t, g.w, g.h));
    var rest := DrawnTiles(2, q, tiles[1..], col1, row1);
    assert DrawnTiles(2, p, tiles, col, row) == [first] + rest && ([first] + rest)[1..] == rest;
  }

  lemma CellOrder(r: Area, i: nat, j: nat, col: nat, row: nat)
    requires i < Across(r.w) && j < Across(r.h) && col < Across(r.w)
    ensures var col1 := if col + 1 < Across(r.w) then col + 1 else 0;
            var row1 := if col + 1 < Across(r.w) then row else row + 1;
            if i == col && j == row then !Before(i, j, col, row) && Before(i, j, col1, row1)
            else if Before(col, row, i, j) then !Before(i, j, col, row) && !Before(i, j, col1, row1)
            else Before(i, j, col, row) && Before(i, j, col1, row1)
  {
  }

  /** The first tile's share in the picture. */
  lemma FileHead(panel: Panel, r: Area, c: Carry, tiles: seq<Tile>, col: nat, row: nat, i: nat, j: nat, a: int, b: int)
    requires ValidTiles(2, r, tiles, col, row) && tiles != [] && Straight(r)
    requires i < Across(r.w) && j < Across(r.h) && Inside(GridArea(r, i, j), a, b)
    ensures var g := GridArea(r, col, row);
            At(PaintOne(2, panel, Drawn(g, TilePixels(c, tiles[0], g.w, g.h))).pixels, a, b) ==
            if i == col && j == row then Some(FileColour(r, c, tiles, col, row, i, j, a, b)) else At(panel.pixels, a, b)
  {
    hide PaintOne, TilePixels, FileColour, TileColour, ValidTile;
    var g := GridArea(r, col, row);
    OneCell(r, i, j, col, row, a, b);
    OnePicture(panel, g, c, tiles[0], a, b);
    if i == col && j == row {
      FileColourHere(r, c, tiles, col, row, a, b);
    }
  }

  /** The picture of the file decoder's tiles from (col, row) on. */
  lemma {:induction false} FilePart(panel: Panel, p: Place, tiles: seq<Tile>, col: nat, row: nat, i: nat, j: nat,
                                    a: int, b: int)
    requires OnCell(p, col, row) && Straight(p.r) && ValidTiles(2, p.r, tiles, col, row)
    requires i < Across(p.r.w) && j < Across(p.r.h) && Inside(GridArea(p.r, i, j), a, b)
    ensures At(PaintDrawn(2, panel, DrawnTiles(2, p, tiles, col, row)).pixels, a, b) ==
            if Before(i, j, col, row) then At(panel.pixels, a, b)
            else Some(FileColour(p.r, Carry(p.bg, p.fg), tiles, col, row, i, j, a, b))
    decreases |tiles|
  {
    if tiles == [] {
      CellPlace(p, col, row);
    } else {
      hide PaintOne, TilePixels, CarryOut, OnCell, FileColour, TileColour, ValidTile, PaintDrawn, DrawnTiles, At;
      var q := FileStep(panel, p, tiles, col, row);
      var t, c, g := tiles[0], Carry(p.bg, p.fg), GridArea(p.r, col, row);
      var col1 := if col + 1 < Across(p.r.w) then col + 1 else 0;
      var row1 := if col + 1 < Across(p.r.w) then row else row + 1;
      FileHead(panel, p.r, c, tiles, col, row, i, j, a, b);
      CellOrder(p.r, i, j, col, row);
      FilePart(PaintOne(2, panel, Drawn(g, TilePixels(c, t, g.w, g.h))), q, tiles[1..], col1, row1, i, j, a, b);
      if Before(col, row, i, j) {
        FileColourStep(p.r, c, tiles, col, row, i, j, a, b);
      }
    }
  }

  /** Outside its rectangle the file decoder changes nothing. */
  lemma {:induction false} FileOutside(panel: Panel, p: Place, tiles: seq<Tile>, col: nat, row: nat, a: int, b: int)
    requires OnCell(p, col, row) && Straight(p.r) && ValidTiles(2, p.r, tiles, col, row) && !Inside(p.r, a, b)
    ensures At(PaintDrawn(2, panel, DrawnTiles(2, p, tiles, col, row)).pixels, a, b) == At(panel.pixels, a, b)
    decreases |tiles|
  {
    hide PaintOne, TilePixels, CarryOut, OnCell, ValidTile;
    if tiles != [] {
      var q := FileStep(panel, p, tiles, col, row);
      hide PaintDrawn, DrawnTiles, At;
      var g := GridArea(p.r, col, row);
      OnePicture(panel, g, Carry(p.bg, p.fg), tiles[0], a, b);
      FileOutside(PaintOne(2, panel, Drawn(g, TilePixels(Carry(p.bg, p.fg), tiles[0], g.w, g.h))), q, tiles[1..],
                  if col + 1 < Across(p.r.w) then col + 1 else 0,
                  if col + 1 < Across(p.r.w) then row else row + 1, a, b);
    }
  }

  // ----- When the pictures are the same -----

  predicate Visible(a: int, b: int)
  {
    0 <= a < SCREEN_WIDTH && 0 <= b < SCREEN_HEIGHT
  }

  ghost predicate SameVisible(p: Panel, q: Panel)
  {
    forall a, b {:trigger At(p.pixels, a, b)} {:trigger At(q.pixels, a, b)} ::
      Visible(a, b) ==> At(p.pixels, a, b) == At(q.pixels, a, b)
  }

  /** Some of the tile can be seen. */
  predicate Touches(g: Area)
  {
    g.x < SCREEN_WIDTH && g.y < SCREEN_HEIGHT
  }

  /** The tile in cell (i, j), under carry c of the streaming decoder and c' of the file decoder in
      front of the rectangle: if it can be seen it lies wholly on the screen, and both decoders get
      the same of the colours that it shows. */
  ghost predicate CellMeets(r: Area, c: Carry, c': Carry, tiles: seq<Tile>, i: nat, j: nat)
    requires ValidTiles(2, r, tiles, 0, 0) && i < Across(r.w) && j < Across(r.h)
  {
    TileAt(2, r, tiles, 0, 0, i, j);
    var g, k := GridArea(r, i, j), GridIndex(r, i, j);
    Touches(g) ==>
      && InWindow(g)
      && SameShown(CarryThrough(c, tiles[..k]), CarryOutAll(c', tiles[..k]), tiles[k], g.w, g.h)
  }

  ghost predicate PicturesMeet(r: Area, c: Carry, c': Carry, tiles: seq<Tile>)
    requires ValidTiles(2, r, tiles, 0, 0)
  {
    forall i: nat, j: nat :: i < Across(r.w) && j < Across(r.h) ==> CellMeets(r, c, c', tiles, i, j)
  }

  /** The two pictures of a rectangle on a panel. */
  ghost predicate SamePicture(panel: Panel, p: Place, c: Carry, tiles: seq<Tile>)
    requires OnCell(p, 0, 0) && ValidTiles(2, p.r, tiles, 0, 0)
  {
    SameVisible(PaintTiles(panel, p.r, c, tiles, 0, 0), PaintDrawn(2, panel, DrawnTiles(2, p, tiles, 0, 0)))
  }

  /** A pixel of cell (i, j) on both panels. */
  lemma PixelOfCell(panel: Panel, p: Place, c: Carry, tiles: seq<Tile>, i: nat, j: nat, a: int, b: int)
    requires OnCell(p, 0, 0) && Straight(p.r) && ValidTiles(2, p.r, tiles, 0, 0)
    requires i < Across(p.r.w) && j < Across(p.r.h) && Inside(GridArea(p.r, i, j), a, b)
    ensures var g, k := GridArea(p.r, i, j), GridIndex(p.r, i, j);
            && k < |tiles| && ValidTile(2, tiles[k], g.w, g.h)
            && At(PaintTiles(panel, p.r, c, tiles, 0, 0).pixels, a, b) ==
               (if InWindow(g) then Some(TileColour(CarryThrough(c, tiles[..k]), tiles[k], g.w, g.h, a - g.x, b - g.y))
                else At(panel.pixels, a, b))
            && At(PaintDrawn(2, panel, DrawnTiles(2, p, tiles, 0, 0)).pixels, a, b) ==
               Some(TileColour(CarryOutAll(Carry(p.bg, p.fg), tiles[..k]), tiles[k], g.w, g.h, a - g.x, b - g.y))
  {
    hide PaintTiles, PaintDrawn, DrawnTiles, TileColour, CarryThrough, CarryOutAll, ValidTile, OnCell;
    TileAt(2, p.r, tiles, 0, 0, i, j);
    PicturePart(panel, p.r, c, tiles, 0, 0, i, j, a, b);
    FilePart(panel, p, tiles, 0, 0, i, j, a, b);
  }

  /** If every cell meets the condition the pictures are the same on every panel. */
  lemma MeetingSuffices(panel: Panel, p: Place, c: Carry, tiles: seq<Tile>)
    requires OnCell(p, 0, 0) && ValidTiles(2, p.r, tiles, 0, 0) && Straight(p.r)
    requires PicturesMeet(p.r, c, Carry(p.bg, p.fg), tiles)
    ensures SamePicture(panel, p, c, tiles)
  {
    hide PaintTiles, PaintDrawn, DrawnTiles, TileColour, CarryThrough, CarryOutAll, OnCell, SameShown;
    var one, two := PaintTiles(panel, p.r, c, tiles, 0, 0), PaintDrawn(2, panel, DrawnTiles(2, p, tiles, 0, 0));
    forall a, b | Visible(a, b)
      ensures At(one.pixels, a, b) == At(two.pixels, a, b)
    {
      if Inside(p.r, a, b) {
        var i, j := (a - p.r.x) / 16, (b - p.r.y) / 16;
        CellHolds(p.r, a, b);
        var g, k := GridArea(p.r, i, j), GridIndex(p.r, i, j);
        PixelOfCell(panel, p, c, tiles, i, j, a, b);
        assert CellMeets(p.r, c, Carry(p.bg, p.fg), tiles, i, j);
        SameCell(CarryThrough(c, tiles[..k]), CarryOutAll(Carry(p.bg, p.fg), tiles[..k]), tiles[k], g.w, g.h,
                 a - g.x, b - g.y);
      } else {
        PictureOutside(panel, p.r, c, tiles, 0, 0, a, b);
        FileOutside(panel, p, tiles, 0, 0, a, b);
      }
    }
  }

  lemma CellHolds(r: Area, a: int, b: int)
    requires Inside(r, a, b)
    ensures var i, j := (a - r.x) / 16, (b - r.y) / 16;
            && 0 <= i < Across(r.w) && 0 <= j < Across(r.h) && Inside(GridArea(r, i, j), a, b)
            && (Visible(a, b) ==> Touches(GridArea(r, i, j)))
  {
    GridPartition(r, a, b, (a - r.x) / 16, (b - r.y) / 16);
  }

  /** On a panel that shows nothing yet, a cell that does not meet it can be seen to differ. */
  lemma CellNeeded(panel: Panel, p: Place, c: Carry, tiles: seq<Tile>, i: nat, j: nat)
    requires OnCell(p, 0, 0) && ValidTiles(2, p.r, tiles, 0, 0) && Straight(p.r)
    requires i < Across(p.r.w) && j < Across(p.r.h)
    requires panel.pixels == map[] && SamePicture(panel, p, c, tiles)
    ensures CellMeets(p.r, c, Carry(p.bg, p.fg), tiles, i, j)
  {
    hide PaintTiles, PaintDrawn, DrawnTiles, TileColour, CarryThrough, CarryOutAll, OnCell, CarryInto, SameShown;
    var g, k := GridArea(p.r, i, j), GridIndex(p.r, i, j);
    if Touches(g) {
      assert Visible(g.x, g.y);
      PixelOfCell(panel, p, c, tiles, i, j, g.x, g.y);
      assert InWindow(g);
      var d, d' := CarryThrough(c, tiles[..k]), CarryOutAll(Carry(p.bg, p.fg), tiles[..k]);
      forall m: nat, n: nat | m < g.w && n < g.h
        ensures TileColour(d, tiles[k], g.w, g.h, m, n) == TileColour(d', tiles[k], g.w, g.h, m, n)
      {
        assert Visible(g.x + m, g.y + n);
        PixelOfCell(panel, p, c, tiles, i, j, g.x + m, g.y + n);
      }
      CellsTell(d, d', tiles[k], g.w, g.h);
    }
  }

  /** Exactly when both decoders leave the same picture of a rectangle, whatever the panel showed and
      whatever colours they carry into it: when no tile straddles the edge of the screen and at every
      visible tile they get the same of the colours that it shows. */
  lemma PicturesExact(p: Place, c: Carry, tiles: seq<Tile>)
    requires OnCell(p, 0, 0) && ValidTiles(2, p.r, tiles, 0, 0) && Straight(p.r)
    ensures (forall panel: Panel :: SamePicture(panel, p, c, tiles)) <==> PicturesMeet(p.r, c, Carry(p.bg, p.fg), tiles)
  {
    hide SamePicture, CellMeets, OnCell, ValidTiles;
    if PicturesMeet(p.r, c, Carry(p.bg, p.fg), tiles) {
      forall panel: Panel
        ensures SamePicture(panel, p, c, tiles)
      {
        MeetingSuffices(panel, p, c, tiles);
      }
    }
    if forall panel: Panel :: SamePicture(panel, p, c, tiles) {
      var blank := Panel(0, 0, 0, 0, 0, 0, map[]);
      assert SamePicture(blank, p, c, tiles);
      forall i: nat, j: nat | i < Across(p.r.w) && j < Across(p.r.h)
        ensures CellMeets(p.r, c, Carry(p.bg, p.fg), tiles, i, j)
      {
        CellNeeded(blank, p, c, tiles, i, j);
      }
    }
  }

  /** A tile that straddles the edge of the screen, such as a 16 x 1 tile at (120, 0): the streaming
      decoder drops it and the file decoder paints its visible part. */
  lemma StraddlingTile(panel: Panel, p: Place, c: Carry, tiles: seq<Tile>, i: nat, j: nat)
    requires OnCell(p, 0, 0) && Straight(p.r) && ValidTiles(2, p.r, tiles, 0, 0)
    requires i < Across(p.r.w) && j < Across(p.r.h)
    requires Touches(GridArea(p.r, i, j)) && !InWindow(GridArea(p.r, i, j))
    ensures var g, k := GridArea(p.r, i, j), GridIndex(p.r, i, j);
            && k < |tiles| && ValidTile(2, tiles[k], g.w, g.h) && Visible(g.x, g.y)
            && At(PaintTiles(panel, p.r, c, tiles, 0, 0).pixels, g.x, g.y) == At(panel.pixels, g.x, g.y)
            && At(PaintDrawn(2, panel, DrawnTiles(2, p, tiles, 0, 0)).pixels, g.x, g.y) ==
               Some(TileColour(CarryOutAll(Carry(p.bg, p.fg), tiles[..k]), tiles[k], g.w, g.h, 0, 0))
  {
    hide PaintTiles, PaintDrawn, DrawnTiles, TileColour, CarryThrough, CarryOutAll, OnCell;
    var g := GridArea(p.r, i, j);
    PixelOfCell(panel, p, c, tiles, i, j, g.x, g.y);
  }

  lemma {:induction false} AgreeingAt(r: Area, c: Carry, c': Carry, tiles: seq<Tile>, col: nat, row: nat,
                                      i: nat, j: nat)
    requires ValidTiles(2, r, tiles, col, row) && ColoursAgree(r, c, c', tiles, col, row)
    requires i < Across(r.w) && j < Across(r.h) && !Before(i, j, col, row)
    ensures var k := GridIndex(r, i, j) - GridIndex(r, col, row);
            var g := GridArea(r, i, j);
            0 <= k < |tiles| && SameShown(CarryThrough(c, tiles[..k]), CarryOutAll(c', tiles[..k]), tiles[k], g.w, g.h)
    decreases |tiles|
  {
    hide SameShown, CarryInto, CarryOut, ValidTile;
    TileAt(2, r, tiles, col, row, i, j);
    var k := GridIndex(r, i, j) - GridIndex(r, col, row);
    if i == col && j == row {
      assert tiles[..0] == [];
    } else {
      var col1, row1 := if col + 1 < Across(r.w) then col + 1 else 0, if col + 1 < Across(r.w) then row else row + 1;
      GridStep(r, col, row);
      AgreeingAt(r, CarryInto(c, tiles[0]), CarryOut(c', tiles[0]), tiles[1..], col1, row1, i, j);
      assert tiles[..k][1..] == tiles[1..][..k - 1];
    }
  }

  /** A rectangle on the screen whose first tile that is not raw sends its background, unless both
      carry the same one, and whose tiles send their foregrounds again behind coloured ones. */
  lemma RespecifyingMeets(r: Area, c: Carry, c': Carry, tiles: seq<Tile>, stale: bool)
    requires ValidTiles(2, r, tiles, 0, 0) && InWindow(r)
    requires Respecifies(tiles, stale) && (!stale ==> c.fg == c'.fg)
    requires SendsBackground(tiles) || c.bg == c'.bg
    ensures PicturesMeet(r, c, c', tiles)
  {
    hide SameShown, CarryThrough, CarryOutAll, Respecifies, ColoursAgree, SendsBackground;
    RespecifyingAgrees(r, c, c', tiles, 0, 0, stale);
    forall i: nat, j: nat | i < Across(r.w) && j < Across(r.h)
      ensures CellMeets(r, c, c', tiles, i, j)
    {
      AgreeingAt(r, c, c', tiles, 0, 0, i, j);
    }
  }

  // ----- The decoders themselves -----

  /** One rectangle, as a message to the streaming decoder and as a file to the other one, header
      included, from any two states: both use it up, and the condition above decides whether the
      visible pictures are the same. It suffices on every panel and is needed on one that shows
      nothing yet. */
  lemma BothDecoders(s: Receiver.Rx, p: Place, q: Streams.Rectangle)
    requires s.phase == Receiver.ProcessingUpdate && s.rect == Receiver.RectIdle && s.rectangleCount > 0
    requires Streams.ValidRectangle(q) && q.HextileRectangle? && q.area == p.r
    requires OnCell(p, 0, 0) && Canonicals(q.tiles)
    ensures WellPlaced(p)
    ensures var bytes := Streams.EncodeRectangleHeader(q) + Streams.EncodeRectangleBody(q);
            var one := Receiver.Run(s, bytes);
            var two := Decode(2, p, bytes[12..]);
            && TileDecoders.HeaderArea(bytes) == p.r
            && one.Quiet? && one.rest == []
            && two.defined && two.used == |bytes[12..]| && Finished(two.place)
            && var same := SameVisible(one.st.panel, PaintDrawn(2, s.panel, two.tiles));
               var meet := PicturesMeet(p.r, Picture.CarryOf(s), Carry(p.bg, p.fg), q.tiles);
            && (meet ==> same)
            && (s.panel.pixels == map[] ==> (same <==> meet))
  {
    hide Receiver.Run, PaintTiles, PaintDrawn, DrawnTiles, Decode, SameVisible, CellMeets, OnCell,
         Canonicals, Streams.ValidRectangle, Streams.EncodeRectangleHeader;
    var c := Picture.CarryOf(s);
    var head, body := Streams.EncodeRectangleHeader(q), Streams.EncodeRectangleBody(q);
    HextileParts(s, q);
    Streams.RunRectangle(s, q);
    DropPrefix(head, body);
    FileHeader(q, body);
    assert body + [] == body;
    DecodeRectangle(2, p, q.tiles, 0, 0, []);
    if PicturesMeet(p.r, c, Carry(p.bg, p.fg), q.tiles) {
      MeetingSuffices(s.panel, p, c, q.tiles);
    } else if s.panel.pixels == map[] {
      var i: nat, j: nat :| i < Across(p.r.w) && j < Across(p.r.h) &&
          !CellMeets(p.r, c, Carry(p.bg, p.fg), q.tiles, i, j);
      if SamePicture(s.panel, p, c, q.tiles) {
        CellNeeded(s.panel, p, c, q.tiles, i, j);
      }
    }
  }

  /** So a rectangle on the screen that sends its background and its foregrounds, and these again
      behind coloured tiles, looks the same through both decoders, whatever connection and whatever
      file went before. */
  lemma SelfContainedSame(s: Receiver.Rx, p: Place, q: Streams.Rectangle)
    requires s.phase == Receiver.ProcessingUpdate && s.rect == Receiver.RectIdle && s.rectangleCount > 0
    requires Streams.ValidRectangle(q) && q.HextileRectangle? && q.area == p.r
    requires OnCell(p, 0, 0) && Canonicals(q.tiles)
    requires InWindow(q.area) && SendsBackground(q.tiles) && Respecifies(q.tiles, true)
    ensures WellPlaced(p)
    ensures var bytes := Streams.EncodeRectangleHeader(q) + Streams.EncodeRectangleBody(q);
            var one := Receiver.Run(s, bytes);
            var two := Decode(2, p, bytes[12..]);
            && one.Quiet? && two.defined && Finished(two.place)
            && SameVisible(one.st.panel, PaintDrawn(2, s.panel, two.tiles))
  {
    hide Receiver.Run, PaintDrawn, Decode, SameVisible, OnCell, Canonicals, Streams.ValidRectangle, SendsBackground,
         Respecifies, Streams.EncodeRectangleHeader, Streams.EncodeRectangleBody, CellMeets, Finished, WellPlaced;
    HextileParts(s, q);
    RespecifyingMeets(p.r, Picture.CarryOf(s), Carry(p.bg, p.fg), q.tiles, true);
    BothDecoders(s, p, q);
  }

  lemma HextileParts(s: Receiver.Rx, q: Streams.Rectangle)
    requires Streams.ValidRectangle(q) && q.HextileRectangle?
    ensures ValidTiles(2, q.area, q.tiles, 0, 0) && Straight(q.area)
    ensures Streams.EncodeRectangleBody(q) == EncodeTiles(2, q.area, q.tiles, 0, 0)
    ensures Streams.PaintRectangle(s.panel, Picture.CarryOf(s), q) ==
            PaintTiles(s.panel, q.area, Picture.CarryOf(s), q.tiles, 0, 0)
  {
  }

  lemma FileHeader(q: Streams.Rectangle, body: seq<byte>)
    requires Streams.ValidRectangle(q)
    ensures TileDecoders.HeaderArea(Streams.EncodeRectangleHeader(q) + body) == q.area
  {
    var e := Streams.EncodeRectangleHeader(q);
    var b := e + body;
    assert b[..12] == e;
    assert b[0] == e[0] && b[1] == e[1] && b[2] == e[2] && b[3] == e[3];
    assert b[4] == e[4] && b[5] == e[5] && b[6] == e[6] && b[7] == e[7];
  }
}
