/** The ST7735 panel as the firmware sees it, and the SPI driver that emits its byte commands.

    `Chip` is the reference panel: command 0x2A sets the column range, 0x2B the row range,
    and 0x2C starts a memory write in which every two data bytes are one big-endian pixel
    stored at the cursor, which then advances in row-major order inside the window. */
module Panels {
  import opened Bytes

  datatype Panel = Panel(x0: word, x1: word, y0: word, y1: word,
                         cx: nat, cy: nat,
                         pixels: map<(int, int), word>)

  /** What the panel shows at column a, row b; None where nothing was ever written. */
  function At(m: map<(int, int), word>, a: int, b: int): Option<word>
  {
    if (a, b) in m then Some(m[(a, b)]) else None
  }

  /** The window of a w x h tile at (x, y), cursor on its first pixel. */
  function SetWindow(p: Panel, x: word, y: word, w: byte, h: byte): Panel
  {
    p.(x0 := x, x1 := (x + w + 0xFFFF) % 0x1_0000,
       y0 := y, y1 := (y + h + 0xFFFF) % 0x1_0000,
       cx := x, cy := y)
  }

  /** One pixel at the cursor, then the auto-increment. */
  function Put(p: Panel, c: word): Panel
  {
    var q := p.(pixels := p.pixels[(p.cx, p.cy) := c]);
    if p.cx != p.x1 then q.(cx := p.cx + 1)
    else if p.cy != p.y1 then q.(cx := p.x0, cy := p.cy + 1)
    else q.(cx := p.x0, cy := p.y0)
  }

  function PutAll(p: Panel, px: seq<word>): Panel
    decreases |px|
  {
    if px == [] then p else PutAll(Put(p, px[0]), px[1..])
  }

  lemma {:induction false} PutAllAppend(p: Panel, a: seq<word>, b: seq<word>)
    ensures PutAll(p, a + b) == PutAll(PutAll(p, a), b)
    decreases |a|
  {
    if a == [] {
      assert a + b == b;
    } else {
      assert (a + b)[1..] == a[1..] + b;
      PutAllAppend(Put(p, a[0]), a[1..], b);
    }
  }

  lemma PutAllLast(p: Panel, px: seq<word>, k: nat)
    requires k < |px|
    ensures PutAll(p, px[..k + 1]) == Put(PutAll(p, px[..k]), px[k])
  {
    assert px[..k + 1] == px[..k] + [px[k]];
    PutAllAppend(p, px[..k], [px[k]]);
    assert PutAll(PutAll(p, px[..k]), [px[k]]) == PutAll(Put(PutAll(p, px[..k]), px[k]), []);
  }

  /** The number of cells in the first `rows` rows of a grid of width w. */
  function Cells(w: nat, rows: nat): nat
  {
    if rows == 0 then 0 else Cells(w, rows - 1) + w
  }

  lemma {:induction false} CellsIsProduct(w: nat, rows: nat)
    ensures Cells(w, rows) == w * rows
    decreases rows
  {
    if rows > 0 {
      CellsIsProduct(w, rows - 1);
    }
  }

  lemma {:induction false} CellsBound(w: nat, rows: nat)
    requires w <= 16
    ensures Cells(w, rows) <= 16 * rows
    decreases rows
  {
    if rows > 0 {
      CellsBound(w, rows - 1);
    }
  }

  lemma {:induction false} CellsOfBytes(w: byte, rows: nat)
    ensures Cells(w, rows) <= 255 * rows
    decreases rows
  {
    if rows > 0 {
      CellsOfBytes(w, rows - 1);
    }
  }

  lemma {:induction false} CellIndex(w: nat, h: nat, i: nat, j: nat)
    requires i < w && j < h
    ensures Cells(w, j) + i < Cells(w, h)
    decreases h
  {
    if j < h - 1 {
      CellIndex(w, h - 1, i, j);
    }
  }

  /** Pixel (i, j) of a w x h tile sent row by row. */
  function PixelAt(px: seq<word>, w: nat, h: nat, i: nat, j: nat): word
    requires |px| == Cells(w, h) && i < w && j < h
  {
    CellIndex(w, h, i, j);
    px[Cells(w, j) + i]
  }

  /** Cell (i, j) is drawn before cell (col, row) in row-major order. */
  predicate Before(i: int, j: int, col: int, row: int)
  {
    j < row || (j == row && i < col)
  }

  /** `now` is `base` with the cells before (col, row) of a w x h tile at (x, y) drawn. */
  ghost predicate DrawnUpTo(base: map<(int, int), word>, now: map<(int, int), word>,
                            x: nat, y: nat, w: nat, h: nat, px: seq<word>, col: nat, row: nat)
    requires |px| == Cells(w, h)
  {
    forall a: int, b: int {:trigger At(now, a, b)} ::
      At(now, a, b) ==
      if x <= a < x + w && y <= b < y + h && Before(a - x, b - y, col, row)
      then Some(PixelAt(px, w, h, a - x, b - y))
      else At(base, a, b)
  }

  lemma DrawnOneMore(base: map<(int, int), word>, now: map<(int, int), word>, next: map<(int, int), word>,
                     x: nat, y: nat, w: nat, h: nat, px: seq<word>, col: nat, row: nat, col1: nat, row1: nat)
    requires |px| == Cells(w, h) && col < w && row < h
    requires DrawnUpTo(base, now, x, y, w, h, px, col, row)
    requires next == now[(x + col, y + row) := PixelAt(px, w, h, col, row)]
    requires if col + 1 < w then col1 == col + 1 && row1 == row else col1 == 0 && row1 == row + 1
    ensures DrawnUpTo(base, next, x, y, w, h, px, col1, row1)
  {
    forall a: int, b: int
      ensures At(next, a, b) ==
              if x <= a < x + w && y <= b < y + h && Before(a - x, b - y, col1, row1)
              then Some(PixelAt(px, w, h, a - x, b - y))
              else At(base, a, b)
    {
      assert At(next, a, b) ==
             if a == x + col && b == y + row then Some(PixelAt(px, w, h, col, row)) else At(now, a, b);
    }
  }

  /** After the pixels before cell (col, row) the cursor stands on that cell and exactly the cells
      before it hold their pixels, wherever the writes were interrupted. */
  lemma {:induction false} PartialTile(p: Panel, x: word, y: word, w: byte, h: byte,
                                       px: seq<word>, k: nat, col: nat, row: nat)
    requires 0 < w && 0 < h && x + w <= 0x1_0000 && y + h <= 0x1_0000
    requires |px| == Cells(w, h) && k == Cells(w, row) + col && k <= |px|
    requires col < w && if row < h then true else row == h && col == 0
    ensures var q := PutAll(SetWindow(p, x, y, w, h), px[..k]);
            && q == SetWindow(p, x, y, w, h).(cx := q.cx, cy := q.cy, pixels := q.pixels)
            && (row < h ==> q.cx == x + col && q.cy == y + row)
            && DrawnUpTo(p.pixels, q.pixels, x, y, w, h, px, col, row)
    decreases k
  {
    var s := SetWindow(p, x, y, w, h);
    if row == 0 && col == 0 {
      assert px[..0] == [];
    } else {
      var row0, col0 := if col > 0 then row else row - 1, if col > 0 then col - 1 else w - 1;
      CellIndex(w, h, col0, row0);
      PartialTile(p, x, y, w, h, px, k - 1, col0, row0);
      PutAllLast(s, px, k - 1);
      DrawnOneMore(p.pixels, PutAll(s, px[..k - 1]).pixels, PutAll(s, px[..k]).pixels,
                   x, y, w, h, px, col0, row0, col, row);
    }
  }

  /** A whole tile, in whatever portions it is drawn, sets exactly its own pixels. */
  lemma WholeTile(p: Panel, x: word, y: word, w: byte, h: byte, px: seq<word>, a: int, b: int)
    requires 0 < w && 0 < h && x + w <= 0x1_0000 && y + h <= 0x1_0000
    requires |px| == Cells(w, h)
    ensures At(PutAll(SetWindow(p, x, y, w, h), px).pixels, a, b) ==
            if x <= a < x + w && y <= b < y + h
            then Some(PixelAt(px, w, h, a - x, b - y))
            else At(p.pixels, a, b)
  {
    PartialTile(p, x, y, w, h, px, |px|, 0, h);
    assert px[..|px|] == px;
  }

  // ----- The byte-level interface -----

  const COLUMN_ADDRESS: byte := 0x2A
  const ROW_ADDRESS: byte := 0x2B
  const MEMORY_WRITE: byte := 0x2C

  /** One SPI transfer: the A0 line tells commands from data. */
  datatype Transfer = Command(c: byte) | Data(d: byte)

  datatype Chip = Chip(command: byte, args: seq<byte>, panel: Panel)

  function Receive(chip: Chip, t: Transfer): Chip
  {
    match t
    case Command(c) =>
      Chip(c, [], if c == MEMORY_WRITE then chip.panel.(cx := chip.panel.x0, cy := chip.panel.y0) else chip.panel)
    case Data(d) =>
      var args := chip.args + [d];
      if chip.command == COLUMN_ADDRESS && |args| == 4 then
        Chip(chip.command, [], chip.panel.(x0 := Word(args[0], args[1]), x1 := Word(args[2], args[3])))
      else if chip.command == ROW_ADDRESS && |args| == 4 then
        Chip(chip.command, [], chip.panel.(y0 := Word(args[0], args[1]), y1 := Word(args[2], args[3])))
      else if chip.command == MEMORY_WRITE && |args| == 2 then
        Chip(chip.command, [], Put(chip.panel, Word(args[0], args[1])))
      else
        chip.(args := args)
  }

  function ReceiveAll(chip: Chip, ts: seq<Transfer>): Chip
  {
    if ts == [] then chip else Receive(ReceiveAll(chip, ts[..|ts| - 1]), ts[|ts| - 1])
  }

  /** The panel is in a memory write, between two pixels. */
  predicate Writing(chip: Chip)
  {
    chip.command == MEMORY_WRITE && chip.args == []
  }

  /** The five transfers of an address command set one range and leave the rest alone. */
  lemma AddressCommand(chip: Chip, c: byte, low: word, high: word)
    requires c == COLUMN_ADDRESS || c == ROW_ADDRESS
    ensures Receive(Receive(Receive(Receive(Receive(chip, Command(c)),
              Data(low / 256)), Data(low % 256)), Data(high / 256)), Data(high % 256)) ==
            Chip(c, [], if c == COLUMN_ADDRESS then chip.panel.(x0 := low, x1 := high)
                        else chip.panel.(y0 := low, y1 := high))
  {
    var a, b, d := low / 256, low % 256, high / 256;
    var c1 := Receive(chip, Command(c));
    var c2 := Receive(c1, Data(a));
    assert c2 == Chip(c, [a], chip.panel);
    var c3 := Receive(c2, Data(b));
    assert c3 == Chip(c, [a, b], chip.panel);
    var c4 := Receive(c3, Data(d));
    assert c4 == Chip(c, [a, b, d], chip.panel);
  }

  /** The pixels of a buffer of little-endian pairs, as the RFB pixel format of this client sends them. */
  function PixelsOf(data: seq<byte>): (px: seq<word>)
    ensures |px| == |data| / 2
    ensures forall k :: 0 <= k < |px| ==> px[k] == Word(data[2 * k + 1], data[2 * k])
  {
    seq(|data| / 2, k requires 0 <= k < |data| / 2 => Word(data[2 * k + 1], data[2 * k]))
  }

  lemma PixelsOfLast(data: seq<byte>, k: nat)
    requires 0 < k && 2 * k <= |data|
    ensures PixelsOf(data[..2 * k]) == PixelsOf(data[..2 * (k - 1)]) + [Word(data[2 * k - 1], data[2 * k - 2])]
  {
  }

  /** The SPI driver. `wire` is every transfer it ever made; the panel is whatever a chip that
      started as `boot` makes of them. */
  class SpiLcd {
    ghost const boot: Chip
    var wire: seq<Transfer>

    ghost predicate Valid()
      reads this
    {
      Writing(Attached())
    }

    ghost function Attached(): Chip
      reads this
    {
      ReceiveAll(boot, wire)
    }

    ghost function Shown(): Panel
      reads this
    {
      Attached().panel
    }

    /** The driver after LcdInit, whose last command is a memory write of whole pixels. */
    constructor (ghost p: Panel)
      ensures Valid() && Shown() == p && wire == []
    {
      boot := Chip(MEMORY_WRITE, [], p);
      wire := [];
    }

    method WriteCommand(c: byte)
      modifies this
      ensures wire == old(wire) + [Command(c)]
      ensures Attached() == Receive(old(Attached()), Command(c))
    {
      wire := wire + [Command(c)];
      assert wire[..|wire| - 1] == old(wire);
    }

    method WriteData(d: byte)
      modifies this
      ensures wire == old(wire) + [Data(d)]
      ensures Attached() == Receive(old(Attached()), Data(d))
    {
      wire := wire + [Data(d)];
      assert wire[..|wire| - 1] == old(wire);
    }

    method WritePixel(pixel: word)
      requires Valid()
      modifies this
      ensures Valid() && Shown() == Put(old(Shown()), pixel)
    {
      WriteData(pixel / 256);
      WriteData(pixel % 256);
    }

    /** The five transfers of an address command. */
    method WriteRange(c: byte, low: word, high: word)
      requires c == COLUMN_ADDRESS || c == ROW_ADDRESS
      modifies this
      ensures wire == old(wire) + [Command(c), Data(low / 256), Data(low % 256), Data(high / 256), Data(high % 256)]
      ensures Attached() == Chip(c, [], if c == COLUMN_ADDRESS then old(Shown()).(x0 := low, x1 := high)
                                        else old(Shown()).(y0 := low, y1 := high))
    {
      hide Receive;
      AddressCommand(Attached(), c, low, high);
      WriteCommand(c);
      WriteData(low / 256);
      WriteData(low % 256);
      WriteData(high / 256);
      WriteData(high % 256);
    }

    /** The tile becomes the write window, whatever the panel did before. */
    method SetupTile(tileX: word, tileY: word, tileW: byte, tileH: byte)
      modifies this
      ensures Valid() && Shown() == SetWindow(old(Shown()), tileX, tileY, tileW, tileH)
      ensures var x1, y1 := (tileX + tileW + 0xFFFF) % 0x1_0000, (tileY + tileH + 0xFFFF) % 0x1_0000;
              wire == old(wire) +
                      [Command(0x2A), Data(tileX / 256), Data(tileX % 256), Data(x1 / 256), Data(x1 % 256)] +
                      [Command(0x2B), Data(tileY / 256), Data(tileY % 256), Data(y1 / 256), Data(y1 % 256)] +
                      [Command(0x2C)]
    {
      WriteRange(COLUMN_ADDRESS, tileX, (tileX + tileW + 0xFFFF) % 0x1_0000);
      WriteRange(ROW_ADDRESS, tileY, (tileY + tileH + 0xFFFF) % 0x1_0000);
      WriteCommand(MEMORY_WRITE);
    }

    method DrawRawTile(pixelCount: nat, data: seq<byte>)
      requires Valid() && |data| == 2 * pixelCount
      modifies this
      ensures Valid() && Shown() == PutAll(old(Shown()), PixelsOf(data))
    {
      ghost var px := PixelsOf(data);
      assert px[..0] == [];
      for i := 0 to pixelCount
        invariant Valid() && Shown() == PutAll(old(Shown()), px[..i])
      {
        WritePixel(Word(data[2 * i + 1], data[2 * i]));
        PutAllLast(old(Shown()), px, i);
      }
      assert px[..pixelCount] == px;
    }

    /** Streams the top-left tileW x tileH cells of a 16-row buffer of 32-byte rows. */
    method DrawHextile(tileW: byte, tileH: byte, buffer: array<byte>)
      requires Valid() && tileW <= 16 && tileH <= 16 && buffer.Length == 512
      modifies this
      ensures Valid() && Shown() == PutAll(old(Shown()), TileCells(buffer[..], tileW, tileH))
    {
      ghost var p := Shown();
      ghost var buf := buffer[..];
      for j := 0 to tileH
        invariant Valid() && Shown() == PutAll(p, TileCells(buf, tileW, j))
      {
        ghost var done := TileCells(buf, tileW, j);
        ghost var row := RowCells(buf, tileW, j);
        assert done + row[..0] == done;
        for i := 0 to tileW
          invariant Valid() && Shown() == PutAll(p, done + row[..i])
        {
          WritePixel(Word(buffer[j * 32 + 2 * i + 1], buffer[j * 32 + 2 * i]));
          assert (done + row)[..|done| + i] == done + row[..i];
          assert (done + row)[..|done| + i + 1] == done + row[..i + 1];
          PutAllLast(p, done + row, |done| + i);
        }
        assert row[..tileW] == row;
      }
    }
  }

  /** The pixel in cell (i, j) of the tile buffer. */
  function Cell(buf: seq<byte>, i: nat, j: nat): word
    requires |buf| == 512 && i < 16 && j < 16
  {
    Word(buf[j * 32 + 2 * i + 1], buf[j * 32 + 2 * i])
  }

  function RowCells(buf: seq<byte>, w: byte, j: nat): (px: seq<word>)
    requires |buf| == 512 && w <= 16 && j < 16
    ensures |px| == w
  {
    seq(w, i requires 0 <= i < w => Cell(buf, i, j))
  }

  /** The first h rows of the first w cells, in row-major order. */
  function TileCells(buf: seq<byte>, w: byte, h: byte): (px: seq<word>)
    requires |buf| == 512 && w <= 16 && h <= 16
    ensures |px| == Cells(w, h)
    decreases h
  {
    if h == 0 then [] else
      TileCells(buf, w, h - 1) + RowCells(buf, w, h - 1)
  }

  lemma {:induction false} TileCellAt(buf: seq<byte>, w: byte, h: byte, i: nat, j: nat)
    requires |buf| == 512 && w <= 16 && h <= 16 && i < w && j < h
    ensures PixelAt(TileCells(buf, w, h), w, h, i, j) == Cell(buf, i, j)
    decreases h
  {
    if j < h - 1 {
      TileCellAt(buf, w, h - 1, i, j);
      CellIndex(w, h - 1, i, j);
    }
  }
}
