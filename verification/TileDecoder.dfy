/** HandleHextile and its driver as the source writes them: statics, nested loops that return in
    the middle, and a 16 x 16 tile buffer filled in place. */
module TileDecoders {
  import opened Bytes
  import opened Panels
  import opened Hextile
  import opened TileFile

  // ----- The tile buffer -----

  function GridAt(buf: seq<word>, i: nat, j: nat): word
    requires |buf| == 256 && i < 16 && j < 16
  {
    buf[16 * j + i]
  }

  function GridRow(buf: seq<word>, w: nat, j: nat): (px: seq<word>)
    requires |buf| == 256 && w <= 16 && j < 16
    ensures |px| == w
  {
    seq(w, i requires 0 <= i < w => GridAt(buf, i, j))
  }

  function GridRows(buf: seq<word>, w: nat, h: nat): (px: seq<word>)
    requires |buf| == 256 && w <= 16 && h <= 16
    decreases h
  {
    if h == 0 then [] else GridRows(buf, w, h - 1) + GridRow(buf, w, h - 1)
  }

  /** Every cell of the tile holds the colour of the first subrectangles over the background. */
  predicate Shows(buf: seq<word>, w: nat, h: nat, bg: word, fg: word, coloured: bool, subs: seq<Subrect>)
    requires |buf| == 256 && w <= 16 && h <= 16
  {
    forall i: nat, j: nat {:trigger GridAt(buf, i, j)} :: i < w && j < h ==>
      GridAt(buf, i, j) == SubrectColour(bg, fg, coloured, subs, i, j)
  }

  lemma {:induction false} ShownRows(buf: seq<word>, c: Carry, t: Tile, w: byte, h: byte, k: byte)
    requires |buf| == 256 && w <= 16 && h <= 16 && k <= h && t.Coded?
    requires var now := CarryInto(c, t); Shows(buf, w, h, now.bg, now.fg, ColouredBit(t.sub), t.subrects)
    ensures GridRows(buf, w, k) == ColourRows(c, t, w, k)
    decreases k
  {
    if k > 0 {
      ShownRows(buf, c, t, w, h, k - 1);
      assert GridRow(buf, w, k - 1) == ColourRow(c, t, w, k - 1);
    }
  }

  lemma {:induction false} SubrectsFromAt(d: depth, c: bool, b: seq<byte>, i: nat, n: nat, k: nat)
    requires i + SubrectsSize(d, c, n) <= |b| && k < n
    ensures i + SubrectsSize(d, c, k) + SubrectSize(d, c) <= |b|
    ensures SubrectsFrom(d, c, b, i, n)[k] == SubrectFrom(d, c, b, i + SubrectsSize(d, c, k))
    decreases n
  {
    hide SubrectFrom;
    if k > 0 {
      SubrectsFromAt(d, c, b, i + SubrectSize(d, c), n - 1, k - 1);
    }
  }

  /** One rectangle of the buffer has been filled and the rest left alone. */
  ghost predicate GridFilled(was: seq<word>, buf: seq<word>, x: nat, y: nat, w: nat, h: nat, c: word)
    requires |was| == 256 && |buf| == 256
  {
    forall i: nat, j: nat {:trigger GridAt(buf, i, j)} :: i < 16 && j < 16 ==>
      GridAt(buf, i, j) == if x <= i < x + w && y <= j < y + h then c else GridAt(was, i, j)
  }

  /** One more subrectangle on top. */
  lemma ShowsMore(was: seq<word>, buf: seq<word>, w: nat, h: nat, bg: word, fg: word, coloured: bool,
                  subs: seq<Subrect>, k: nat)
    requires |was| == 256 && |buf| == 256 && w <= 16 && h <= 16 && k < |subs|
    requires Shows(was, w, h, bg, fg, coloured, subs[..k])
    requires GridFilled(was, buf, subs[k].x, subs[k].y, subs[k].w, subs[k].h, if coloured then subs[k].colour else fg)
    ensures Shows(buf, w, h, bg, fg, coloured, subs[..k + 1])
  {
    var more := subs[..k + 1];
    assert more[|more| - 1] == subs[k] && more[..|more| - 1] == subs[..k];
  }

  class TileDecoder {
    const d: depth
    // the source's ints, as the 16-bit patterns they are
    var rx: word
    var ry: word
    var rw: word
    var rh: word
    var x: word
    var y: word
    var w: nat
    var h: nat
    var bg: word
    var fg: word
    const hextileBuffer: array<word>
    const lcd: SpiLcd

    ghost predicate Valid()
      reads this, lcd
    {
      hextileBuffer.Length == 256 && lcd.Valid() && WellPlaced(Abs())
    }

    ghost function Abs(): Place
      reads this
    {
      Place(Area(rx, ry, rw, rh), Unwrapped(rx, x), Unwrapped(ry, y), bg, fg)
    }

    /** The size of the tile at hand is in w and h. */
    ghost predicate Sized()
      requires WellPlaced(Abs()) && !Finished(Abs())
      reads this
    {
      w == TileHere(Abs()).w && h == TileHere(Abs()).h
    }

    constructor (d: depth, display: SpiLcd, rectX: word, rectY: word, rectW: word, rectH: word)
      requires display.Valid() && Defined(Area(rectX, rectY, rectW, rectH))
      ensures Valid() && this.d == d && lcd == display && fresh(hextileBuffer)
      ensures Abs() == Place(Area(rectX, rectY, rectW, rectH), rectX, rectY, 0, 0)
    {
      this.d := d;
      rx, ry, rw, rh, x, y, w, h := rectX, rectY, rectW, rectH, rectX, rectY, 0, 0;
      bg, fg := 0, 0;
      hextileBuffer := new word[256](_ => 0);
      lcd := display;
    }

    /** SetupHandleHextile: a new rectangle; the colours stay. */
    method Setup(rectX: word, rectY: word, rectW: word, rectH: word)
      requires Valid() && Defined(Area(rectX, rectY, rectW, rectH))
      modifies this
      ensures Valid() && AtCorner(Abs())
      ensures Abs() == old(Abs()).(r := Area(rectX, rectY, rectW, rectH), x := rectX, y := rectY)
    {
      rx := rectX;
      ry := rectY;
      rw := rectW;
      rh := rectH;
      x := rx;
      y := ry;
    }

    method FillSubRectangle(sx: nat, sy: nat, sw: nat, sh: nat, pixel: word)
      requires hextileBuffer.Length == 256 && sx + sw <= 16 && sy + sh <= 16
      modifies hextileBuffer
      ensures GridFilled(old(hextileBuffer[..]), hextileBuffer[..], sx, sy, sw, sh, pixel)
    {
      ghost var was := hextileBuffer[..];
      var j := sy;
      while j < sy + sh
        invariant sy <= j <= sy + sh
        invariant GridFilled(was, hextileBuffer[..], sx, sy, sw, j - sy, pixel)
      {
        ghost var before := hextileBuffer[..];
        var i := sx;
        while i < sx + sw
          invariant sx <= i <= sx + sw
          invariant GridFilled(before, hextileBuffer[..], sx, j, i - sx, 1, pixel)
        {
          FillCell(before, hextileBuffer[..], sx, i, j, pixel);
          hextileBuffer[16 * j + i] := pixel;
          i := i + 1;
        }
        FillRow(was, before, hextileBuffer[..], sx, sy, sw, j, pixel);
        j := j + 1;
      }
    }

    lemma FillCell(was: seq<word>, buf: seq<word>, sx: nat, i: nat, j: nat, pixel: word)
      requires |was| == 256 && |buf| == 256 && sx <= i < 16 && j < 16
      requires GridFilled(was, buf, sx, j, i - sx, 1, pixel)
      ensures GridFilled(was, buf[16 * j + i := pixel], sx, j, i + 1 - sx, 1, pixel)
    {
      var next := buf[16 * j + i := pixel];
      forall m: nat, k: nat | m < 16 && k < 16
        ensures GridAt(next, m, k) == if sx <= m < i + 1 && k == j then pixel else GridAt(was, m, k)
      {
        assert GridAt(next, m, k) == if m == i && k == j then pixel else GridAt(buf, m, k);
      }
    }

    lemma FillRow(was: seq<word>, mid: seq<word>, buf: seq<word>, sx: nat, sy: nat, sw: nat, j: nat, pixel: word)
      requires |was| == 256 && |mid| == 256 && |buf| == 256 && sy <= j
      requires GridFilled(was, mid, sx, sy, sw, j - sy, pixel) && GridFilled(mid, buf, sx, j, sw, 1, pixel)
      ensures GridFilled(was, buf, sx, sy, sw, j + 1 - sy, pixel)
    {
      forall m: nat, k: nat | m < 16 && k < 16
        ensures GridAt(buf, m, k) == if sx <= m < sx + sw && sy <= k < j + 1 then pixel else GridAt(was, m, k)
      {
        assert GridAt(mid, m, k) == if sx <= m < sx + sw && sy <= k < j then pixel else GridAt(was, m, k);
      }
    }

    /** Write8bitPixel or WritePixel. */
    method ShowPixel(v: word)
      requires lcd.Valid()
      modifies lcd
      ensures lcd.Valid() && lcd.Shown() == Put(old(lcd.Shown()), Shade(d, v))
    {
      lcd.WritePixel(Shade(d, v));
    }

    /** n pixels straight from the data. */
    method DrawRawTile(n: nat, buffer: array<byte>, at: nat)
      requires lcd.Valid() && at + Scaled(d, n) <= buffer.Length
      modifies lcd
      ensures lcd.Valid()
      ensures lcd.Shown() == PutAll(old(lcd.Shown()), Shades(d, PixelsFrom(d, buffer[..], at, n)))
    {
      hide PixelsFrom, PixelFrom, PutAll;
      ghost var p, b := lcd.Shown(), buffer[..];
      ghost var px := PixelsFrom(d, b, at, n);
      ShownNothing(d, p, px);
      for i := 0 to n
        invariant lcd.Valid() && lcd.Shown() == PutAll(p, Shades(d, px[..i]))
      {
        PixelsFromAt(d, b, at, n, i);
        ShowPixel(GetPixel(buffer, at + Scaled(d, i)));
        ShownMore(d, p, px, i);
      }
      assert px[..n] == px && buffer[..] == b;
    }

    /** The top-left cells of the tile buffer. */
    method DrawHextile(tileW: nat, tileH: nat)
      requires lcd.Valid() && hextileBuffer.Length == 256 && tileW <= 16 && tileH <= 16
      modifies lcd
      ensures lcd.Valid()
      ensures lcd.Shown() == PutAll(old(lcd.Shown()), Shades(d, GridRows(hextileBuffer[..], tileW, tileH)))
    {
      hide PutAll, Shades;
      ghost var p, buf := lcd.Shown(), hextileBuffer[..];
      ShownNothing(d, p, []);
      assert GridRows(buf, tileW, 0) == [][..0];
      for j := 0 to tileH
        invariant lcd.Valid() && lcd.Shown() == PutAll(p, Shades(d, GridRows(buf, tileW, j)))
      {
        ghost var done, row := GridRows(buf, tileW, j), GridRow(buf, tileW, j);
        assert (done + row)[..|done|] == done;
        for i := 0 to tileW
          invariant lcd.Valid() && lcd.Shown() == PutAll(p, Shades(d, (done + row)[..|done| + i]))
        {
          ShowPixel(hextileBuffer[16 * j + i]);
          ShownMore(d, p, done + row, |done| + i);
        }
        assert (done + row)[..|done| + tileW] == done + row;
      }
    }

    /** GET_PIXEL. */
    function GetPixel(buffer: array<byte>, at: nat): word
      requires at + d <= buffer.Length
      reads buffer
    {
      PixelFrom(d, buffer[..], at)
    }

    // ----- One tile -----

    /** The bytes from here to the end of the window. */
    ghost function Ahead(buffer: array<byte>, size: nat, progress: nat): (b: seq<byte>)
      requires progress <= size <= buffer.Length
      reads buffer
      ensures |b| == size - progress
    {
      buffer[progress..size]
    }

    lemma AheadFrom(buffer: array<byte>, size: nat, progress: nat, n: nat)
      requires progress + n <= size <= buffer.Length
      ensures Ahead(buffer, size, progress)[n..] == Ahead(buffer, size, progress + n)
      ensures Ahead(buffer, size, 0) == buffer[..size]
    {
    }

    lemma PixelAhead(buffer: array<byte>, size: nat, progress: nat, i: nat)
      requires progress <= size <= buffer.Length && progress + i + d <= size
      ensures PixelFrom(d, buffer[..], progress + i) == PixelFrom(d, Ahead(buffer, size, progress), i)
    {
    }

    /** A raw tile, if all of it is there. */
    method HandleRaw(buffer: array<byte>, size: nat, progress: nat) returns (complete: bool, length: nat)
      requires Valid() && !Finished(Abs()) && progress < size <= buffer.Length
      requires Sized() && RawBit(buffer[progress])
      modifies lcd
      ensures Valid()
      ensures var p := ParseTile(d, Ahead(buffer, size, progress), w, h);
              if complete then
                p.Complete? && p.size == length &&
                    lcd.Shown() == PaintOne(d, old(lcd.Shown()), DrawnTile(Abs(), p.tile))
              else p == Incomplete && lcd.Shown() == old(lcd.Shown())
    {
      hide PixelsFrom, ParseTile, DrawnTile, PaintOne, PutAll, SetWindow, Shades, Times;
      ghost var b := Ahead(buffer, size, progress);
      assert b[0] == buffer[progress];
      RawTile(d, Abs(), b);
      length := 1;
      CellsHere(w, h);
      var pixels := Times(w, h);
      Doubling(d, pixels);
      length := length + Times(pixels, d);
      if size - progress < length {
        return false, length;
      }
      lcd.SetupTile(x, y, w, h);
      RawAhead(buffer, size, progress, pixels);
      PaintedTile(d, old(lcd.Shown()), TileHere(Abs()), PixelsFrom(d, b, 1, pixels));
      DrawRawTile(pixels, buffer, progress + 1);
      return true, length;
    }

    static function Times(a: nat, b: nat): nat
    {
      a * b
    }

    static lemma CellsHere(w: nat, h: nat)
      ensures Times(w, h) == Cells(w, h)
    {
      CellsIsProduct(w, h);
    }

    static lemma Doubling(d: depth, n: nat)
      ensures Times(n, d) == Scaled(d, n)
    {
    }

    lemma RawAhead(buffer: array<byte>, size: nat, progress: nat, n: nat)
      requires progress <= size <= buffer.Length && progress + 1 + Scaled(d, n) <= size
      ensures PixelsFrom(d, buffer[..], progress + 1, n) == PixelsFrom(d, Ahead(buffer, size, progress), 1, n)
    {
      PixelsShifted(d, buffer[..], progress, size, 1, n);
    }

    /** Background and foreground, each as soon as it is there; done tells whether both were. */
    method ReadColours(buffer: array<byte>, size: nat, progress: nat) returns (done: bool, length: nat)
      requires Valid() && progress < size <= buffer.Length && !RawBit(buffer[progress])
      modifies this`bg, this`fg
      ensures Valid() && length == if done then ForegroundEnd(d, buffer[progress]) else length
      ensures done <==> ForegroundEnd(d, buffer[progress]) <= size - progress
      ensures Abs() == Peeked(d, old(Abs()), Ahead(buffer, size, progress))
    {
      ghost var b := Ahead(buffer, size, progress);
      var subencoding := buffer[progress];
      assert b[0] == subencoding;
      length := 1;
      if BackgroundBit(subencoding) {
        if size - progress < length + d {
          return false, length;
        }
        PixelAhead(buffer, size, progress, length);
        bg := GetPixel(buffer, progress + length);
        length := length + d;
      }
      if ForegroundBit(subencoding) {
        if size - progress < length + d {
          return false, length;
        }
        PixelAhead(buffer, size, progress, length);
        fg := GetPixel(buffer, progress + length);
        length := length + d;
      }
      return true, length;
    }

    /** The subrectangles of a complete tile, painted in order over the background. */
    method PaintSubrects(buffer: array<byte>, size: nat, progress: nat, nSubrects: byte, at: nat, ghost t: Tile)
      requires Valid() && !Finished(Abs()) && progress < size <= buffer.Length
      requires Sized()
      requires t.Coded? && t.sub == buffer[progress] && |t.subrects| == nSubrects && InBuffer(t.subrects)
      requires at + SubrectsSize(d, ColouredBit(t.sub), nSubrects) <= size - progress
      requires t.subrects == SubrectsFrom(d, ColouredBit(t.sub), Ahead(buffer, size, progress), at, nSubrects)
      requires Carry(bg, fg) == CarryInto(Carry(bg, fg), t)
      requires Shows(hextileBuffer[..], w, h, bg, fg, ColouredBit(t.sub), [])
      modifies this`fg, hextileBuffer
      ensures Valid() && Shows(hextileBuffer[..], w, h, old(bg), old(fg), ColouredBit(t.sub), t.subrects)
      ensures fg == if ColouredBit(t.sub) && t.subrects != [] then t.subrects[|t.subrects| - 1].colour else old(fg)
    {
      hide SubrectsFrom, Shows, GridFilled, PixelFrom, Defined, Counts, Reached, Unwrapped, SubrectColour, CarryInto;
      var subencoding := buffer[progress];
      var ptr := progress + at;
      ghost var c := ColouredBit(t.sub);
      ghost var b := Ahead(buffer, size, progress);
      ghost var fg0 := fg;
      assert t.subrects[..0] == [];
      for i := 0 to nSubrects
        invariant Valid() && ptr == progress + at + SubrectsSize(d, c, i)
        invariant Shows(hextileBuffer[..], w, h, bg, fg0, c, t.subrects[..i])
        invariant fg == if c && i > 0 then t.subrects[i - 1].colour else fg0
      {
        SubrectsFromAt(d, c, b, at, nSubrects, i);
        ghost var q := t.subrects[i];
        ghost var was := hextileBuffer[..];
        var colour := fg;
        if ColouredBit(subencoding) {
          PixelAhead(buffer, size, progress, ptr - progress);
          fg := GetPixel(buffer, ptr);
          ptr := ptr + d;
        }
        PairAhead(buffer, size, progress, ptr - progress);
        var sx := buffer[ptr] / 16;
        var sy := buffer[ptr] % 16;
        ptr := ptr + 1;
        var sw := buffer[ptr] / 16 + 1;
        var sh := buffer[ptr] % 16 + 1;
        ptr := ptr + 1;
        assert q == Subrect(if c then fg else 0, sx, sy, sw, sh);
        FillSubRectangle(sx, sy, sw, sh, fg);
        ShowsMore(was, hextileBuffer[..], w, h, bg, fg0, c, t.subrects, i);
      }
      assert t.subrects[..nSubrects] == t.subrects;
    }

    /** A tile that is not raw, if all of it is there. The count byte may lie just behind the
        window; whatever is read there, the window is then too short. */
    method HandleCoded(buffer: array<byte>, size: nat, progress: nat) returns (complete: bool, length: nat)
      requires Valid() && !Finished(Abs()) && progress < size <= buffer.Length
      requires Sized() && !RawBit(buffer[progress])
      requires !ParseTile(d, Ahead(buffer, size, progress), w, h).OutOfBuffer?
      modifies this`bg, this`fg, lcd, hextileBuffer
      ensures Valid()
      ensures var p := ParseTile(d, Ahead(buffer, size, progress), w, h);
              if complete then
                p.Complete? && p.size == length && Abs() == Coloured(old(Abs()), p.tile) &&
                lcd.Shown() == PaintOne(d, old(lcd.Shown()), DrawnTile(old(Abs()), p.tile))
              else
                p == Incomplete && lcd.Shown() == old(lcd.Shown()) &&
                Abs() == Peeked(d, old(Abs()), Ahead(buffer, size, progress))
    {
      hide ParseTile, SubrectsFrom, PixelFrom, Peeked, Coloured, DrawnTile, ValidTile, InBuffer;
      ghost var b := Ahead(buffer, size, progress);
      ghost var p0 := Abs();
      var subencoding := buffer[progress];
      assert b[0] == subencoding;
      CodedSize(d, b, w, h);
      var done;
      done, length := ReadColours(buffer, size, progress);
      if !done {
        return false, length;
      }
      var nSubrects: byte := 0;
      if SubrectsBit(subencoding) {
        if size - progress < length {
          return false, length;
        }
        if progress + length < buffer.Length {
          nSubrects := buffer[progress + length];
        } else {
          nSubrects := *;
        }
        length := length + 1;
        if size - progress >= length {
          assert b[length - 1] == nSubrects;
        }
      }
      var at := length;
      length := length + SubrectsSize(d, ColouredBit(subencoding), nSubrects);
      if size - progress < length {
        return false, length;
      }
      CodedRead(d, b, w, h, p0, Abs());
      ShowCoded(buffer, size, progress, nSubrects, at, ParseTile(d, b, w, h).tile, p0);
      return true, length;
    }

    /** Background, subrectangles and the finished tile to the display. */
    method ShowCoded(buffer: array<byte>, size: nat, progress: nat, nSubrects: byte, at: nat, ghost t: Tile,
                     ghost p0: Place)
      requires Valid() && !Finished(Abs()) && progress < size <= buffer.Length
      requires Sized() && ValidTile(2, t, w, h)
      requires t.Coded? && t.sub == buffer[progress] && |t.subrects| == nSubrects && InBuffer(t.subrects)
      requires at + SubrectsSize(d, ColouredBit(t.sub), nSubrects) <= size - progress
      requires t.subrects == SubrectsFrom(d, ColouredBit(t.sub), Ahead(buffer, size, progress), at, nSubrects)
      requires Carry(bg, fg) == CarryInto(Carry(p0.bg, p0.fg), t) == CarryInto(Carry(bg, fg), t)
      requires p0 == Abs().(bg := p0.bg, fg := p0.fg)
      modifies this`fg, lcd, hextileBuffer
      ensures Valid() && Abs() == Coloured(p0, t)
      ensures lcd.Shown() == PaintOne(d, old(lcd.Shown()), DrawnTile(p0, t))
    {
      hide SubrectsFrom, PixelFrom, GridRows, ColourRows, ValidTile, InBuffer, PutAll, SetWindow, Shades, PaintOne,
           DrawnTile;
      CodedTile(p0, t, w, h);
      PaintedTile(d, lcd.Shown(), TileHere(p0), ColourRows(Carry(p0.bg, p0.fg), t, w, h));
      lcd.SetupTile(x, y, w, h);
      FillSubRectangle(0, 0, w, h, bg);
      assert Shows(hextileBuffer[..], w, h, bg, fg, ColouredBit(t.sub), []);
      PaintSubrects(buffer, size, progress, nSubrects, at, t);
      ShownRows(hextileBuffer[..], Carry(p0.bg, p0.fg), t, w, h, h);
      DrawHextile(w, h);
    }

    // ----- A window and a file -----

    /** One turn of the inner loop: the tile at (x, y), if it is all there. */
    method HandleTile(buffer: array<byte>, size: nat, progress: nat) returns (complete: bool, length: nat)
      requires Valid() && !Finished(Abs()) && progress <= size <= buffer.Length
      requires Decode(d, Abs(), Ahead(buffer, size, progress)).defined
      modifies this`w, this`h, this`bg, this`fg, lcd, hextileBuffer
      ensures Valid() && 0 < length
      ensures var b := Ahead(buffer, size, progress);
              var g := TileHere(old(Abs()));
              var p := ParseTile(d, b, g.w, g.h);
              if complete then
                p.Complete? && p.size == length && Abs() == Coloured(old(Abs()), p.tile) &&
                lcd.Shown() == PaintOne(d, old(lcd.Shown()), DrawnTile(old(Abs()), p.tile))
              else p == Incomplete && lcd.Shown() == old(lcd.Shown()) && Abs() == Peeked(d, old(Abs()), b)
    {
      hide PixelFrom, PixelsFrom, SubrectsFrom, DrawnTile, Coloured, Peeked, ParseTile, PaintOne;
      ghost var b := Ahead(buffer, size, progress);
      ghost var p0 := Abs();
      TileSides();
      w, h := 16, 16;
      if Signed(Sub16(Add16(rx, rw), x)) < 16 {
        w := Signed(Sub16(Add16(rx, rw), x));
      }
      if Signed(Sub16(Add16(ry, rh), y)) < 16 {
        h := Signed(Sub16(Add16(ry, rh), y));
      }
      if size - progress < 1 {
        NothingThere(d, p0, b);
        return false, 1;
      }
      assert b[0] == buffer[progress];
      DefinedHere(d, p0, b);
      if RawBit(buffer[progress]) {
        RawKeepsColours(d, p0, b, w, h);
        complete, length := HandleRaw(buffer, size, progress);
      } else {
        complete, length := HandleCoded(buffer, size, progress);
      }
      if complete {
        assert length > 0 by {
          SizePositive(d, b, w, h);
        }
      } else {
        length := 1;
      }
    }

    lemma TileSides()
      requires WellPlaced(Abs()) && !Finished(Abs())
      ensures Signed(Sub16(Add16(rx, rw), x)) == rx + rw - Unwrapped(rx, x) > 0
      ensures Signed(Sub16(Add16(ry, rh), y)) == ry + rh - Unwrapped(ry, y) > 0
    {
      LoopTest(rx, rw, x);
      LoopTest(ry, rh, y);
    }

    /** The body of the inner loop and its step. */
    method StepTile(buffer: array<byte>, size: nat, progress: nat, ghost e: Decoded, ghost tiles: seq<Drawn>,
                    ghost shown: Panel)
      returns (complete: bool, next: nat, ghost more: seq<Drawn>)
      requires Valid() && !Finished(Abs()) && progress <= size <= buffer.Length
      requires e.defined && e == Prepend(progress, tiles, Decode(d, Abs(), Ahead(buffer, size, progress)))
      requires lcd.Shown() == PaintDrawn(d, shown, tiles)
      modifies this`x, this`w, this`h, this`bg, this`fg, lcd, hextileBuffer
      ensures hextileBuffer.Length == 256 && lcd.Valid() && lcd.Shown() == PaintDrawn(d, shown, more) && next <= size
      ensures if complete then Unwrapped(rx, x) == old(Unwrapped(rx, x)) + 16 && InRows(Abs()) else Valid()
      ensures e == if complete then Prepend(next, more, Decode(d, NextPlace(Abs()), Ahead(buffer, size, next)))
                   else Decoded(Abs(), next, more, true)
    {
      hide ParseTile, DrawnTile, Coloured, Peeked, PixelFrom, Decode, PlaceAfter, Prepend, PaintOne, PaintDrawn, Ahead;
      ghost var p, b := Abs(), Ahead(buffer, size, progress);
      PrependDefined(progress, tiles, Decode(d, p, b));
      var length;
      complete, length := HandleTile(buffer, size, progress);
      next, more := progress, tiles;
      ColouredPlace(p, ParseTileOrNone(d, p, b));
      PeekedPlace(d, p, b);
      if !complete {
        StopHere(d, p, b, progress, tiles);
        return;
      }
      ghost var t := ParseTileOrNone(d, p, b);
      StepHere(d, p, b, progress, tiles, t, length);
      AheadFrom(buffer, size, progress, length);
      PaintDrawnLast(d, shown, tiles, DrawnTile(p, t));
      next := progress + length;
      more := tiles + [DrawnTile(p, t)];
      LoopTest(rx, rw, x);
      x := Add16(x, 16);
      assert Abs() == Coloured(p, t).(x := p.x + 16);
      NextIsAfter(p, t);
    }

    /** The step of the outer loop. */
    method StepRow()
      requires hextileBuffer.Length == 256 && lcd.Valid() && Defined(Abs().r) && Counts(ry, rh) && Abs().y < ry + rh
      requires if Counts(rx, rw) then InRows(Abs()) && Abs().x >= rx + rw else WellPlaced(Abs())
      modifies this`x, this`y
      ensures Valid()
      ensures Abs() == if Counts(rx, rw) then NextPlace(old(Abs())) else old(Abs()).(y := old(Abs()).y + 16)
      ensures Abs().y == old(Abs()).y + 16
      ensures Signed(y) < Signed(Add16(ry, rh)) <==> Abs().y < ry + rh
    {
      LoopTest(ry, rh, y);
      y := Add16(y, 16);
      x := rx;
      RowTest();
    }

    /** HandleHextile: whole tiles from the window, from where the last call stopped. Returns how
        many bytes they took. On a rectangle with a side that is not positive as an int nothing
        happens but for y. */
    method HandleHextile(buffer: array<byte>, size: nat) returns (progress: nat)
      requires Valid() && size <= buffer.Length && Decode(d, Abs(), buffer[..size]).defined
      modifies this`x, this`y, this`w, this`h, this`bg, this`fg, lcd, hextileBuffer
      ensures Valid()
      ensures var e := old(Decode(d, Abs(), buffer[..size]));
              && progress == e.used && lcd.Shown() == PaintDrawn(d, old(lcd.Shown()), e.tiles)
              && (if Proper(old(Abs()).r) then Abs() == e.place else Abs() == old(Abs()).(y := Abs().y))
    {
      hide ParseTile, DrawnTile, Coloured, Peeked, PixelFrom, Decode, PlaceAfter, Prepend, PaintOne, PaintDrawn,
           Finished, Counts, Void, Reached, Signed, Ahead, Sub16, Add16;
      ghost var start, shown, live := Abs(), lcd.Shown(), Proper(Abs().r);
      ghost var e := Decode(d, start, buffer[..size]);
      ghost var tiles := [];
      progress := 0;
      AheadFrom(buffer, size, 0, 0);
      PrependNothing(e);
      PaintedNothing(d, shown);
      DecodeVoid(d, start, buffer[..size]);
      RowTest();
      while Signed(y) < Signed(Add16(ry, rh))
        invariant Valid() && progress <= size
        invariant live ==> e.defined && e == Prepend(progress, tiles, Decode(d, Abs(), Ahead(buffer, size, progress)))
        invariant lcd.Shown() == PaintDrawn(d, shown, tiles)
        invariant !live ==> progress == 0 && tiles == [] && Abs() == start.(y := Abs().y)
        invariant Abs().r == start.r
        invariant Signed(y) < Signed(Add16(ry, rh)) <==> (Counts(ry, rh) && Abs().y < ry + rh)
        decreases if Counts(ry, rh) then ry + rh + 16 - Abs().y else 0
      {
        ghost var y0 := y;
        RowTest();
        ColumnTest();
        while Signed(x) < Signed(Add16(rx, rw))
          invariant hextileBuffer.Length == 256 && lcd.Valid() && y == y0 && progress <= size
          invariant Abs().r == start.r && (Counts(rx, rw) ==> InRows(Abs()))
          invariant live ==>
                      e.defined &&
                      e == Prepend(progress, tiles, Decode(d, NextPlace(Abs()), Ahead(buffer, size, progress)))
          invariant lcd.Shown() == PaintDrawn(d, shown, tiles)
          invariant !live ==> x == rx && progress == 0 && tiles == [] && Abs() == start.(y := Abs().y)
          invariant Signed(x) < Signed(Add16(rx, rw)) <==> (Counts(rx, rw) && Abs().x < rx + rw)
          decreases if Counts(rx, rw) then rx + rw + 16 - Abs().x else 0
        {
          InRow(Abs());
          LoopTest(rx, rw, x);
          var complete;
          complete, progress, tiles := StepTile(buffer, size, progress, e, tiles, shown);
          if !complete {
            return progress;
          }
          ColumnAgain();
        }
        StepRow();
      }
      FinishHere(d, Abs(), Ahead(buffer, size, progress), progress, tiles);
    }

    lemma RowTest()
      requires WellPlaced(Abs())
      ensures Signed(y) < Signed(Add16(ry, rh)) <==> (Counts(ry, rh) && Abs().y < ry + rh)
    {
      if Counts(ry, rh) {
        LoopTest(ry, rh, y);
      } else {
        VoidTest(ry, rh);
      }
    }

    lemma ColumnTest()
      requires WellPlaced(Abs()) && Counts(ry, rh)
      ensures Signed(x) < Signed(Add16(rx, rw)) <==> (Counts(rx, rw) && Abs().x < rx + rw)
    {
      if Counts(rx, rw) {
        LoopTest(rx, rw, x);
      } else {
        VoidTest(rx, rw);
      }
    }

    lemma ColumnAgain()
      requires Counts(rx, rw) && Reached(rx, rw, Abs().x)
      ensures Signed(x) < Signed(Add16(rx, rw)) <==> Abs().x < rx + rw
    {
      LoopTest(rx, rw, x);
    }

    /** The next stretch of the file to the front of the window buffer. */
    static method LoadWindow(file: seq<byte>, position: nat, remaining: nat, tempbuffer: array<byte>)
      requires position + remaining <= |file| && remaining <= tempbuffer.Length
      modifies tempbuffer
      ensures tempbuffer[..remaining] == file[position..position + remaining]
    {
      for i := 0 to remaining
        invariant tempbuffer[..i] == file[position..position + i]
      {
        tempbuffer[i] := file[position + i];
      }
    }

    /** main: the header's rectangle, then windows of the rest of the file until it is used up;
        `stuck` tells that the same window would be offered for ever. */
    method ShowFile(rawData: seq<byte>) returns (position: nat, stuck: bool)
      requires Valid() && HEADER_SIZE <= |rawData| < 0x8000 && Defined(HeaderArea(rawData))
      requires Decode(d, Cornered(Abs(), HeaderArea(rawData)), rawData[HEADER_SIZE..]).defined
      modifies this, lcd, hextileBuffer
      ensures Valid() && HEADER_SIZE <= position <= |rawData|
      ensures var p := Cornered(old(Abs()), HeaderArea(rawData)); var file := rawData[HEADER_SIZE..];
              var v := Drive(d, p, file);
              && stuck == v.stuck && (stuck <==> position != |rawData|)
              && lcd.Shown() == PaintDrawn(d, old(lcd.Shown()), v.tiles)
              && (!stuck <==> Decode(d, p, file).used == |file| && TilesFit(d, p, file))
              && (!stuck ==> v.tiles == Decode(d, p, file).tiles)
              && (Proper(p.r) ==> Abs() == v.place)
    {
      hide Decode, TilesFit, Drive, Window, WellPlaced, PaintDrawn, Prepend, Counts, Void, Reached, Unwrapped, Defined,
           Proper;
      Setup(Word(rawData[0], rawData[1]), Word(rawData[2], rawData[3]), Word(rawData[4], rawData[5]),
            Word(rawData[6], rawData[7]));
      ghost var p0, file, shown := Abs(), rawData[HEADER_SIZE..], lcd.Shown();
      ghost var v := Drive(d, p0, file);
      ghost var tiles := [];
      PaintedNothing(d, shown);
      DriverExact(d, p0, file);
      var tempbuffer := new byte[MaxTileSize(d)](_ => 0);
      position, stuck := HEADER_SIZE, false;
      assert rawData[position..] == file;
      while position < |rawData|
        invariant Valid() && HEADER_SIZE <= position <= |rawData| && !stuck && fresh(tempbuffer)
        invariant lcd.Shown() == PaintDrawn(d, shown, tiles) && tempbuffer.Length == MaxTileSize(d)
        invariant Abs().r == p0.r && (!Proper(p0.r) ==> position == HEADER_SIZE && tiles == [] && Abs() == p0)
        invariant Decode(d, Abs(), rawData[position..]).defined
        invariant var u := Drive(d, Abs(), rawData[position..]);
                  v.place == u.place && v.stuck == u.stuck && v.tiles == tiles + u.tiles
        decreases |rawData| - position
      {
        ghost var p, left := Abs(), rawData[position..];
        var remaining := |rawData| - position;
        if remaining > MaxTileSize(d) {
          remaining := MaxTileSize(d);
        }
        LoadWindow(rawData, position, remaining, tempbuffer);
        WindowIs(d, rawData, position, remaining);
        DriveStep(d, p, left);
        DecodeVoid(d, p, Window(d, left));
        var ret := HandleHextile(tempbuffer, remaining);
        DropTwice(rawData, position, ret);
        ghost var e := Decode(d, p, Window(d, left));
        PaintDrawnAppend(d, shown, tiles, e.tiles);
        if ret == 0 {
          stuck := true;
          assert tiles + [] == tiles;
          return;
        }
        position := position + ret;
        Regroup([], tiles, e.tiles, Drive(d, Abs(), rawData[position..]).tiles);
        tiles := tiles + e.tiles;
      }
      DriveNothing(d, Abs());
      assert rawData[position..] == [] && tiles + [] == tiles;
    }

    lemma PairAhead(buffer: array<byte>, size: nat, progress: nat, i: nat)
      requires progress <= size <= buffer.Length && progress + i + 2 <= size
      ensures buffer[progress + i] == Ahead(buffer, size, progress)[i]
      ensures buffer[progress + i + 1] == Ahead(buffer, size, progress)[i + 1]
    {
    }
  }

  const HEADER_SIZE: nat := 12

  /** The rectangle in the header of an RFB file. */
  function HeaderArea(rawData: seq<byte>): Area
    requires |rawData| >= HEADER_SIZE
  {
    Area(Word(rawData[0], rawData[1]), Word(rawData[2], rawData[3]), Word(rawData[4], rawData[5]),
         Word(rawData[6], rawData[7]))
  }

  function Cornered(p: Place, r: Area): (q: Place)
    requires Defined(r)
    ensures WellPlaced(q) && AtCorner(q)
  {
    Place(r, r.x, r.y, p.bg, p.fg)
  }

  /** Inside the outer loop: a tile of the row is next, or the row is finished. */
  predicate InRows(p: Place)
  {
    Proper(p.r) && Reached(p.r.x, p.r.w, p.x) && Reached(p.r.y, p.r.h, p.y) && p.y < p.r.y + p.r.h
  }

  /** The place after the inner loop's step, which leaves a finished row to the outer loop. */
  function NextPlace(p: Place): (q: Place)
    requires InRows(p)
    ensures WellPlaced(q)
  {
    if p.x < p.r.x + p.r.w then p else p.(x := p.r.x, y := p.y + 16)
  }

  lemma InRow(p: Place)
    requires InRows(p) && p.x < p.r.x + p.r.w
    ensures WellPlaced(p) && !Finished(p) && NextPlace(p) == p
  {
  }

  lemma PaintedNothing(d: depth, p: Panel)
    ensures PaintDrawn(d, p, []) == p
  {
  }

  lemma ShownNothing(d: depth, p: Panel, px: seq<word>)
    ensures PutAll(p, Shades(d, px[..0])) == p
  {
  }

  lemma ShownMore(d: depth, p: Panel, px: seq<word>, i: nat)
    requires i < |px|
    ensures PutAll(p, Shades(d, px[..i + 1])) == Put(PutAll(p, Shades(d, px[..i])), Shade(d, px[i]))
  {
    var s := Shades(d, px);
    assert Shades(d, px[..i]) == s[..i] && Shades(d, px[..i + 1]) == s[..i + 1];
    PutAllLast(p, s, i);
  }

  lemma DecodeVoid(d: depth, p: Place, b: seq<byte>)
    requires WellPlaced(p)
    ensures !Proper(p.r) ==> Decode(d, p, b) == Decoded(p, 0, [], true)
  {
  }

  lemma NothingThere(d: depth, p: Place, b: seq<byte>)
    requires b == []
    ensures Peeked(d, p, b) == p && forall w: byte, h: byte :: ParseTile(d, b, w, h) == Incomplete
  {
  }

  lemma PaintedTile(d: depth, p: Panel, g: Area, px: seq<word>)
    requires g.w < 256 && g.h < 256
    ensures PaintOne(d, p, Drawn(g, px)) ==
            PutAll(SetWindow(p, g.x % 0x1_0000, g.y % 0x1_0000, g.w, g.h), Shades(d, px))
  {
    hide PutAll, SetWindow, Shades;
  }

  /** When a raw tile is complete, and what is then drawn. */
  lemma RawTile(d: depth, p: Place, b: seq<byte>)
    requires WellPlaced(p) && !Finished(p) && b != [] && RawBit(b[0])
    ensures var g := TileHere(p);
            var n := Cells(g.w, g.h);
            var t := ParseTile(d, b, g.w, g.h);
            if |b| < 1 + Scaled(d, n) then t == Incomplete
            else t.Complete? && t.size == 1 + Scaled(d, n) && DrawnTile(p, t.tile) == Drawn(g, PixelsFrom(d, b, 1, n))
  {
    hide PixelsFrom;
  }

  lemma CodedTile(p: Place, t: Tile, w: byte, h: byte)
    requires WellPlaced(p) && !Finished(p) && t.Coded? && TileHere(p).w == w && TileHere(p).h == h &&
              ValidTile(2, t, w, h)
    ensures DrawnTile(p, t) == Drawn(TileHere(p), ColourRows(Carry(p.bg, p.fg), t, w, h))
  {
    hide ColourRows;
  }

  lemma DefinedHere(d: depth, p: Place, b: seq<byte>)
    requires WellPlaced(p) && !Finished(p) && Decode(d, p, b).defined
    ensures !ParseTile(d, b, TileHere(p).w, TileHere(p).h).OutOfBuffer?
  {
  }

  lemma RawKeepsColours(d: depth, p: Place, b: seq<byte>, w: byte, h: byte)
    requires b != [] && RawBit(b[0])
    ensures Peeked(d, p, b) == p
    ensures var t := ParseTile(d, b, w, h); t.Complete? ==> Coloured(p, t.tile) == p
  {
  }

  lemma SizePositive(d: depth, b: seq<byte>, w: byte, h: byte)
    ensures ParseTile(d, b, w, h).Complete? ==> ParseTile(d, b, w, h).size > 0
  {
  }

  /** The tile at the front of the data, when it is complete. */
  function ParseTileOrNone(d: depth, p: Place, b: seq<byte>): Tile
    requires WellPlaced(p) && !Finished(p)
  {
    var t := ParseTile(d, b, TileHere(p).w, TileHere(p).h);
    if t.Complete? then t.tile else Raw(0, [])
  }

  lemma PrependDefined(n: nat, tiles: seq<Drawn>, r: Decoded)
    ensures Prepend(n, tiles, r).defined == r.defined
  {
  }

  /** The call stops at a tile that is not all there. */
  lemma StopHere(d: depth, p: Place, b: seq<byte>, progress: nat, tiles: seq<Drawn>)
    requires WellPlaced(p) && !Finished(p) && ParseTile(d, b, TileHere(p).w, TileHere(p).h) == Incomplete
    ensures Prepend(progress, tiles, Decode(d, p, b)) == Decoded(Peeked(d, p, b), progress, tiles, true)
    ensures WellPlaced(Peeked(d, p, b))
  {
    DecodeNothing(d, p, b);
    PeekedPlace(d, p, b);
    assert tiles + [] == tiles;
  }

  /** The call goes on behind a complete tile. */
  lemma StepHere(d: depth, p: Place, b: seq<byte>, progress: nat, tiles: seq<Drawn>, t: Tile, n: nat)
    requires WellPlaced(p) && !Finished(p) && ParseTile(d, b, TileHere(p).w, TileHere(p).h) == Complete(t, n)
    ensures n <= |b| && ValidTile(2, t, TileHere(p).w, TileHere(p).h)
    ensures Prepend(progress, tiles, Decode(d, p, b)) ==
            Prepend(progress + n, tiles + [DrawnTile(p, t)], Decode(d, PlaceAfter(p, t), b[n..]))
  {
    hide Prepend;
    DecodeTile(d, p, b, t, n);
    PrependTwice(progress, tiles, n, [DrawnTile(p, t)], Decode(d, PlaceAfter(p, t), b[n..]));
  }

  lemma FinishHere(d: depth, p: Place, b: seq<byte>, progress: nat, tiles: seq<Drawn>)
    requires WellPlaced(p) && Finished(p)
    ensures Prepend(progress, tiles, Decode(d, p, b)) == Decoded(p, progress, tiles, true)
  {
    assert tiles + [] == tiles;
  }

  lemma NextIsAfter(p: Place, t: Tile)
    requires WellPlaced(p) && !Finished(p)
    ensures var q := Coloured(p, t);
            && q == p.(bg := q.bg, fg := q.fg) && InRows(q.(x := p.x + 16))
            && NextPlace(q.(x := p.x + 16)) == PlaceAfter(p, t)
  {
  }

  lemma DecodeNothing(d: depth, p: Place, b: seq<byte>)
    requires WellPlaced(p) && !Finished(p) && ParseTile(d, b, TileHere(p).w, TileHere(p).h) == Incomplete
    ensures Decode(d, p, b) == Decoded(Peeked(d, p, b), 0, [], true)
  {
  }

  lemma PrependNothing(r: Decoded)
    ensures Prepend(0, [], r) == r
  {
    assert [] + r.tiles == r.tiles;
  }

  /** One turn of the driver. */
  lemma DriveStep(d: depth, p: Place, b: seq<byte>)
    requires WellPlaced(p) && b != [] && Decode(d, p, b).defined
    ensures var r := Decode(d, p, Window(d, b));
            && r.defined
            && (r.used == 0 ==> Drive(d, p, b) == Driven(r.place, [], true) && r.tiles == [])
            && (r.used > 0 ==>
                  && Decode(d, r.place, b[r.used..]).defined
                  && Drive(d, p, b).place == Drive(d, r.place, b[r.used..]).place
                  && Drive(d, p, b).stuck == Drive(d, r.place, b[r.used..]).stuck
                  && Drive(d, p, b).tiles == r.tiles + Drive(d, r.place, b[r.used..]).tiles)
  {
    hide Decode, Drive, Window;
    var a := Window(d, b);
    var more := b[|a|..];
    Cut(b, |a|, 0);
    Resumes(d, p, a, more);
    var r := Decode(d, p, a);
    Cut(b, |a|, r.used);
    NoBytesNoTiles(d, p, a);
    DriveOpens(d, p, b);
  }

  lemma WindowIs(d: depth, file: seq<byte>, position: nat, remaining: nat)
    requires position <= |file| && remaining == Min(|file| - position, MaxTileSize(d))
    ensures file[position..position + remaining] == Window(d, file[position..])
  {
  }

  lemma DriveOpens(d: depth, p: Place, b: seq<byte>)
    requires WellPlaced(p) && b != []
    ensures var r := Decode(d, p, Window(d, b));
            if r.used == 0 then Drive(d, p, b) == Driven(r.place, [], true)
            else
              var v := Drive(d, r.place, b[r.used..]);
              Drive(d, p, b) == Driven(v.place, r.tiles + v.tiles, v.stuck)
  {
    hide Decode, Window;
  }

  lemma NoBytesNoTiles(d: depth, p: Place, b: seq<byte>)
    requires WellPlaced(p)
    ensures Decode(d, p, b).used == 0 ==> Decode(d, p, b).tiles == []
  {
  }

  lemma DriveNothing(d: depth, p: Place)
    requires WellPlaced(p)
    ensures Drive(d, p, []) == Driven(p, [], false)
  {
  }

  /** When a tile that is not raw is complete, and how long it is. */
  lemma CodedSize(d: depth, b: seq<byte>, w: byte, h: byte)
    requires b != [] && !RawBit(b[0])
    ensures var c := CountEnd(d, b[0]);
            var p := ParseTile(d, b, w, h);
            if |b| < c then p == Incomplete
            else
              var n := if SubrectsBit(b[0]) then b[c - 1] else 0;
              var size := c + SubrectsSize(d, ColouredBit(b[0]), n);
              if |b| < size then p == Incomplete
              else
                && !p.Incomplete?
                && (p.Complete? ==>
                      && ValidTile(2, p.tile, w, h) && p.size == size && p.tile.Coded? && p.tile.sub == b[0] &&
                          |p.tile.subrects| == n
                      && InBuffer(p.tile.subrects)
                      && p.tile.subrects == SubrectsFrom(d, ColouredBit(b[0]), b, c, n))
  {
    hide SubrectsFrom, InBuffer;
  }

  /** The colours read on the way are those of the tile. */
  lemma CodedRead(d: depth, b: seq<byte>, w: byte, h: byte, p: Place, q: Place)
    requires b != [] && !RawBit(b[0]) && ParseTile(d, b, w, h).Complete? && q == Peeked(d, p, b)
    ensures var t := ParseTile(d, b, w, h).tile;
            && Carry(q.bg, q.fg) == CarryInto(Carry(p.bg, p.fg), t) == CarryInto(Carry(q.bg, q.fg), t)
  {
    hide SubrectsFrom, InBuffer;
  }

  lemma {:induction false} PixelsFromAt(d: depth, b: seq<byte>, i: nat, n: nat, k: nat)
    requires i + Scaled(d, n) <= |b| && k < n
    ensures i + Scaled(d, k) + d <= |b| && PixelsFrom(d, b, i, n)[k] == PixelFrom(d, b, i + Scaled(d, k))
    decreases n
  {
    hide PixelFrom;
    if k > 0 {
      PixelsFromAt(d, b, i + d, n - 1, k - 1);
    }
  }

  lemma {:induction false} PixelsShifted(d: depth, a: seq<byte>, from: nat, to: nat, i: nat, n: nat)
    requires from <= to <= |a| && from + i + Scaled(d, n) <= to
    ensures PixelsFrom(d, a, from + i, n) == PixelsFrom(d, a[from..to], i, n)
    decreases n
  {
    if n > 0 {
      PixelsShifted(d, a, from, to, i + d, n - 1);
    }
  }
}
