/** What a well-formed server stream does to the receiver: every field is consumed to its last
    byte, and the panel ends up showing the picture the stream stands for. */
module Picture {
  import opened Bytes
  import opened Panels
  import opened Hextile
  import opened Receiver

  // ----- Raw pixels -----

  lemma {:induction false} RunDrawRaw(s: Rx, px: seq<word>, rest: seq<byte>)
    requires s.phase == ProcessingUpdate && s.rect == HextileRect && s.tile == DrawRaw
    requires s.pixelCount == |px| < 0x8000_0000
    ensures Run(s, EncodePixels(2, px) + rest) ==
            Run(s.(pixelCount := 0, tile := TileDone, panel := PutAll(s.panel, px)), rest)
    decreases |px|
  {
    if px == [] {
      assert EncodePixels(2, px) + rest == rest;
    } else {
      var b := EncodePixels(2, px) + rest;
      assert b[..2] == EncodePixel(2, px[0]) && b[2..] == EncodePixels(2, px[1..]) + rest;
      var u := s.(pixelCount := s.pixelCount - 1, panel := Put(s.panel, px[0]));
      assert Step(s, b) == Move(u, 2) by {
        assert b[0] == EncodePixel(2, px[0])[0] && b[1] == EncodePixel(2, px[0])[1];
      }
      RunDrawRaw(u, px[1..], rest);
    }
  }

  /** Dropped pixels leave nothing but their count. */
  lemma {:induction false} RunDrop(s: Rx, data: seq<byte>, rest: seq<byte>)
    requires s.phase == ProcessingUpdate
    requires s.rect == OutBounds || (s.rect == HextileRect && s.tile == DropRaw)
    requires |data| == 2 * s.pixelCount && s.pixelCount < 0x8000_0000
    ensures Run(s, data + rest) ==
            Run(if s.rect == OutBounds then s.(pixelCount := 0, rect := RectIdle)
                else s.(pixelCount := 0, tile := TileDone), rest)
    decreases |data|
  {
    if data == [] {
      assert data + rest == rest;
    } else {
      assert (data + rest)[2..] == data[2..] + rest;
      assert Step(s, data + rest) == Move(s.(pixelCount := s.pixelCount - 1), 2);
      RunDrop(s.(pixelCount := s.pixelCount - 1), data[2..], rest);
    }
  }

  // ----- Subrectangles -----

  /** The tile buffer after a list of subrectangles, in order. */
  function PaintedAll(base: tilebuf, fg: word, coloured: bool, subs: seq<Subrect>): tilebuf
    requires ValidSubrects(2, subs)
  {
    if subs == [] then base
    else
      var top := subs[|subs| - 1];
      Painted(PaintedAll(base, fg, coloured, subs[..|subs| - 1]),
              top.x, top.y, top.x + top.w - 1, top.y + top.h - 1, if coloured then top.colour else fg)
  }

  lemma PaintedCell(buf: tilebuf, x0: nat, y0: nat, x1: nat, y1: nat, c: word, i: nat, j: nat)
    requires i < 16 && j < 16
    ensures Cell(Painted(buf, x0, y0, x1, y1, c), i, j) ==
            if x0 <= i <= x1 && y0 <= j <= y1 then c else Cell(buf, i, j)
  {
    var k := j * 32 + 2 * i;
    assert k / 32 == j && (k % 32) / 2 == i && k % 2 == 0;
    assert (k + 1) / 32 == j && ((k + 1) % 32) / 2 == i && (k + 1) % 2 == 1;
  }

  /** Painting in order is the same as asking which subrectangle covers a cell last. */
  lemma {:induction false} PaintedAllCell(bg: word, fg: word, coloured: bool, subs: seq<Subrect>, i: nat, j: nat)
    requires ValidSubrects(2, subs) && i < 16 && j < 16
    ensures Cell(PaintedAll(Filled(bg), fg, coloured, subs), i, j) == SubrectColour(bg, fg, coloured, subs, i, j)
    decreases |subs|
  {
    hide Painted;
    if subs != [] {
      var top := subs[|subs| - 1];
      var below := PaintedAll(Filled(bg), fg, coloured, subs[..|subs| - 1]);
      var c := if coloured then top.colour else fg;
      assert Cell(below, i, j) == SubrectColour(bg, fg, coloured, subs[..|subs| - 1], i, j) by {
          PaintedAllCell(bg, fg, coloured, subs[..|subs| - 1], i, j);
      }
      assert Cell(Painted(below, top.x, top.y, top.x + top.w - 1, top.y + top.h - 1, c), i, j) ==
             if Covers(top, i, j) then c else Cell(below, i, j) by {
        PaintedCell(below, top.x, top.y, top.x + top.w - 1, top.y + top.h - 1, c, i, j);
      }
    }
  }

  /** The extract macros undo the packing macros. */
  lemma PackedNibbles(q: Subrect)
    requires ValidSubrect(2, q)
    ensures PackXY(q.x, q.y) / 16 == q.x && PackXY(q.x, q.y) % 16 == q.y
    ensures PackWH(q.w, q.h) / 16 == q.w - 1 && PackWH(q.w, q.h) % 16 == q.h - 1
  {
  }

  lemma EncodedSubrect(s: Rx, q: Subrect, rest: seq<byte>)
    requires ValidSubrect(2, q) && s.numSubrects > 0
    ensures var c := ColouredBit(s.sub);
            StepSubrect(s, EncodeSubrect(2, c, q) + rest) ==
            Move(s.(buf := Painted(s.buf, q.x, q.y, q.x + q.w - 1, q.y + q.h - 1, if c then q.colour else s.foreground),
                    numSubrects := s.numSubrects - 1), SubrectSize(2, c))
  {
    var e := EncodeSubrect(2, ColouredBit(s.sub), q);
    var b := e + rest;
    var n := if ColouredBit(s.sub) then 2 else 0;
    PackedNibbles(q);
    assert b[n] == e[n] == PackXY(q.x, q.y) && b[n + 1] == e[n + 1] == PackWH(q.w, q.h);
    if ColouredBit(s.sub) {
      assert Word(b[1], b[0]) == q.colour by {
        assert e[0] == EncodePixel(2, q.colour)[0] && e[1] == EncodePixel(2, q.colour)[1];
      }
    }
  }

  lemma {:induction false} RunSubrects(s: Rx, base: tilebuf, subs: seq<Subrect>, k: nat, rest: seq<byte>)
    requires s.phase == ProcessingUpdate && s.rect == HextileRect && s.tile == FillBuffer
    requires ValidSubrects(2, subs) && k <= |subs| && s.numSubrects == |subs| - k
    requires s.buf == PaintedAll(base, s.foreground, ColouredBit(s.sub), subs[..k])
    ensures Run(s, EncodeSubrects(2, ColouredBit(s.sub), subs[k..]) + rest) ==
            Run(s.(numSubrects := 0, tile := DrawTile,
                   buf := PaintedAll(base, s.foreground, ColouredBit(s.sub), subs)), rest)
    decreases |subs| - k
  {
    var c := ColouredBit(s.sub);
    var b := EncodeSubrects(2, c, subs[k..]) + rest;
    if k == |subs| {
      assert b == rest && subs[..k] == subs;
    } else {
      var tail := EncodeSubrects(2, c, subs[k + 1..]) + rest;
      assert subs[k..][1..] == subs[k + 1..];
      assert b == EncodeSubrect(2, c, subs[k]) + tail;
      EncodedSubrect(s, subs[k], tail);
      assert b[SubrectSize(2, c)..] == tail;
      assert subs[..k + 1][..k] == subs[..k];
      RunSubrects(Step(s, b).next, base, subs, k + 1, rest);
    }
  }

  // ----- One tile -----

  /** The header test of the source never asks for a byte beyond the tile. */
  predicate Prompt(t: Tile)
  {
    match t
    case Raw(sub, pixels) => HeaderBytes(sub) <= 2 * |pixels|
    case Coded(sub, _, _, subrects) => SubrectsBit(sub) ==> subrects != []
  }

  function Here(s: Rx): Area
  {
    Area(s.tileX, s.tileY, s.tileW, s.tileH)
  }

  function CarryOf(s: Rx): Carry
  {
    Carry(s.background, s.foreground)
  }

  /** Ready for the subencoding byte of a tile of a legal size and place. */
  predicate AtHeader(s: Rx)
  {
    && s.phase == ProcessingUpdate && s.rect == HextileRect && s.tile == ParseHeader
    && 0 < s.tileW <= 16 && 0 < s.tileH <= 16
    && s.tileX + s.tileW < 0x1_0000 && s.tileY + s.tileH < 0x1_0000
  }

  function AfterTile(s: Rx, t: Tile): Rx
    requires AtHeader(s) && ValidTile(2, t, s.tileW, s.tileH)
  {
    var done := s.(sub := t.sub, tile := TileDone,
                   panel := PaintTile(s.panel, Here(s), TilePixels(CarryOf(s), t, s.tileW, s.tileH)));
    match t
    case Raw(_, _) => done.(pixelCount := 0)
    case Coded(_, _, _, subs) =>
      var now := CarryInto(CarryOf(s), t);
      done.(background := now.bg, foreground := now.fg, numSubrects := 0,
            buf := PaintedAll(Filled(now.bg), now.fg, ColouredBit(t.sub), subs))
  }

  lemma RunRawTile(s: Rx, t: Tile, rest: seq<byte>)
    requires AtHeader(s) && ValidTile(2, t, s.tileW, s.tileH) && t.Raw?
    requires HeaderBytes(t.sub) <= |EncodeBody(2, t) + rest|
    ensures Run(s, EncodeTile(2, t, s.tileW, s.tileH) + rest) == Run(AfterTile(s, t), rest)
  {
    var px := EncodePixels(2, t.pixels);
    Regroup([], [t.sub], px, rest);
    DropPrefix([t.sub], px + rest);
    var b := [t.sub] + (px + rest);
    assert EncodeTile(2, t, s.tileW, s.tileH) + rest == b by {
      assert [t.sub] + px == EncodeTile(2, t, s.tileW, s.tileH);
    }
    CellsBound(s.tileW, s.tileH);
    var u := s.(sub := t.sub, pixelCount := TileSize(s));
    if OnScreen(s) {
      var v := u.(tile := DrawRaw, panel := SetWindow(s.panel, s.tileX, s.tileY, s.tileW, s.tileH));
      RunMove(s, b, v, 1);
      RunDrawRaw(v, t.pixels, rest);
    } else {
      RunMove(s, b, u.(tile := DropRaw), 1);
      RunDrop(u.(tile := DropRaw), px, rest);
    }
  }

  /** The fields behind the subencoding byte are read where they were written. */
  lemma EncodedHeader(s: Rx, t: Tile, rest: seq<byte>)
    requires t.Coded? && !RawBit(t.sub) && |t.subrects| <= 255 && s.sub == t.sub
    requires HeaderBytes(t.sub) <= |EncodeFields(2, t) + rest|
    ensures var now := CarryInto(CarryOf(s), t);
            StepHeader(s, [t.sub] + EncodeFields(2, t) + rest) ==
            Move(s.(background := now.bg, foreground := now.fg, buf := Filled(now.bg), tile := FillBuffer,
                    numSubrects := if SubrectsBit(t.sub) then |t.subrects| else 0),
                 1 + FieldsSize(2, t.sub))
  {
    var bgs := if BackgroundBit(t.sub) then EncodePixel(2, t.bg) else [];
    var fgs := if ForegroundBit(t.sub) then EncodePixel(2, t.fg) else [];
    var cnt: seq<byte> := if SubrectsBit(t.sub) then [|t.subrects|] else [];
    var b := [t.sub] + EncodeFields(2, t) + rest;
    assert b == [t.sub] + bgs + fgs + cnt + rest;
    var f := 1 + |bgs|;
    var n := f + |fgs|;
    if BackgroundBit(t.sub) {
      assert b[1] == bgs[0] && b[2] == bgs[1];
      assert Word(b[2], b[1]) == t.bg;
    }
    if ForegroundBit(t.sub) {
      assert b[f] == fgs[0] && b[f + 1] == fgs[1];
      assert Word(b[f + 1], b[f]) == t.fg;
    }
    if SubrectsBit(t.sub) {
      assert b[n] == cnt[0];
    }
  }

  lemma RunDrawTile(s: Rx, c: Carry, t: Tile, rest: seq<byte>)
    requires AtHeader(s.(tile := ParseHeader)) && s.tile == DrawTile && t.Coded?
    requires ValidTile(2, t, s.tileW, s.tileH)
    requires var now := CarryInto(c, t);
             s.buf == PaintedAll(Filled(now.bg), now.fg, ColouredBit(t.sub), t.subrects)
    ensures Run(s, rest) ==
            Run(s.(tile := TileDone, panel := PaintTile(s.panel, Here(s), TilePixels(c, t, s.tileW, s.tileH))), rest)
  {
    var now := CarryInto(c, t);
    forall i: nat, j: nat | i < s.tileW && j < s.tileH
      ensures Cell(s.buf, i, j) == SubrectColour(now.bg, now.fg, ColouredBit(t.sub), t.subrects, i, j)
    {
      PaintedAllCell(now.bg, now.fg, ColouredBit(t.sub), t.subrects, i, j);
    }
    CellsAreColours(s.buf, c, t, s.tileW, s.tileH);
    assert rest[0..] == rest;
  }

  /** The state behind the header of a coded tile. */
  function HeaderRead(s: Rx, t: Tile): Rx
    requires t.Coded? && |t.subrects| <= 255
  {
    var now := CarryInto(CarryOf(s), t);
    s.(sub := t.sub, background := now.bg, foreground := now.fg, buf := Filled(now.bg), tile := FillBuffer,
       numSubrects := if SubrectsBit(t.sub) then |t.subrects| else 0)
  }

  lemma RunHeader(s: Rx, t: Tile, rest: seq<byte>)
    requires AtHeader(s) && t.Coded? && !RawBit(t.sub) && |t.subrects| <= 255
    requires HeaderBytes(t.sub) <= |EncodeFields(2, t) + rest|
    ensures Run(s, [t.sub] + EncodeFields(2, t) + rest) == Run(HeaderRead(s, t), rest)
  {
    var b := [t.sub] + EncodeFields(2, t) + rest;
    EncodedHeader(s.(sub := t.sub), t, rest);
    assert b[|[t.sub] + EncodeFields(2, t)|..] == rest;
    RunMove(s, b, HeaderRead(s, t), |[t.sub] + EncodeFields(2, t)|);
  }

  lemma RunCodedTile(s: Rx, t: Tile, rest: seq<byte>)
    requires AtHeader(s) && ValidTile(2, t, s.tileW, s.tileH) && t.Coded?
    requires HeaderBytes(t.sub) <= |EncodeBody(2, t) + rest|
    ensures Run(s, EncodeTile(2, t, s.tileW, s.tileH) + rest) == Run(AfterTile(s, t), rest)
  {
    var c := ColouredBit(t.sub);
    var tail := EncodeSubrects(2, c, t.subrects) + rest;
    Regroup([t.sub], EncodeFields(2, t), EncodeSubrects(2, c, t.subrects), rest);
    RunHeader(s, t, tail);
    RunFields(HeaderRead(s, t), t, rest);
    var u := HeaderRead(s, t);
    var v := u.(numSubrects := 0, tile := DrawTile, buf := PaintedAll(u.buf, u.foreground, c, t.subrects));
    RunDrawTile(v, CarryOf(s), t, rest);
  }

  lemma RunFields(u: Rx, t: Tile, rest: seq<byte>)
    requires AtHeader(u.(tile := ParseHeader)) && u.tile == FillBuffer && u.sub == t.sub
    requires ValidTile(2, t, u.tileW, u.tileH) && t.Coded? && u.numSubrects == |t.subrects|
    ensures var c := ColouredBit(t.sub);
            Run(u, EncodeSubrects(2, c, t.subrects) + rest) ==
            Run(u.(numSubrects := 0, tile := DrawTile, buf := PaintedAll(u.buf, u.foreground, c, t.subrects)), rest)
  {
    assert t.subrects[..0] == [] && t.subrects[0..] == t.subrects;
    RunSubrects(u, u.buf, t.subrects, 0, rest);
  }

  /** One encoded tile, raw or coded, on screen or off it, is consumed exactly and painted as the
      standard says, provided the header test finds as many bytes as it asks for. */
  lemma RunTile(s: Rx, t: Tile, rest: seq<byte>)
    requires AtHeader(s) && ValidTile(2, t, s.tileW, s.tileH)
    requires HeaderBytes(t.sub) <= |EncodeBody(2, t) + rest|
    ensures Run(s, EncodeTile(2, t, s.tileW, s.tileH) + rest) == Run(AfterTile(s, t), rest)
  {
    if t.Raw? { RunRawTile(s, t, rest); } else { RunCodedTile(s, t, rest); }
  }

  lemma PromptBody(s: Rx, t: Tile)
    requires AtHeader(s) && ValidTile(2, t, s.tileW, s.tileH)
    ensures Prompt(t) <==> HeaderBytes(t.sub) <= |EncodeBody(2, t)|
  {
    if t.Coded? && t.subrects != [] {
      assert |EncodeSubrects(2, ColouredBit(t.sub), t.subrects)| >= 2 by {
        assert |EncodeSubrect(2, ColouredBit(t.sub), t.subrects[0])| >= 2;
      }
    }
  }

  lemma StuckAtHeader(s: Rx, b: seq<byte>)
    requires AtHeader(s) && b != [] && |b| - 1 < HeaderBytes(b[0])
    ensures Run(s, b) == Quiet(s.(sub := b[0]), b)
  {
  }

  /** With no data, a finished tile leaves none and draws nothing more. */
  lemma DoneDrains(s: Rx)
    requires s.phase == ProcessingUpdate && s.rect == HextileRect && s.tile == TileDone
    ensures Run(s, []).Quiet? && Run(s, []).rest == [] && Run(s, []).st.panel == s.panel
  {
    var t := Step(s, []).next;
    if Step(s, []).Move? {
      assert Run(s, []) == Run(t, [][0..]);
    } else if t.rectangleCount == 0 {
      assert Run(t, []) == Run(t.(phase := ConnectedRefresh), []);
    }
  }

  /** Exactly when a tile is drawn as soon as its last byte is there: unless it announces
      subrectangles and has none, or is a raw tile smaller than the fields it pretends to have. */
  lemma TileNeedsNoMore(s: Rx, t: Tile)
    requires AtHeader(s) && ValidTile(2, t, s.tileW, s.tileH)
    ensures Run(s, EncodeTile(2, t, s.tileW, s.tileH)) == Run(AfterTile(s, t), []) <==> Prompt(t)
    ensures !Prompt(t) ==>
              Run(s, EncodeTile(2, t, s.tileW, s.tileH)) ==
              Quiet(s.(sub := t.sub), EncodeTile(2, t, s.tileW, s.tileH))
  {
    hide Run, Prompt, EncodeBody, HeaderBytes, AfterTile;
    var b := EncodeTile(2, t, s.tileW, s.tileH);
    var body := EncodeBody(2, t);
    PromptBody(s, t);
    assert b == [t.sub] + body && b + [] == b && body + [] == body;
    if Prompt(t) {
      RunTile(s, t, []);
    } else {
      StuckAtHeader(s, b);
      AfterTileDone(s, t);
      DoneDrains(AfterTile(s, t));
    }
  }

  lemma AfterTileDone(s: Rx, t: Tile)
    requires AtHeader(s) && ValidTile(2, t, s.tileW, s.tileH)
    ensures var u := AfterTile(s, t); u.phase == ProcessingUpdate && u.rect == HextileRect && u.tile == TileDone
  {
  }
}
