/** Sessions behind a reset: which streams show no trace of the connection before. */
module Reconnect {
  import opened Bytes
  import opened Panels
  import opened Hextile
  import opened Receiver
  import opened Picture
  import opened Streams
  import opened Sender
  import opened MainLoop
  import opened Reset

  // ----- A condition on tiles -----

  /** What has been sent once a tile has. */
  function SentBy(k: Sent, t: Tile): Sent
  {
    if t.Coded? then Sent(k.bg || BackgroundBit(t.sub), k.fg || ForegroundBit(t.sub)) else k
  }

  /** A tile that is not raw relies on a background, and one with subrectangles in the foreground
      colour relies on a foreground. */
  predicate TileSends(k: Sent, t: Tile)
  {
    (t.Coded? ==> SentBy(k, t).bg) && (UsesForeground(t) ==> SentBy(k, t).fg)
  }

  /** What has been sent once the tiles have, unless one of them relies on a colour not sent. */
  function SentByTiles(k: Sent, tiles: seq<Tile>): Option<Sent>
    decreases |tiles|
  {
    if tiles == [] then Some(k)
    else if TileSends(k, tiles[0]) then SentByTiles(SentBy(k, tiles[0]), tiles[1..])
    else None
  }

  function SentByRectangle(k: Sent, q: Rectangle): Option<Sent>
  {
    if q.HextileRectangle? then SentByTiles(k, q.tiles) else Some(k)
  }

  function SentByRectangles(k: Sent, qs: seq<Rectangle>): Option<Sent>
    decreases |qs|
  {
    if qs == [] then Some(k)
    else
      match SentByRectangle(k, qs[0])
      case None => None
      case Some(m) => SentByRectangles(m, qs[1..])
  }

  function SentByUpdates(k: Sent, us: seq<Update>): Option<Sent>
    decreases |us|
  {
    if us == [] then Some(k)
    else
      match SentByRectangles(k, us[0].rectangles)
      case None => None
      case Some(m) => SentByUpdates(m, us[1..])
  }

  /** Every colour is sent before a tile relies on it. */
  predicate SendsColours(x: Session)
  {
    SentByUpdates(Sent(false, false), x.updates).Some?
  }

  // ----- The same on the run -----

  /** What has been sent at the end of the run, unless a step uses a colour not sent. */
  function SentInRun(s: Rx, b: seq<byte>, k: Sent): Option<Sent>
    decreases |b|, Rank(s)
  {
    if !Specified(s, b, k) then None
    else
      match Step(s, b)
      case Move(t, used) => SentInRun(t, b[used..], SentAfter(s, b, k))
      case Pause(t) => SentInRun(t, b, k)
      case _ => Some(k)
  }

  lemma SentMove(s: Rx, b: seq<byte>, t: Rx, used: nat, k: Sent)
    requires Step(s, b) == Move(t, used)
    ensures SentInRun(s, b, k) ==
            if Specified(s, b, k) then SentInRun(t, b[used..], SentAfter(s, b, k)) else None
  {
  }

  lemma SpecifiedStable(s: Rx, a: seq<byte>, b: seq<byte>, k: Sent)
    ensures if Step(s, a).Wait? then Specified(s, a, k) && SentAfter(s, a, k) == k
            else Specified(s, a + b, k) == Specified(s, a, k) && SentAfter(s, a + b, k) == SentAfter(s, a, k)
    ensures Step(s, a).Wait? ==>
              Specified(Step(s, a).next, a + b, k) == Specified(s, a + b, k) &&
              SentAfter(Step(s, a).next, a + b, k) == SentAfter(s, a + b, k)
  {
  }

  /** Data may arrive in two portions. */
  lemma {:induction false} SentSplit(s: Rx, a: seq<byte>, b: seq<byte>, k: Sent)
    ensures SentInRun(s, a + b, k) ==
            match SentInRun(s, a, k)
            case None => None
            case Some(m) =>
              match Run(s, a)
              case Quiet(t, rest) => SentInRun(t, rest + b, m)
              case Fault(_) => Some(m)
    decreases |a|, Rank(s)
  {
    hide Step, Specified, SentAfter, Rank;
    StepStable(s, a, b);
    SpecifiedStable(s, a, b, k);
    match Step(s, a) {
      case Move(t, used) =>
        if Specified(s, a, k) {
          assert (a + b)[used..] == a[used..] + b;
          SentSplit(t, a[used..], b, SentAfter(s, a, k));
        }
      case Pause(t) =>
        SentSplit(t, a, b, k);
      case Wait(t) =>
        WaitHarmless(s, a, b);
      case _ =>
    }
  }

  /** A call on data of which the rest is yet to come. */
  lemma {:induction false} CallSends(s: Rx, b: seq<byte>, later: seq<byte>, send: SendState, k: Sent)
    requires SentInRun(s, b + later, k).Some? && Run(s, b + later).Quiet?
    ensures CallSpecified(s, b, k)
    ensures var e := Call(s, b, send); SentInRun(e.st, e.rest + later, SentInCall(s, b, k)).Some?
    decreases |b|, Rank(s)
  {
    hide Step, Specified, SentAfter, Rank;
    StepStable(s, b, later);
    SpecifiedStable(s, b, later, k);
    match Step(s, b) {
      case Move(t, used) =>
        assert (b + later)[used..] == b[used..] + later;
        CallSends(t, b[used..], later, SendAfter(s, t, send), SentAfter(s, b, k));
      case Wait(t) =>
        WaitHarmless(s, b, later);
      case _ =>
    }
  }

  /** A schedule whose bytes send their colours in time does so in every turn. */
  lemma {:induction false} StreamSends(l: Loop, events: seq<Event>, k: Sent)
    requires |l.held| <= VNC_BUFFER_MAX
    requires Run(l.rx, l.held + Delivered(l, events)).Quiet?
    requires SentInRun(l.rx, l.held + Delivered(l, events), k).Some?
    ensures StreamSpecified(l, events, k)
    decreases |events|
  {
    hide Run, Call, SentInRun, CallSpecified, SentInCall;
    if events != [] {
      var e := events[0];
      var t := Iterate(l, Ready(e.data), e.pressed);
      var now := e.data[..Taken(l, e.data)];
      TurnFits(l, Ready(e.data), e.pressed);
      var later := if t.Turn? then Delivered(t.next, events[1..]) else [];
      assert l.held + (now + later) == (l.held + now) + later;
      CallSends(l.rx, l.held + now, later, l.send, k);
      if t.Turn? {
        TurnInRun(l, e.data, e.pressed, later);
        StreamSends(t.next, events[1..], SentInCall(l.rx, Given(l, e), k));
      }
    }
  }

  // ----- What an encoded session sends -----

  lemma {:induction false} SentDrawRaw(s: Rx, px: seq<word>, rest: seq<byte>, k: Sent)
    requires s.phase == ProcessingUpdate && s.rect == HextileRect && s.tile == DrawRaw
    requires s.pixelCount == |px| < 0x8000_0000
    ensures SentInRun(s, EncodePixels(2, px) + rest, k) ==
            SentInRun(s.(pixelCount := 0, tile := TileDone, panel := PutAll(s.panel, px)), rest, k)
    decreases |px|
  {
    if px == [] {
      assert EncodePixels(2, px) + rest == rest;
    } else {
      var b := EncodePixels(2, px) + rest;
      assert b[..2] == EncodePixel(2, px[0]) && b[2..] == EncodePixels(2, px[1..]) + rest;
      var u := s.(pixelCount := s.pixelCount - 1, panel := Put(s.panel, px[0]));
      assert Step(s, b) == Move(u, 2) by {
        assert b[0] == EncodePixel(2, px[0])[0] && b[1] == EncodePixel(2, px[0])[1];
      }
      SentDrawRaw(u, px[1..], rest, k);
    }
  }

  lemma DropOne(s: Rx, b: seq<byte>, k: Sent)
    requires s.phase == ProcessingUpdate
    requires s.rect == OutBounds || (s.rect == HextileRect && s.tile == DropRaw)
    requires s.pixelCount < 0x8000_0000
    ensures Specified(s, b, k) && SentAfter(s, b, k) == k
    ensures s.pixelCount > 0 && |b| >= 2 ==> Step(s, b) == Move(s.(pixelCount := s.pixelCount - 1), 2)
    ensures s.pixelCount == 0 ==>
              Step(s, b) == Move(if s.rect == OutBounds then s.(rect := RectIdle) else s.(tile := TileDone), 0)
  {
  }

  lemma {:induction false} SentDrop(s: Rx, data: seq<byte>, rest: seq<byte>, k: Sent)
    requires s.phase == ProcessingUpdate
    requires s.rect == OutBounds || (s.rect == HextileRect && s.tile == DropRaw)
    requires |data| == 2 * s.pixelCount && s.pixelCount < 0x8000_0000
    ensures SentInRun(s, data + rest, k) ==
            SentInRun(if s.rect == OutBounds then s.(pixelCount := 0, rect := RectIdle)
                      else s.(pixelCount := 0, tile := TileDone), rest, k)
    decreases |data|
  {
    hide Step, Specified, SentAfter, SentInRun;
    var b := data + rest;
    DropOne(s, b, k);
    if data == [] {
      assert b == rest && b[0..] == b;
      SentMove(s, b, Step(s, b).next, 0, k);
    } else {
      assert b[2..] == data[2..] + rest;
      SentMove(s, b, Step(s, b).next, 2, k);
      SentDrop(s.(pixelCount := s.pixelCount - 1), data[2..], rest, k);
    }
  }

  lemma SentSubrect(s: Rx, q: Subrect, rest: seq<byte>, k: Sent)
    requires s.phase == ProcessingUpdate && s.rect == HextileRect && s.tile == FillBuffer
    requires ValidSubrect(2, q) && s.numSubrects > 0
    ensures var c := ColouredBit(s.sub);
            SentInRun(s, EncodeSubrect(2, c, q) + rest, k) ==
            if !c && !k.fg then None
            else SentInRun(s.(buf := Painted(s.buf, q.x, q.y, q.x + q.w - 1, q.y + q.h - 1,
                                             if c then q.colour else s.foreground),
                              numSubrects := s.numSubrects - 1), rest, k)
  {
    hide StepSubrect, Painted, EncodeSubrect;
    var e := EncodeSubrect(2, ColouredBit(s.sub), q);
    EncodedSubrect(s, q, rest);
    DropPrefix(e, rest);
  }

  lemma {:induction false} SentSubrects(s: Rx, base: tilebuf, subs: seq<Subrect>, i: nat, rest: seq<byte>, k: Sent)
    requires s.phase == ProcessingUpdate && s.rect == HextileRect && s.tile == FillBuffer
    requires ValidSubrects(2, subs) && i <= |subs| && s.numSubrects == |subs| - i
    requires s.buf == PaintedAll(base, s.foreground, ColouredBit(s.sub), subs[..i])
    ensures SentInRun(s, EncodeSubrects(2, ColouredBit(s.sub), subs[i..]) + rest, k) ==
            if i < |subs| && !ColouredBit(s.sub) && !k.fg then None
            else SentInRun(s.(numSubrects := 0, tile := DrawTile,
                              buf := PaintedAll(base, s.foreground, ColouredBit(s.sub), subs)), rest, k)
    decreases |subs| - i
  {
    var c := ColouredBit(s.sub);
    if i == |subs| {
      assert EncodeSubrects(2, c, subs[i..]) + rest == rest && subs[..i] == subs;
      SentFilled(s, rest, k);
    } else {
      hide SentInRun, Painted, PaintedAll, EncodeSubrect, EncodeSubrects, ColouredBit;
      var top, tail := subs[i], EncodeSubrects(2, c, subs[i + 1..]) + rest;
      FirstSubrect(c, subs, i, rest);
      SentSubrect(s, top, tail, k);
      OneMorePainted(base, s.foreground, c, subs, i);
      var t := s.(buf := Painted(s.buf, top.x, top.y, top.x + top.w - 1, top.y + top.h - 1,
                                 if c then top.colour else s.foreground),
                  numSubrects := s.numSubrects - 1);
      SentSubrects(t, base, subs, i + 1, rest, k);
    }
  }

  lemma FirstSubrect(c: bool, subs: seq<Subrect>, i: nat, rest: seq<byte>)
    requires ValidSubrects(2, subs) && i < |subs|
    ensures EncodeSubrects(2, c, subs[i..]) + rest ==
            EncodeSubrect(2, c, subs[i]) + (EncodeSubrects(2, c, subs[i + 1..]) + rest)
  {
    hide EncodeSubrect;
    assert subs[i..][1..] == subs[i + 1..];
    Regroup([], EncodeSubrect(2, c, subs[i]), EncodeSubrects(2, c, subs[i + 1..]), rest);
  }

  lemma OneMorePainted(base: tilebuf, fg: word, c: bool, subs: seq<Subrect>, i: nat)
    requires ValidSubrects(2, subs) && i < |subs|
    ensures var top := subs[i];
            PaintedAll(base, fg, c, subs[..i + 1]) ==
            Painted(PaintedAll(base, fg, c, subs[..i]), top.x, top.y, top.x + top.w - 1, top.y + top.h - 1,
                    if c then top.colour else fg)
  {
    hide Painted;
    assert subs[..i + 1][..i] == subs[..i];
  }

  lemma SentFilled(s: Rx, rest: seq<byte>, k: Sent)
    requires s.phase == ProcessingUpdate && s.rect == HextileRect && s.tile == FillBuffer && s.numSubrects == 0
    ensures SentInRun(s, rest, k) == SentInRun(s.(tile := DrawTile), rest, k)
  {
    assert rest[0..] == rest;
  }

  lemma SentRawTile(s: Rx, t: Tile, rest: seq<byte>, k: Sent)
    requires AtHeader(s) && ValidTile(2, t, s.tileW, s.tileH) && t.Raw?
    requires HeaderBytes(t.sub) <= |EncodeBody(2, t) + rest|
    ensures SentInRun(s, EncodeTile(2, t, s.tileW, s.tileH) + rest, k) == SentInRun(AfterTile(s, t), rest, k)
  {
    var px := EncodePixels(2, t.pixels);
    Regroup([], [t.sub], px, rest);
    DropPrefix([t.sub], px + rest);
    var b := [t.sub] + (px + rest);
    assert EncodeTile(2, t, s.tileW, s.tileH) + rest == b by {
      assert [t.sub] + px == EncodeTile(2, t, s.tileW, s.tileH);
    }
    CellsBound(s.tileW, s.tileH);
    var u := s.(sub := t.sub, pixelCount := TileSize(s));
    if OnScreen(s) {
      var v := u.(tile := DrawRaw, panel := SetWindow(s.panel, s.tileX, s.tileY, s.tileW, s.tileH));
      SentMove(s, b, v, 1, k);
      SentDrawRaw(v, t.pixels, rest, k);
    } else {
      SentMove(s, b, u.(tile := DropRaw), 1, k);
      SentDrop(u.(tile := DropRaw), px, rest, k);
    }
  }

  lemma SentHeader(s: Rx, t: Tile, rest: seq<byte>, k: Sent)
    requires AtHeader(s) && t.Coded? && !RawBit(t.sub) && |t.subrects| <= 255
    requires HeaderBytes(t.sub) <= |EncodeFields(2, t) + rest|
    ensures SentInRun(s, [t.sub] + EncodeFields(2, t) + rest, k) ==
            if SentBy(k, t).bg then SentInRun(HeaderRead(s, t), rest, SentBy(k, t)) else None
  {
    var b := [t.sub] + EncodeFields(2, t) + rest;
    EncodedHeader(s.(sub := t.sub), t, rest);
    assert b[|[t.sub] + EncodeFields(2, t)|..] == rest;
    SentMove(s, b, HeaderRead(s, t), |[t.sub] + EncodeFields(2, t)|, k);
  }

  lemma SentDrawTile(s: Rx, c: Carry, t: Tile, rest: seq<byte>, k: Sent)
    requires AtHeader(s.(tile := ParseHeader)) && s.tile == DrawTile && t.Coded?
    requires ValidTile(2, t, s.tileW, s.tileH)
    requires var now := CarryInto(c, t);
             s.buf == PaintedAll(Filled(now.bg), now.fg, ColouredBit(t.sub), t.subrects)
    ensures SentInRun(s, rest, k) ==
            SentInRun(s.(tile := TileDone, panel := PaintTile(s.panel, Here(s), TilePixels(c, t, s.tileW, s.tileH))),
                      rest, k)
  {
    var now := CarryInto(c, t);
    forall i: nat, j: nat | i < s.tileW && j < s.tileH
      ensures Cell(s.buf, i, j) == SubrectColour(now.bg, now.fg, ColouredBit(t.sub), t.subrects, i, j)
    {
      PaintedAllCell(now.bg, now.fg, ColouredBit(t.sub), t.subrects, i, j);
    }
    CellsAreColours(s.buf, c, t, s.tileW, s.tileH);
    assert rest[0..] == rest;
  }

  lemma SentCodedTile(s: Rx, t: Tile, rest: seq<byte>, k: Sent)
    requires AtHeader(s) && ValidTile(2, t, s.tileW, s.tileH) && t.Coded?
    requires HeaderBytes(t.sub) <= |EncodeBody(2, t) + rest|
    ensures SentInRun(s, EncodeTile(2, t, s.tileW, s.tileH) + rest, k) ==
            if TileSends(k, t) then SentInRun(AfterTile(s, t), rest, SentBy(k, t)) else None
  {
    hide SentInRun;
    var c := ColouredBit(t.sub);
    var tail := EncodeSubrects(2, c, t.subrects) + rest;
    Regroup([t.sub], EncodeFields(2, t), EncodeSubrects(2, c, t.subrects), rest);
    SentHeader(s, t, tail, k);
    var u := HeaderRead(s, t);
    var v := u.(numSubrects := 0, tile := DrawTile, buf := PaintedAll(u.buf, u.foreground, c, t.subrects));
    assert t.subrects[..0] == [] && t.subrects[0..] == t.subrects;
    SentSubrects(u, u.buf, t.subrects, 0, rest, SentBy(k, t));
    SentDrawTile(v, CarryOf(s), t, rest, SentBy(k, t));
  }

  /** One tile: the receiver uses a colour not sent exactly if the tile relies on one. */
  lemma SentTile(s: Rx, t: Tile, rest: seq<byte>, k: Sent)
    requires AtHeader(s) && ValidTile(2, t, s.tileW, s.tileH)
    requires HeaderBytes(t.sub) <= |EncodeBody(2, t) + rest|
    ensures SentInRun(s, EncodeTile(2, t, s.tileW, s.tileH) + rest, k) ==
            if TileSends(k, t) then SentInRun(AfterTile(s, t), rest, SentBy(k, t)) else None
  {
    if t.Raw? { SentRawTile(s, t, rest, k); } else { SentCodedTile(s, t, rest, k); }
  }

  /** Between two rectangles no data means no step that uses a colour. */
  lemma SentBetween(s: Rx, k: Sent)
    requires (s.phase == ProcessingUpdate && s.rect == RectIdle) || AwaitsUpdate(s)
    ensures SentInRun(s, [], k) == Some(k)
  {
  }

  lemma NoColours(s: Rx, b: seq<byte>, k: Sent)
    requires s.rect != HextileRect || s.tile == TileInit || s.tile == TileDone
    ensures Specified(s, b, k) && SentAfter(s, b, k) == k
  {
  }

  lemma {:induction false} SentTiles(s: Rx, r: Area, tiles: seq<Tile>, col: nat, row: nat, k: Sent)
    requires AtCell(s, r, col, row) && s.tile == ParseHeader && tiles != []
    requires ValidTiles(2, r, tiles, col, row) && PromptTiles(tiles)
    ensures SentInRun(s, EncodeTiles(2, r, tiles, col, row), k) == SentByTiles(k, tiles)
    decreases |tiles|
  {
    hide SentInRun, Step, Specified, SentAfter, EncodeTile, AfterTile, TileSends, SentBy, CarryInto, TilePixels;
    var t := tiles[0];
    AfterTileStays(s, r, col, row, t);
    var u := AfterTile(s, t);
    var e := EncodeTile(2, t, s.tileW, s.tileH);
    var col1 := if col + 1 < Across(r.w) then col + 1 else 0;
    var row1 := if col + 1 < Across(r.w) then row else row + 1;
    var more := EncodeTiles(2, r, tiles[1..], col1, row1);
    assert EncodeTiles(2, r, tiles, col, row) == e + more;
    PromptBody(s, t);
    assert Prompt(t);
    SentTile(s, t, more, k);
    NextTile(u, r, col, row, more);
    NoColours(u, more, SentBy(k, t));
    if tiles[1..] == [] {
      var v := u.(tileX := u.x1, rect := RectIdle, tile := TileInit);
      assert more == [];
      SentPause(u, more, v, SentBy(k, t));
      SentBetween(v, SentBy(k, t));
    } else {
      var v := Step(u, more).next;
      SentMove(u, more, v, 0, SentBy(k, t));
      assert more[0..] == more;
      assert PromptTiles(tiles[1..]);
      SentTiles(v, r, tiles[1..], col1, row1, SentBy(k, t));
    }
  }

  lemma SentPause(s: Rx, b: seq<byte>, t: Rx, k: Sent)
    requires Step(s, b) == Pause(t) && s.tile == TileDone && s.rect == HextileRect
    ensures SentInRun(s, b, k) == SentInRun(t, b, k)
  {
  }

  lemma SentRectangleHeader(s: Rx, q: Rectangle, rest: seq<byte>, k: Sent)
    requires ValidRectangle(q) && s.phase == ProcessingUpdate && s.rect == RectIdle && s.rectangleCount > 0
    ensures SentInRun(s, EncodeRectangleHeader(q) + rest, k) == SentInRun(HeaderState(s, q), rest, k)
  {
    var e := EncodeRectangleHeader(q);
    var b := e + rest;
    DropPrefix(e, rest);
    assert b[..12] == e;
    assert b[0] == e[0] && b[1] == e[1] && b[2] == e[2] && b[3] == e[3] && b[4] == e[4] && b[5] == e[5];
    assert b[6] == e[6] && b[7] == e[7] && b[8] == e[8] && b[9] == e[9] && b[10] == e[10] && b[11] == e[11];
    SentMove(s, b, HeaderState(s, q), 12, k);
  }

  lemma SentPlain(t: Rx, q: Rectangle, k: Sent)
    requires ValidRectangle(q) && !q.HextileRectangle? && t.phase == ProcessingUpdate && t.rect != RectIdle
    requires q.RawRectangle? ==> t.rect == OutBounds && t.pixelCount == RawCount(q.area.w, q.area.h)
    requires q.CopyRectangle? ==> t.rect == CopyRect
    ensures SentInRun(t, EncodeRectangleBody(q), k) == Some(k)
  {
    hide RawCount, Specified, SentAfter;
    var body := EncodeRectangleBody(q);
    NoColours(t, body, k);
    if q.RawRectangle? {
      RawCountExact(q.area.w, q.area.h);
      SentDrop(t, q.data, [], k);
      assert q.data + [] == q.data;
      SentBetween(t.(pixelCount := 0, rect := RectIdle), k);
    } else {
      SentMove(t, body, t.(rect := RectIdle), 4, k);
      assert body[4..] == [];
      SentBetween(t.(rect := RectIdle), k);
    }
  }

  lemma SentGrid(t: Rx, q: Rectangle, k: Sent)
    requires ValidRectangle(q) && q.HextileRectangle?
    requires t.phase == ProcessingUpdate && t.rect == HextileRect && t.tile == TileInit
    requires t.x0 == q.area.x && t.x1 == q.area.x + q.area.w && t.y0 == q.area.y && t.y1 == q.area.y + q.area.h
    ensures SentInRun(t, EncodeRectangleBody(q), k) == SentByTiles(k, q.tiles)
  {
    hide Step, SentInRun, Specified, SentAfter;
    var body := EncodeRectangleBody(q);
    FirstTile(t, q.area, body);
    NoColours(t, body, k);
    SentMove(t, body, Step(t, body).next, 0, k);
    assert body[0..] == body;
    SentTiles(Step(t, body).next, q.area, q.tiles, 0, 0, k);
  }

  lemma SentRectangle(s: Rx, q: Rectangle, k: Sent)
    requires ValidRectangle(q) && s.phase == ProcessingUpdate && s.rect == RectIdle && s.rectangleCount > 0
    ensures SentInRun(s, EncodeRectangleHeader(q) + EncodeRectangleBody(q), k) == SentByRectangle(k, q)
  {
    hide SentInRun, EncodeRectangleHeader, EncodeRectangleBody, RawCount, SentByTiles;
    SentRectangleHeader(s, q, EncodeRectangleBody(q), k);
    if q.HextileRectangle? {
      SentGrid(HeaderState(s, q), q, k);
    } else {
      SentPlain(HeaderState(s, q), q, k);
    }
  }

  lemma {:induction false} SentRectangles(s: Rx, qs: seq<Rectangle>, k: Sent)
    requires ValidRectangles(qs) && s.phase == ProcessingUpdate && s.rect == RectIdle && s.rectangleCount == |qs|
    ensures SentInRun(s, EncodeRectangles(qs), k) == SentByRectangles(k, qs)
    decreases |qs|
  {
    hide SentInRun, Run;
    if qs == [] {
      SentBetween(s, k);
    } else {
      var first := EncodeRectangleHeader(qs[0]) + EncodeRectangleBody(qs[0]);
      var more := EncodeRectangles(qs[1..]);
      RunRectangle(s, qs[0]);
      SentRectangle(s, qs[0], k);
      SentSplit(s, first, more, k);
      var t := Run(s, first).st;
      assert [] + more == more;
      match SentByRectangle(k, qs[0]) {
        case None =>
        case Some(m) =>
          if qs[1..] == [] {
            SentBetween(t, m);
          } else {
            SentRectangles(t, qs[1..], m);
          }
      }
    }
  }

  lemma SentUpdate(s: Rx, u: Update, k: Sent)
    requires ValidUpdate(u) && AwaitsUpdate(s)
    ensures SentInRun(s, EncodeUpdate(u), k) == SentByRectangles(k, u.rectangles)
  {
    hide SentInRun, SentByRectangles, EncodeRectangles, ValidRectangles;
    var head := [0, u.padding] + BigEndian(|u.rectangles|);
    var body := EncodeRectangles(u.rectangles);
    var t := s.(rectangleCount := |u.rectangles|, rect := RectIdle, phase := ProcessingUpdate);
    DropPrefix(head, body);
    var b := head + body;
    assert b[0] == head[0] && b[2] == head[2] && b[3] == head[3];
    SentMove(s, b, t, 4, k);
    SentRectangles(t, u.rectangles, k);
  }

  lemma {:induction false} SentUpdates(s: Rx, us: seq<Update>, k: Sent)
    requires AwaitsUpdate(s) && ValidUpdates(us)
    ensures SentInRun(s, EncodeUpdates(us), k) == SentByUpdates(k, us)
    decreases |us|
  {
    hide SentInRun, Run;
    if us == [] {
      SentBetween(s, k);
    } else {
      var first, more := EncodeUpdate(us[0]), EncodeUpdates(us[1..]);
      RunUpdate(s, us[0], more);
      SentUpdate(s, us[0], k);
      SentSplit(s, first, more, k);
      assert [] + more == more;
      match SentByRectangles(k, us[0].rectangles) {
        case None =>
        case Some(m) => SentUpdates(Run(s, first).st, us[1..], m);
      }
    }
  }

  lemma {:induction false} NeverBack(s: Rx, b: seq<byte>)
    requires s.phase == ProcessingUpdate || s.phase == ConnectedRefresh
    ensures Run(s, b).Quiet? ==> Run(s, b).st.phase != WaitUpdate
    decreases |b|, Rank(s)
  {
    hide Step, Rank;
    UpdatePhases(s, b);
    match Step(s, b)
    case Move(t, used) => NeverBack(t, b[used..]);
    case Pause(t) => NeverBack(t, b);
    case _ =>
  }

  lemma UpdatePhases(s: Rx, b: seq<byte>)
    requires s.phase == ProcessingUpdate || s.phase == ConnectedRefresh
    ensures var o := Step(s, b);
            o.Move? || o.Pause? || o.Wait? ==> o.next.phase == ProcessingUpdate || o.next.phase == ConnectedRefresh
  {
    hide StepRect;
    if s.phase == ProcessingUpdate {
      InsideUpdate(s, b);
    }
  }

  /** A run that is still waiting for its first update has used no colour. */
  lemma {:induction false} NoUpdateYet(s: Rx, b: seq<byte>, k: Sent)
    requires Run(s, b).Quiet? && Run(s, b).st.phase == WaitUpdate
    ensures SentInRun(s, b, k) == Some(k)
    decreases |b|, Rank(s)
  {
    hide Step, Rank;
    if s.phase == ProcessingUpdate || s.phase == ConnectedRefresh {
      NeverBack(s, b);
      assert false;
    }
    match Step(s, b)
    case Move(t, used) => NoUpdateYet(t, b[used..], k);
    case Pause(t) => NoUpdateYet(t, b, k);
    case _ =>
  }

  /** A session uses a colour it has not sent exactly if one of its tiles relies on one. */
  lemma SentSession(s: Rx, x: Session, k: Sent)
    requires ValidSession(x) && s.phase == NotConnected
    ensures SentInRun(s, EncodeSession(x), k) == SentByUpdates(k, x.updates)
  {
    hide SentInRun, Run;
    var greeting, updates := EncodeGreeting(x.greeting), EncodeUpdates(x.updates);
    RunGreeting(s, x.greeting);
    NoUpdateYet(s, greeting, k);
    SentSplit(s, greeting, updates, k);
    assert [] + updates == updates;
    SentUpdates(Run(s, greeting).st, x.updates, k);
  }

  lemma SessionSpecified(l: Loop, x: Session, events: seq<Event>)
    requires l.held == [] && l.rx.phase == NotConnected && ValidSession(x) && SendsColours(x)
    requires Delivered(l, events) <= EncodeSession(x)
    ensures StreamSpecified(l, events, Sent(false, false))
  {
    hide Run, SentInRun, Delivered, EncodeSession, StreamSpecified;
    var d, e := Delivered(l, events), EncodeSession(x);
    RunSession(l.rx, x);
    SentSession(l.rx, x, Sent(false, false));
    assert d + e[|d|..] == e && l.held + d == d;
    PrefixRuns(l.rx, d, e[|d|..]);
    SentSplit(l.rx, d, e[|d|..], Sent(false, false));
    StreamSends(l, events, Sent(false, false));
  }

  /** From any state at all, a disconnect followed by a session that sends its colours before its
      tiles rely on them: on every schedule, and turn by turn, it sends the same messages and shows
      the same panel as it would after power-on. */
  lemma SessionAfterReset(l: Loop, x: Session, events: seq<Event>)
    requires |l.held| <= VNC_BUFFER_MAX && ValidSession(x) && SendsColours(x)
    requires Delivered(Iterate(l, Disconnect, NoKey).next, events) <= EncodeSession(x)
    ensures Sights(Iterate(l, Disconnect, NoKey).next, events) == Sights(Boot(l.rx.panel, l.key), events)
  {
    SessionSpecified(Iterate(l, Disconnect, NoKey).next, x, events);
    ResetIsBoot(l, events);
  }

  // ----- Exactly what shows -----

  /** The tile shows no colour that has not been sent. */
  ghost predicate TileShows(k: Sent, t: Tile, w: byte, h: byte)
  {
    (ShowsBackground(t, w, h) ==> SentBy(k, t).bg) && (ShowsForeground(t, w, h) ==> SentBy(k, t).fg)
  }

  /** Two carries that agree on what has been sent, and on nothing else. */
  predicate Known(c: Carry, d: Carry, k: Sent)
  {
    (k.bg ==> c.bg == d.bg) && (k.fg ==> c.fg == d.fg)
  }

  predicate OnlyKnown(c: Carry, d: Carry, k: Sent)
  {
    (k.bg <==> c.bg == d.bg) && (k.fg <==> c.fg == d.fg)
  }

  lemma KnownInto(c: Carry, d: Carry, k: Sent, t: Tile)
    ensures Known(c, d, k) ==> Known(CarryInto(c, t), CarryInto(d, t), SentBy(k, t))
    ensures OnlyKnown(c, d, k) ==> OnlyKnown(CarryInto(c, t), CarryInto(d, t), SentBy(k, t))
  {
  }

  lemma ShowingSuffices(c: Carry, d: Carry, t: Tile, w: byte, h: byte, k: Sent)
    requires ValidTile(2, t, w, h) && Known(c, d, k) && TileShows(k, t, w, h)
    ensures TilePixels(c, t, w, h) == TilePixels(d, t, w, h)
  {
    hide TilePixels;
    KnownInto(c, d, k, t);
    SamePixels(c, d, t, w, h);
  }

  /** A cell in a colour not sent differs whenever the carries do. */
  lemma ShowingNeeded(p: Panel, g: Area, c: Carry, d: Carry, t: Tile, k: Sent)
    requires 0 < g.w <= 16 && 0 < g.h <= 16 && InWindow(g) && ValidTile(2, t, g.w, g.h) && OnlyKnown(c, d, k)
    requires PaintTile(p, g, TilePixels(c, t, g.w, g.h)) == PaintTile(p, g, TilePixels(d, t, g.w, g.h))
    ensures TileShows(k, t, g.w, g.h)
  {
    hide TilePixels, PaintTile, TileColour;
    forall i: nat, j: nat | i < g.w && j < g.h
      ensures TileColour(c, t, g.w, g.h, i, j) == TileColour(d, t, g.w, g.h, i, j)
    {
      TilePicture(p, g, c, t, g.x + i, g.y + j);
      TilePicture(p, g, d, t, g.x + i, g.y + j);
    }
    CellsTell(c, d, t, g.w, g.h);
    KnownInto(c, d, k, t);
  }

  /** One tile on the screen: the panels behind it are the same from two carries that agree exactly
      on what has been sent, if and only if the tile shows nothing else. */
  lemma TileTells(p: Panel, g: Area, c: Carry, d: Carry, t: Tile, k: Sent)
    requires 0 < g.w <= 16 && 0 < g.h <= 16 && ValidTile(2, t, g.w, g.h) && Known(c, d, k)
    ensures var same := PaintTile(p, g, TilePixels(c, t, g.w, g.h)) == PaintTile(p, g, TilePixels(d, t, g.w, g.h));
            && (InWindow(g) && TileShows(k, t, g.w, g.h) ==> same)
            && (OnlyKnown(c, d, k) && InWindow(g) ==> (same <==> TileShows(k, t, g.w, g.h)))
            && (!InWindow(g) ==> same)
  {
    hide TileShows, OnlyKnown, Known, TilePixels;
    if InWindow(g) {
      if TileShows(k, t, g.w, g.h) {
        ShowingSuffices(c, d, t, g.w, g.h, k);
      } else if OnlyKnown(c, d, k) &&
                PaintTile(p, g, TilePixels(c, t, g.w, g.h)) == PaintTile(p, g, TilePixels(d, t, g.w, g.h)) {
        ShowingNeeded(p, g, c, d, t, k);
      }
    }
  }

  /** The panel behind each tile. */
  function TilePanels(p: Panel, r: Area, c: Carry, tiles: seq<Tile>, col: nat, row: nat): (ps: seq<Panel>)
    requires ValidTiles(2, r, tiles, col, row)
    ensures |ps| == |tiles|
    decreases |tiles|
  {
    if tiles == [] then []
    else
      var g := GridArea(r, col, row);
      var q := PaintTile(p, g, TilePixels(c, tiles[0], g.w, g.h));
      var c' := CarryInto(c, tiles[0]);
      if col + 1 < Across(r.w) then [q] + TilePanels(q, r, c', tiles[1..], col + 1, row)
      else [q] + TilePanels(q, r, c', tiles[1..], 0, row + 1)
  }

  /** What has been sent once the tiles have, unless one on the screen shows a colour not sent. */
  ghost function ShownByTiles(k: Sent, r: Area, tiles: seq<Tile>, col: nat, row: nat): Option<Sent>
    requires ValidTiles(2, r, tiles, col, row)
    decreases |tiles|
  {
    if tiles == [] then Some(k)
    else
      var g := GridArea(r, col, row);
      if InWindow(g) && !TileShows(k, tiles[0], g.w, g.h) then None
      else if col + 1 < Across(r.w) then ShownByTiles(SentBy(k, tiles[0]), r, tiles[1..], col + 1, row)
      else ShownByTiles(SentBy(k, tiles[0]), r, tiles[1..], 0, row + 1)
  }

  lemma {:induction false} TilesTell(p: Panel, r: Area, c: Carry, d: Carry, tiles: seq<Tile>, col: nat, row: nat,
                                     k: Sent)
    requires ValidTiles(2, r, tiles, col, row) && Known(c, d, k)
    ensures match ShownByTiles(k, r, tiles, col, row)
            case Some(m) =>
              && TilePanels(p, r, c, tiles, col, row) == TilePanels(p, r, d, tiles, col, row)
              && PaintTiles(p, r, c, tiles, col, row) == PaintTiles(p, r, d, tiles, col, row)
              && Known(CarryThrough(c, tiles), CarryThrough(d, tiles), m)
              && (OnlyKnown(c, d, k) ==> OnlyKnown(CarryThrough(c, tiles), CarryThrough(d, tiles), m))
            case None =>
              OnlyKnown(c, d, k) ==> TilePanels(p, r, c, tiles, col, row) != TilePanels(p, r, d, tiles, col, row)
    decreases |tiles|
  {
    hide TileShows, OnlyKnown, Known, TilePixels, PaintTile, SentBy, CarryInto;
    if tiles != [] {
      var t, g := tiles[0], GridArea(r, col, row);
      var q, q' := PaintTile(p, g, TilePixels(c, t, g.w, g.h)), PaintTile(p, g, TilePixels(d, t, g.w, g.h));
      TileTells(p, g, c, d, t, k);
      KnownInto(c, d, k, t);
      var col1 := if col + 1 < Across(r.w) then col + 1 else 0;
      var row1 := if col + 1 < Across(r.w) then row else row + 1;
      var one := TilePanels(p, r, c, tiles, col, row);
      var two := TilePanels(p, r, d, tiles, col, row);
      assert one[0] == q && one[1..] == TilePanels(q, r, CarryInto(c, t), tiles[1..], col1, row1);
      assert two[0] == q' && two[1..] == TilePanels(q', r, CarryInto(d, t), tiles[1..], col1, row1);
      if q == q' {
        TilesTell(q, r, CarryInto(c, t), CarryInto(d, t), tiles[1..], col1, row1, SentBy(k, t));
        assert one == [q] + one[1..] && two == [q] + two[1..];
      }
    }
  }

  function RectanglePanels(p: Panel, c: Carry, q: Rectangle): (ps: seq<Panel>)
    requires ValidRectangle(q)
    ensures |ps| == if q.HextileRectangle? then |q.tiles| else 0
  {
    if q.HextileRectangle? then TilePanels(p, q.area, c, q.tiles, 0, 0) else []
  }

  ghost function ShownByRectangle(k: Sent, q: Rectangle): Option<Sent>
    requires ValidRectangle(q)
  {
    if q.HextileRectangle? then ShownByTiles(k, q.area, q.tiles, 0, 0) else Some(k)
  }

  function RectanglesPanels(p: Panel, c: Carry, qs: seq<Rectangle>): seq<Panel>
    requires ValidRectangles(qs)
    decreases |qs|
  {
    if qs == [] then []
    else RectanglePanels(p, c, qs[0]) +
         RectanglesPanels(PaintRectangle(p, c, qs[0]), CarryRectangle(c, qs[0]), qs[1..])
  }

  ghost function ShownByRectangles(k: Sent, qs: seq<Rectangle>): Option<Sent>
    requires ValidRectangles(qs)
    decreases |qs|
  {
    if qs == [] then Some(k)
    else
      match ShownByRectangle(k, qs[0])
      case None => None
      case Some(m) => ShownByRectangles(m, qs[1..])
  }

  lemma FirstParts<T>(a: seq<T>, b: seq<T>, c: seq<T>, d: seq<T>)
    requires |a| == |c|
    ensures a + b == c + d <==> a == c && b == d
  {
    if a + b == c + d {
      TakePrefix(a, b);
      TakePrefix(c, d);
      DropPrefix(a, b);
      DropPrefix(c, d);
    }
  }

  lemma RectangleTells(p: Panel, c: Carry, d: Carry, q: Rectangle, k: Sent)
    requires ValidRectangle(q) && Known(c, d, k)
    ensures match ShownByRectangle(k, q)
            case Some(m) =>
              && RectanglePanels(p, c, q) == RectanglePanels(p, d, q)
              && PaintRectangle(p, c, q) == PaintRectangle(p, d, q)
              && Known(CarryRectangle(c, q), CarryRectangle(d, q), m)
              && (OnlyKnown(c, d, k) ==> OnlyKnown(CarryRectangle(c, q), CarryRectangle(d, q), m))
            case None => OnlyKnown(c, d, k) ==> RectanglePanels(p, c, q) != RectanglePanels(p, d, q)
  {
    hide Known, OnlyKnown, TilePanels, PaintTiles, ShownByTiles, CarryThrough;
    if q.HextileRectangle? {
      TilesTell(p, q.area, c, d, q.tiles, 0, 0, k);
    }
  }

  lemma {:induction false} RectanglesTell(p: Panel, c: Carry, d: Carry, qs: seq<Rectangle>, k: Sent)
    requires ValidRectangles(qs) && Known(c, d, k)
    ensures match ShownByRectangles(k, qs)
            case Some(m) =>
              && RectanglesPanels(p, c, qs) == RectanglesPanels(p, d, qs)
              && PaintRectangles(p, c, qs) == PaintRectangles(p, d, qs)
              && Known(CarryRectangles(c, qs), CarryRectangles(d, qs), m)
              && (OnlyKnown(c, d, k) ==> OnlyKnown(CarryRectangles(c, qs), CarryRectangles(d, qs), m))
            case None => OnlyKnown(c, d, k) ==> RectanglesPanels(p, c, qs) != RectanglesPanels(p, d, qs)
    decreases |qs|
  {
    hide Known, OnlyKnown, RectanglePanels, PaintRectangle, ShownByRectangle, CarryRectangle;
    if qs != [] {
      RectangleTells(p, c, d, qs[0], k);
      var c1, d1 := CarryRectangle(c, qs[0]), CarryRectangle(d, qs[0]);
      var q, q' := PaintRectangle(p, c, qs[0]), PaintRectangle(p, d, qs[0]);
      FirstParts(RectanglePanels(p, c, qs[0]), RectanglesPanels(q, c1, qs[1..]),
                 RectanglePanels(p, d, qs[0]), RectanglesPanels(q', d1, qs[1..]));
      match ShownByRectangle(k, qs[0]) {
        case Some(m) => RectanglesTell(q, c1, d1, qs[1..], m);
        case None =>
      }
    }
  }

  /** The panel behind each tile of each update. */
  function UpdatesPanels(p: Panel, c: Carry, us: seq<Update>): seq<Panel>
    requires ValidUpdates(us)
    decreases |us|
  {
    if us == [] then []
    else
      var qs := us[0].rectangles;
      RectanglesPanels(p, c, qs) + UpdatesPanels(PaintRectangles(p, c, qs), CarryRectangles(c, qs), us[1..])
  }

  ghost function ShownByUpdates(k: Sent, us: seq<Update>): Option<Sent>
    requires ValidUpdates(us)
    decreases |us|
  {
    if us == [] then Some(k)
    else
      match ShownByRectangles(k, us[0].rectangles)
      case None => None
      case Some(m) => ShownByUpdates(m, us[1..])
  }

  lemma {:induction false} PanelCount(p: Panel, q: Panel, c: Carry, d: Carry, qs: seq<Rectangle>)
    requires ValidRectangles(qs)
    ensures |RectanglesPanels(p, c, qs)| == |RectanglesPanels(q, d, qs)|
    decreases |qs|
  {
    if qs != [] {
      PanelCount(PaintRectangle(p, c, qs[0]), PaintRectangle(q, d, qs[0]), CarryRectangle(c, qs[0]),
                 CarryRectangle(d, qs[0]), qs[1..]);
    }
  }

  lemma {:induction false} UpdatesTell(p: Panel, c: Carry, d: Carry, us: seq<Update>, k: Sent)
    requires ValidUpdates(us) && Known(c, d, k)
    ensures ShownByUpdates(k, us).Some? ==> UpdatesPanels(p, c, us) == UpdatesPanels(p, d, us)
    ensures OnlyKnown(c, d, k) && ShownByUpdates(k, us).None? ==> UpdatesPanels(p, c, us) != UpdatesPanels(p, d, us)
    decreases |us|
  {
    hide Known, OnlyKnown, RectanglesPanels, PaintRectangles, ShownByRectangles, CarryRectangles;
    if us != [] {
      var qs := us[0].rectangles;
      RectanglesTell(p, c, d, qs, k);
      PanelCount(p, p, c, d, qs);
      var c1, d1 := CarryRectangles(c, qs), CarryRectangles(d, qs);
      var q, q' := PaintRectangles(p, c, qs), PaintRectangles(p, d, qs);
      FirstParts(RectanglesPanels(p, c, qs), UpdatesPanels(q, c1, us[1..]),
                 RectanglesPanels(p, d, qs), UpdatesPanels(q', d1, us[1..]));
      match ShownByRectangles(k, qs) {
        case Some(m) => UpdatesTell(q, c1, d1, us[1..], m);
        case None =>
      }
    }
  }

  /** No tile on the screen shows a colour the session has not sent. */
  ghost predicate ShowsOnlySent(x: Session)
    requires ValidSession(x)
  {
    ShownByUpdates(Sent(false, false), x.updates).Some?
  }

  /** The panels a session leaves tile by tile, in front of a receiver that is not connected. */
  function SessionPanels(l: Loop, x: Session): seq<Panel>
    requires ValidSession(x)
  {
    UpdatesPanels(l.rx.panel, CarryOf(l.rx), x.updates)
  }

  // ----- The panels of the run -----

  function Shifted(n: nat, ns: seq<nat>): (r: seq<nat>)
    ensures |r| == |ns| && forall k :: 0 <= k < |ns| ==> r[k] == n + ns[k]
  {
    seq(|ns|, k requires 0 <= k < |ns| => n + ns[k])
  }

  /** Where each tile ends in the bytes of a rectangle, of an update, of a session. */
  function TileEnds(r: Area, tiles: seq<Tile>, col: nat, row: nat): (ns: seq<nat>)
    requires ValidTiles(2, r, tiles, col, row)
    ensures |ns| == |tiles|
    decreases |tiles|
  {
    if tiles == [] then []
    else
      var n := |EncodeTile(2, tiles[0], GridArea(r, col, row).w, GridArea(r, col, row).h)|;
      [n] + Shifted(n, if col + 1 < Across(r.w) then TileEnds(r, tiles[1..], col + 1, row)
                       else TileEnds(r, tiles[1..], 0, row + 1))
  }

  function RectangleEnds(q: Rectangle): seq<nat>
    requires ValidRectangle(q)
  {
    if q.HextileRectangle? then Shifted(|EncodeRectangleHeader(q)|, TileEnds(q.area, q.tiles, 0, 0)) else []
  }

  function RectanglesEnds(qs: seq<Rectangle>): seq<nat>
    requires ValidRectangles(qs)
  {
    if qs == [] then []
    else RectangleEnds(qs[0]) +
         Shifted(|EncodeRectangleHeader(qs[0]) + EncodeRectangleBody(qs[0])|, RectanglesEnds(qs[1..]))
  }

  function UpdatesEnds(us: seq<Update>): seq<nat>
    requires ValidUpdates(us)
  {
    if us == [] then []
    else Shifted(|UpdateHeader(us[0])|, RectanglesEnds(us[0].rectangles)) +
         Shifted(|EncodeUpdate(us[0])|, UpdatesEnds(us[1..]))
  }

  function UpdateHeader(u: Update): (e: seq<byte>)
    requires ValidUpdate(u)
    ensures |e| == 4
  {
    [0, u.padding] + BigEndian(|u.rectangles|)
  }

  function SessionEnds(x: Session): seq<nat>
    requires ValidSession(x)
  {
    Shifted(|EncodeGreeting(x.greeting)|, UpdatesEnds(x.updates))
  }

  /** The run over the first ns[k] bytes leaves the panel ps[k]. */
  predicate Leaves(s: Rx, b: seq<byte>, ns: seq<nat>, ps: seq<Panel>)
  {
    |ns| == |ps| && forall k :: 0 <= k < |ns| ==> ns[k] <= |b| && LeavesPanel(Run(s, b[..ns[k]]), ps[k])
  }

  predicate LeavesPanel(e: Rest, p: Panel)
  {
    e.Quiet? && e.st.panel == p
  }

  lemma LeavesBehind(s: Rx, a: seq<byte>, t: Rx, b: seq<byte>, ns: seq<nat>, ps: seq<Panel>)
    requires Run(s, a) == Quiet(t, []) && Leaves(t, b, ns, ps)
    ensures Leaves(s, a + b, Shifted(|a|, ns), ps)
  {
    hide Run;
    forall k | 0 <= k < |ns|
      ensures LeavesPanel(Run(s, (a + b)[..|a| + ns[k]]), ps[k])
    {
      RunSplit(s, a, b[..ns[k]]);
      assert (a + b)[..|a| + ns[k]] == a + b[..ns[k]];
      assert [] + b[..ns[k]] == b[..ns[k]];
    }
  }

  lemma LeavesLonger(s: Rx, a: seq<byte>, b: seq<byte>, ns: seq<nat>, ps: seq<Panel>)
    requires Leaves(s, a, ns, ps)
    ensures Leaves(s, a + b, ns, ps)
  {
    hide Run;
    forall k | 0 <= k < |ns|
      ensures (a + b)[..ns[k]] == a[..ns[k]]
    {
    }
  }

  lemma LeavesBoth(s: Rx, b: seq<byte>, ns: seq<nat>, ps: seq<Panel>, ms: seq<nat>, qs: seq<Panel>)
    requires Leaves(s, b, ns, ps) && Leaves(s, b, ms, qs)
    ensures Leaves(s, b, ns + ms, ps + qs)
  {
    hide Run, LeavesPanel;
  }

  /** One tile, and the receiver ready for the next one or for the next rectangle. */
  lemma RunOneTile(s: Rx, r: Area, t: Tile, col: nat, row: nat) returns (v: Rx)
    requires AtCell(s, r, col, row) && s.tile == ParseHeader && ValidTile(2, t, s.tileW, s.tileH) && Prompt(t)
    ensures Run(s, EncodeTile(2, t, s.tileW, s.tileH)) == Quiet(v, [])
    ensures v.panel == PaintTile(s.panel, Here(s), TilePixels(CarryOf(s), t, s.tileW, s.tileH))
    ensures var col1 := if col + 1 < Across(r.w) then col + 1 else 0;
            var row1 := if col + 1 < Across(r.w) then row else row + 1;
            row1 < Across(r.h) ==>
              AtCell(v, r, col1, row1) && v.tile == ParseHeader && CarryOf(v) == CarryInto(CarryOf(s), t)
  {
    hide Run, Step, EncodeTile, AfterTile, CarryInto, TilePixels;
    var e := EncodeTile(2, t, s.tileW, s.tileH);
    AfterTileStays(s, r, col, row, t);
    var u := AfterTile(s, t);
    PromptBody(s, t);
    assert e + [] == e && EncodeBody(2, t) + [] == EncodeBody(2, t);
    RunTile(s, t, []);
    NextTile(u, r, col, row, []);
    if col + 1 < Across(r.w) || row + 1 < Across(r.h) {
      v := Step(u, []).next;
      RunMove(u, [], v, 0);
      NoHeader(v);
    } else {
      var w := u.(tileX := u.x1, rect := RectIdle, tile := TileInit);
      RunPause(u, [], w);
      RunBetween(w);
      v := Run(w, []).st;
    }
  }

  lemma NoHeader(s: Rx)
    requires s.phase == ProcessingUpdate && s.rect == HextileRect && s.tile == ParseHeader
    ensures Run(s, []) == Quiet(s, [])
  {
  }

  lemma RunPause(s: Rx, b: seq<byte>, t: Rx)
    requires Step(s, b) == Pause(t)
    ensures Run(s, b) == Run(t, b)
  {
  }

  lemma {:induction false} TilesShow(s: Rx, r: Area, tiles: seq<Tile>, col: nat, row: nat)
    requires AtCell(s, r, col, row) && s.tile == ParseHeader && tiles != []
    requires ValidTiles(2, r, tiles, col, row) && PromptTiles(tiles)
    ensures Leaves(s, EncodeTiles(2, r, tiles, col, row), TileEnds(r, tiles, col, row),
                  TilePanels(s.panel, r, CarryOf(s), tiles, col, row))
    decreases |tiles|
  {
    hide Run, EncodeTile, TilePixels, PaintTile, CarryInto;
    var t := tiles[0];
    var e := EncodeTile(2, t, s.tileW, s.tileH);
    var col1 := if col + 1 < Across(r.w) then col + 1 else 0;
    var row1 := if col + 1 < Across(r.w) then row else row + 1;
    var more := EncodeTiles(2, r, tiles[1..], col1, row1);
    var ends := TileEnds(r, tiles[1..], col1, row1);
    assert Prompt(t);
    var v := RunOneTile(s, r, t, col, row);
    assert (e + more)[..|e|] == e;
    assert Leaves(s, e + more, [|e|], [v.panel]);
    var panels := TilePanels(v.panel, r, CarryInto(CarryOf(s), t), tiles[1..], col1, row1);
    if tiles[1..] != [] {
      assert PromptTiles(tiles[1..]);
      TilesShow(v, r, tiles[1..], col1, row1);
    }
    LeavesBehind(s, e, v, more, ends, panels);
    LeavesBoth(s, e + more, [|e|], [v.panel], Shifted(|e|, ends), panels);
  }

  lemma RectangleShows(s: Rx, q: Rectangle)
    requires ValidRectangle(q) && s.phase == ProcessingUpdate && s.rect == RectIdle && s.rectangleCount > 0
    ensures Leaves(s, EncodeRectangleHeader(q) + EncodeRectangleBody(q), RectangleEnds(q),
                  RectanglePanels(s.panel, CarryOf(s), q))
  {
    hide Run, EncodeRectangleHeader, TileEnds, TilePanels;
    if q.HextileRectangle? {
      var e, t := EncodeRectangleHeader(q), HeaderState(s, q);
      RunRectangleHeader(s, q, []);
      assert e + [] == e;
      FirstTile(t, q.area, []);
      var v := Step(t, []).next;
      RunMove(t, [], v, 0);
      NoHeader(v);
      TilesShow(v, q.area, q.tiles, 0, 0);
      LeavesBehind(s, e, v, EncodeRectangleBody(q), TileEnds(q.area, q.tiles, 0, 0),
                  TilePanels(s.panel, q.area, CarryOf(s), q.tiles, 0, 0));
    }
  }

  lemma {:induction false} RectanglesShow(s: Rx, qs: seq<Rectangle>)
    requires ValidRectangles(qs) && s.phase == ProcessingUpdate && s.rect == RectIdle && s.rectangleCount == |qs|
    ensures Leaves(s, EncodeRectangles(qs), RectanglesEnds(qs), RectanglesPanels(s.panel, CarryOf(s), qs))
    decreases |qs|
  {
    hide Run, EncodeRectangleHeader, EncodeRectangleBody, RectangleEnds, RectanglePanels, PaintRectangle;
    if qs != [] {
      var first := EncodeRectangleHeader(qs[0]) + EncodeRectangleBody(qs[0]);
      var more := EncodeRectangles(qs[1..]);
      RunRectangle(s, qs[0]);
      RectangleShows(s, qs[0]);
      LeavesLonger(s, first, more, RectangleEnds(qs[0]), RectanglePanels(s.panel, CarryOf(s), qs[0]));
      var t := Run(s, first).st;
      var panels := RectanglesPanels(t.panel, CarryOf(t), qs[1..]);
      if qs[1..] != [] {
        RectanglesShow(t, qs[1..]);
      }
      LeavesBehind(s, first, t, more, RectanglesEnds(qs[1..]), panels);
      LeavesBoth(s, first + more, RectangleEnds(qs[0]), RectanglePanels(s.panel, CarryOf(s), qs[0]),
                Shifted(|first|, RectanglesEnds(qs[1..])), panels);
    }
  }

  lemma UpdateShows(s: Rx, u: Update)
    requires ValidUpdate(u) && AwaitsUpdate(s)
    ensures Leaves(s, EncodeUpdate(u), Shifted(|UpdateHeader(u)|, RectanglesEnds(u.rectangles)),
                  RectanglesPanels(s.panel, CarryOf(s), u.rectangles))
  {
    hide Run, RectanglesEnds, RectanglesPanels, EncodeRectangles;
    var e := UpdateHeader(u);
    var t := s.(rectangleCount := |u.rectangles|, rect := RectIdle, phase := ProcessingUpdate);
    RunMove(s, e, t, 4);
    assert e[4..] == [];
    if u.rectangles == [] {
      assert RectanglesEnds([]) == [] && RectanglesPanels(s.panel, CarryOf(s), []) == [] by {
        NoPanels(s.panel, CarryOf(s));
      }
    } else {
      RunBetween(t);
      RectanglesShow(t, u.rectangles);
      LeavesBehind(s, e, t, EncodeRectangles(u.rectangles), RectanglesEnds(u.rectangles),
                  RectanglesPanels(s.panel, CarryOf(s), u.rectangles));
    }
  }

  lemma NoPanels(p: Panel, c: Carry)
    ensures RectanglesEnds([]) == [] && RectanglesPanels(p, c, []) == []
  {
  }

  lemma {:induction false} UpdatesShow(s: Rx, us: seq<Update>)
    requires AwaitsUpdate(s) && ValidUpdates(us)
    ensures Leaves(s, EncodeUpdates(us), UpdatesEnds(us), UpdatesPanels(s.panel, CarryOf(s), us))
    decreases |us|
  {
    hide Run, RectanglesEnds, RectanglesPanels, EncodeUpdate, UpdateHeader, PaintRectangles;
    if us != [] {
      var qs := us[0].rectangles;
      var first, more := EncodeUpdate(us[0]), EncodeUpdates(us[1..]);
      var ends := Shifted(|UpdateHeader(us[0])|, RectanglesEnds(qs));
      RunUpdate(s, us[0], more);
      UpdateShows(s, us[0]);
      LeavesLonger(s, first, more, ends, RectanglesPanels(s.panel, CarryOf(s), qs));
      var t := Run(s, first).st;
      UpdatesShow(t, us[1..]);
      LeavesBehind(s, first, t, more, UpdatesEnds(us[1..]), UpdatesPanels(t.panel, CarryOf(t), us[1..]));
      LeavesBoth(s, first + more, ends, RectanglesPanels(s.panel, CarryOf(s), qs),
                Shifted(|first|, UpdatesEnds(us[1..])), UpdatesPanels(t.panel, CarryOf(t), us[1..]));
    }
  }

  /** The run over a session up to the end of each tile leaves the panel of that tile. */
  lemma SessionShows(l: Loop, x: Session)
    requires ValidSession(x) && l.rx.phase == NotConnected
    ensures Leaves(l.rx, EncodeSession(x), SessionEnds(x), SessionPanels(l, x))
  {
    hide Run, UpdatesEnds, UpdatesPanels, EncodeGreeting, EncodeUpdates;
    RunGreeting(l.rx, x.greeting);
    var t := Run(l.rx, EncodeGreeting(x.greeting)).st;
    UpdatesShow(t, x.updates);
    LeavesBehind(l.rx, EncodeGreeting(x.greeting), t, EncodeUpdates(x.updates), UpdatesEnds(x.updates),
                 SessionPanels(l, x));
  }

  /** Given the session up to the end of any of its tiles, the client shows the same after the reset
      as after power-on. */
  ghost predicate ResetLikeBoot(l: Loop, x: Session)
    requires |l.held| <= VNC_BUFFER_MAX && ValidSession(x)
  {
    var z, b := Iterate(l, Disconnect, NoKey).next, Boot(l.rx.panel, l.key);
    forall n :: n in SessionEnds(x) ==> n <= |EncodeSession(x)| && SameSoFar(z.rx, b.rx, EncodeSession(x)[..n])
  }

  predicate SameSoFar(s: Rx, t: Rx, b: seq<byte>)
  {
    Run(s, b).Quiet? && Run(t, b).Quiet? && Run(s, b).st.panel == Run(t, b).st.panel
  }

  lemma SamePanels(l: Loop, x: Session)
    requires |l.held| <= VNC_BUFFER_MAX && ValidSession(x)
    ensures ResetLikeBoot(l, x) <==>
            UpdatesPanels(l.rx.panel, CarryOf(l.rx), x.updates) == UpdatesPanels(l.rx.panel, Carry(0, 0), x.updates)
  {
    hide Run, SessionEnds, EncodeSession, UpdatesPanels;
    var z, b := Iterate(l, Disconnect, NoKey).next, Boot(l.rx.panel, l.key);
    var e, ns := EncodeSession(x), SessionEnds(x);
    SessionShows(z, x);
    SessionShows(b, x);
    var one, two := SessionPanels(z, x), SessionPanels(b, x);
    if ResetLikeBoot(l, x) {
      forall k | 0 <= k < |ns|
        ensures one[k] == two[k]
      {
        assert ns[k] in ns;
        assert SameSoFar(z.rx, b.rx, e[..ns[k]]);
      }
      assert one == two;
    }
  }

  /** Exactly when no reset leaves a trace on the panel: after every reset the client shows, at the
      end of each tile of the session, what it shows after power-on, if and only if no tile on the
      screen shows a colour that the session has not sent. */
  lemma ResetShowsExactly(x: Session)
    requires ValidSession(x)
    ensures (forall l: Loop :: |l.held| <= VNC_BUFFER_MAX ==> ResetLikeBoot(l, x)) <==> ShowsOnlySent(x)
  {
    hide UpdatesPanels, ShownByUpdates, ResetLikeBoot;
    var k := Sent(false, false);
    forall l: Loop | |l.held| <= VNC_BUFFER_MAX
      ensures ShowsOnlySent(x) ==> ResetLikeBoot(l, x)
    {
      UpdatesTell(l.rx.panel, CarryOf(l.rx), Carry(0, 0), x.updates, k);
      SamePanels(l, x);
    }
    var l := Loop(PowerOn(Panel(0, 0, 0, 0, 0, 0, map[])).(background := 1, foreground := 1), [], SendInit, NoKey);
    UpdatesTell(l.rx.panel, CarryOf(l.rx), Carry(0, 0), x.updates, k);
    SamePanels(l, x);
    assert !ShowsOnlySent(x) ==> !ResetLikeBoot(l, x);
  }

  // ----- Sending is enough for showing -----

  lemma SendingShows(k: Sent, t: Tile, w: byte, h: byte)
    requires TileSends(k, t)
    ensures TileShows(k, t, w, h)
  {
  }

  lemma {:induction false} TilesSendingShow(k: Sent, r: Area, tiles: seq<Tile>, col: nat, row: nat)
    requires ValidTiles(2, r, tiles, col, row) && SentByTiles(k, tiles).Some?
    ensures ShownByTiles(k, r, tiles, col, row) == SentByTiles(k, tiles)
    decreases |tiles|
  {
    hide TileShows, TileSends;
    if tiles != [] {
      var g := GridArea(r, col, row);
      SendingShows(k, tiles[0], g.w, g.h);
      TilesSendingShow(SentBy(k, tiles[0]), r, tiles[1..], if col + 1 < Across(r.w) then col + 1 else 0,
                       if col + 1 < Across(r.w) then row else row + 1);
    }
  }

  lemma {:induction false} RectanglesSendingShow(k: Sent, qs: seq<Rectangle>)
    requires ValidRectangles(qs) && SentByRectangles(k, qs).Some?
    ensures ShownByRectangles(k, qs) == SentByRectangles(k, qs)
    decreases |qs|
  {
    if qs != [] {
      if qs[0].HextileRectangle? {
        assert ValidRectangle(qs[0]);
        TilesSendingShow(k, qs[0].area, qs[0].tiles, 0, 0);
      }
      RectanglesSendingShow(SentByRectangle(k, qs[0]).value, qs[1..]);
    }
  }

  lemma {:induction false} UpdatesSendingShow(k: Sent, us: seq<Update>)
    requires ValidUpdates(us) && SentByUpdates(k, us).Some?
    ensures ShownByUpdates(k, us) == SentByUpdates(k, us)
    decreases |us|
  {
    if us != [] {
      RectanglesSendingShow(k, us[0].rectangles);
      UpdatesSendingShow(SentByRectangles(k, us[0].rectangles).value, us[1..]);
    }
  }

  // ----- A session that relies on a stale colour -----

  /** A session whose only tile sends no background. */
  function BareSession(g: Greeting): Session
  {
    Session(g, [Update(0, [HextileRectangle(Area(0, 0, 1, 1), [Coded(0, 0, 0, [])])])])
  }

  lemma OneTile(p: Panel, r: Area, c: Carry, t: Tile)
    requires 0 < r.w <= 16 && 0 < r.h <= 16 && ValidTile(2, t, r.w, r.h)
    ensures ValidTiles(2, r, [t], 0, 0)
    ensures PaintTiles(p, r, c, [t], 0, 0) == PaintTile(p, r, TilePixels(c, t, r.w, r.h))
  {
    hide TilePixels, PaintTile, ValidTile;
    assert [t][1..] == [];
    assert GridArea(r, 0, 0) == r && Across(r.w) == 1 && Across(r.h) == 1;
  }

  /** A tile that sends nothing shows the background that was there. */
  lemma BareTile(p: Panel, r: Area, c: Carry, t: Tile)
    requires 0 < r.w <= 16 && 0 < r.h <= 16 && InWindow(r) && t.Coded? && t.sub == 0 && t.subrects == []
    ensures ValidTiles(2, r, [t], 0, 0) && Prompt(t) && SentByTiles(Sent(false, false), [t]).None?
    ensures At(PaintTiles(p, r, c, [t], 0, 0).pixels, r.x, r.y) == Some(c.bg)
  {
    hide PaintTiles, PaintTile, TilePixels;
    OneTile(p, r, c, t);
    TilePicture(p, r, c, t, r.x, r.y);
  }

  lemma BareUpdates(u: Update, k: Sent, p: Panel, c: Carry)
    requires |u.rectangles| == 1 && ValidRectangle(u.rectangles[0])
    ensures ValidUpdates([u])
    ensures SentByUpdates(k, [u]) == SentByRectangle(k, u.rectangles[0])
    ensures PaintUpdates(p, c, [u]) == PaintRectangle(p, c, u.rectangles[0])
  {
    hide ValidRectangle, PaintRectangle, SentByRectangle, CarryRectangle;
    var qs := u.rectangles;
    assert qs[1..] == [] && [u][1..] == [];
    assert PaintRectangles(p, c, qs) == PaintRectangle(p, c, qs[0]);
    assert SentByRectangles(k, qs) == SentByRectangle(k, qs[0]);
    if SentByRectangles(k, qs).Some? {
      assert SentByUpdates(k, [u]) == SentByUpdates(SentByRectangles(k, qs).value, []);
    }
  }

  lemma BareValid(g: Greeting, p: Panel, c: Carry)
    requires ValidGreeting(g)
    ensures ValidSession(BareSession(g)) && !SendsColours(BareSession(g))
    ensures At(PaintUpdates(p, c, BareSession(g).updates).pixels, 0, 0) == Some(c.bg)
  {
    hide ValidTiles, PaintTiles, PaintUpdates, SentByTiles, SentByUpdates, Prompt, ValidUpdates;
    var u := BareSession(g).updates[0];
    var q := u.rectangles[0];
    BareTile(p, q.area, c, q.tiles[0]);
    assert q.tiles == [q.tiles[0]] && BareSession(g).updates == [u];
    BareUpdates(u, Sent(false, false), p, c);
  }

  /** Behind a reset that session shows the background of the connection before, and behind
      power-on it shows black. */
  lemma StaleBackgroundShows(l: Loop, g: Greeting)
    requires |l.held| <= VNC_BUFFER_MAX && ValidGreeting(g)
    ensures ValidSession(BareSession(g)) && !SendsColours(BareSession(g))
    ensures var e := EncodeSession(BareSession(g));
            var one := Run(Iterate(l, Disconnect, NoKey).next.rx, e);
            var two := Run(Boot(l.rx.panel, l.key).rx, e);
            && one.Quiet? && one.rest == [] && At(one.st.panel.pixels, 0, 0) == Some(l.rx.background)
            && two.Quiet? && two.rest == [] && At(two.st.panel.pixels, 0, 0) == Some(0)
  {
    hide Run, PaintUpdates, EncodeSession;
    var x := BareSession(g);
    var z, b := Iterate(l, Disconnect, NoKey).next.rx, Boot(l.rx.panel, l.key).rx;
    BareValid(g, z.panel, CarryOf(z));
    BareValid(g, b.panel, CarryOf(b));
    RunSession(z, x);
    RunSession(b, x);
  }
}
