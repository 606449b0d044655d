/** Whole server streams: rectangles, framebuffer updates and the greeting before them. */
module Streams {
  import opened Bytes
  import opened Panels
  import opened Hextile
  import opened Receiver
  import opened Picture

  // ----- The tiles of a rectangle -----

  predicate PromptTiles(tiles: seq<Tile>)
  {
    forall k :: 0 <= k < |tiles| ==> Prompt(tiles[k])
  }

  /** The rectangle and the sixteen pixels past it stay inside 16-bit coordinates. */
  predicate Representable(r: Area)
  {
    0 < r.w && 0 < r.h && r.x + r.w + 16 <= 0x1_0000 && r.y + r.h + 16 <= 0x1_0000
  }

  /** The receiver is about to read, or has just drawn, the tile in grid cell (col, row). */
  predicate AtCell(s: Rx, r: Area, col: nat, row: nat)
  {
    && s.phase == ProcessingUpdate && s.rect == HextileRect
    && Representable(r) && col < Across(r.w) && row < Across(r.h)
    && Here(s) == GridArea(r, col, row)
    && s.x0 == r.x && s.x1 == r.x + r.w && s.y0 == r.y && s.y1 == r.y + r.h
  }

  /** The receiver is between rectangles with n of them still to come. */
  predicate Between(s: Rx, n: nat)
  {
    s.rectangleCount == n &&
    if n == 0 then s.phase == ConnectedRefresh else s.phase == ProcessingUpdate && s.rect == RectIdle
  }

  /** The first tile is the first grid cell. */
  lemma FirstTile(s: Rx, r: Area, b: seq<byte>)
    requires s.phase == ProcessingUpdate && s.rect == HextileRect && s.tile == TileInit && Representable(r)
    requires s.x0 == r.x && s.x1 == r.x + r.w && s.y0 == r.y && s.y1 == r.y + r.h
    ensures var o := Step(s, b);
            o == Move(s.(tileX := o.next.tileX, tileY := o.next.tileY, tileW := o.next.tileW, tileH := o.next.tileH,
                         tile := ParseHeader), 0)
            && AtCell(o.next, r, 0, 0)
  {
  }

  /** The source's stepping visits the grid in row-major order and stops behind its last cell. */
  lemma NextTile(s: Rx, r: Area, col: nat, row: nat, b: seq<byte>)
    requires AtCell(s, r, col, row) && s.tile == TileDone
    ensures var o := Step(s, b);
            if col + 1 < Across(r.w) || row + 1 < Across(r.h) then
              var col1, row1 := if col + 1 < Across(r.w) then col + 1 else 0,
                                if col + 1 < Across(r.w) then row else row + 1;
              o == Move(s.(tileX := o.next.tileX, tileY := o.next.tileY, tileW := o.next.tileW, tileH := o.next.tileH,
                           tile := ParseHeader), 0)
              && AtCell(o.next, r, col1, row1)
            else
              o == Pause(s.(tileX := s.x1, rect := RectIdle, tile := TileInit))
  {
  }

  /** Between two rectangles no data means no work, except that the update may be over. */
  lemma RunBetween(s: Rx)
    requires s.phase == ProcessingUpdate && s.rect == RectIdle
    ensures Run(s, []) == Quiet(if s.rectangleCount == 0 then s.(phase := ConnectedRefresh) else s, [])
    ensures Between(Run(s, []).st, s.rectangleCount)
  {
  }

  /** Back to asking for a refresh, no data means no work. */
  lemma AtRest(s: Rx)
    requires Between(s, 0)
    ensures Run(s, []) == Quiet(s, [])
  {
  }

  lemma AfterTileStays(s: Rx, r: Area, col: nat, row: nat, t: Tile)
    requires AtCell(s, r, col, row) && s.tile == ParseHeader && ValidTile(2, t, s.tileW, s.tileH)
    ensures AtHeader(s)
    ensures var u := AfterTile(s, t);
            && AtCell(u, r, col, row) && u.tile == TileDone && u.rectangleCount == s.rectangleCount
            && u.panel == PaintTile(s.panel, Here(s), TilePixels(CarryOf(s), t, s.tileW, s.tileH))
            && CarryOf(u) == CarryInto(CarryOf(s), t)
  {
  }

  /** The rest of a hextile rectangle: every byte is consumed, the next rectangle is awaited, and
      the panel shows the tiles. */
  lemma {:induction false} RunTiles(s: Rx, r: Area, tiles: seq<Tile>, col: nat, row: nat)
    requires AtCell(s, r, col, row) && s.tile == ParseHeader && tiles != []
    requires ValidTiles(2, r, tiles, col, row) && PromptTiles(tiles)
    ensures var q := Run(s, EncodeTiles(2, r, tiles, col, row));
            && q.Quiet? && q.rest == []
            && Between(q.st, s.rectangleCount)
            && q.st.panel == PaintTiles(s.panel, r, CarryOf(s), tiles, col, row)
            && CarryOf(q.st) == CarryThrough(CarryOf(s), tiles)
    decreases |tiles|
  {
    var t := tiles[0];
    AfterTileStays(s, r, col, row, t);
    var u := AfterTile(s, t);
    var e := EncodeTile(2, t, s.tileW, s.tileH);
    var col1, row1 := if col + 1 < Across(r.w) then col + 1 else 0, if col + 1 < Across(r.w) then row else row + 1;
    var more := EncodeTiles(2, r, tiles[1..], col1, row1);
    assert EncodeTiles(2, r, tiles, col, row) == e + more;
    PromptBody(s, t);
    assert Prompt(t);
    RunTile(s, t, more);
    NextTile(u, r, col, row, more);
    if tiles[1..] == [] {
      var v := u.(tileX := u.x1, rect := RectIdle, tile := TileInit);
      assert Run(u, more) == Run(v, more) && more == [];
      RunBetween(v);
    } else {
      var v := Step(u, more).next;
      RunMove(u, more, v, 0);
      assert more[0..] == more;
      assert PromptTiles(tiles[1..]);
      RunTiles(v, r, tiles[1..], col1, row1);
    }
  }

  // ----- Rectangles -----

  /** The sizes whose area the source's 16-bit signed factors multiply out correctly. */
  predicate CountsRight(w: word, h: word)
  {
    (w < 0x8000 && h < 0x8000) || w == 0 || h == 0 || (w == 0x8000 && h == 0x8000)
  }

  lemma WrapsToItself(p: int, k: int, m: int)
    requires 0 <= p < 0x1_0000_0000
    ensures (p - 0x1_0000 * k + 0x1_0000_0000 * m) % 0x1_0000_0000 == p <==> k % 0x1_0000 == 0
  {
    var n := p - 0x1_0000 * k + 0x1_0000_0000 * m;
    var q := n / 0x1_0000_0000;
    if n % 0x1_0000_0000 == p {
      assert k == 0x1_0000 * (m - q);
    }
    if k % 0x1_0000 == 0 {
      assert n == p + 0x1_0000_0000 * (m - k / 0x1_0000);
    }
  }

  lemma WidenedOne(w: int, h: int)
    ensures (w + 0xFFFF_0000) * h == w * h - 0x1_0000 * h + 0x1_0000_0000 * h
  {
  }

  lemma WidenedBoth(w: int, h: int)
    ensures (w + 0xFFFF_0000) * (h + 0xFFFF_0000) ==
            w * h - 0x1_0000 * (w + h) + 0x1_0000_0000 * (w + h + 0xFFFE_0001)
  {
    WidenedOne(w, h + 0xFFFF_0000);
    WidenedOne(h, w);
  }

  lemma RawCountLow(w: word, h: word)
    requires w < 0x8000 && h < 0x8000
    ensures RawCount(w, h) == w * h < 0x8000_0000
  {
    ProductBound(w, h, 0x7FFF, 0x7FFF);
  }

  lemma RawCountOneHigh(w: word, h: word)
    requires w >= 0x8000 && h < 0x8000
    ensures RawCount(w, h) == RawCount(h, w)
    ensures RawCount(w, h) == w * h <==> h == 0
  {
    ProductBound(w, h, 0xFFFF, 0xFFFF);
    WidenedOne(w, h);
    WrapsToItself(w * h, h, h);
  }

  lemma RawCountBothHigh(w: word, h: word)
    requires w >= 0x8000 && h >= 0x8000
    ensures RawCount(w, h) == w * h <==> w + h == 0x1_0000
  {
    ProductBound(w, h, 0xFFFF, 0xFFFF);
    WidenedBoth(w, h);
    WrapsToItself(w * h, w + h, w + h + 0xFFFE_0001);
  }

  /** The pixel count of a raw rectangle is its area exactly for the sizes above. */
  lemma RawCountExact(w: word, h: word)
    ensures RawCount(w, h) == w * h <==> CountsRight(w, h)
    ensures CountsRight(w, h) ==> w * h < 0x8000_0000
  {
    if w < 0x8000 && h < 0x8000 {
      RawCountLow(w, h);
    } else if h < 0x8000 {
      RawCountOneHigh(w, h);
    } else if w < 0x8000 {
      RawCountOneHigh(h, w);
    } else {
      RawCountBothHigh(w, h);
    }
  }

  lemma ProductBound(a: nat, b: nat, c: nat, d: nat)
    requires a <= c && b <= d
    ensures 0 <= a * b <= c * d
  {
    assert a * b <= c * b;
    assert c * b <= c * d;
  }

  datatype Rectangle =
    | RawRectangle(area: Area, data: seq<byte>)
    | CopyRectangle(area: Area, srcX: word, srcY: word)
    | HextileRectangle(area: Area, tiles: seq<Tile>)

  predicate ValidRectangle(q: Rectangle)
  {
    && q.area.x < 0x1_0000 && q.area.y < 0x1_0000 && q.area.w < 0x1_0000 && q.area.h < 0x1_0000
    && match q
       case RawRectangle(r, data) => |data| == 2 * (r.w * r.h) && CountsRight(r.w, r.h)
       case CopyRectangle(_, _, _) => true
       case HextileRectangle(r, tiles) => Representable(r) && ValidTiles(2, r, tiles, 0, 0) && PromptTiles(tiles)
  }

  function EncodingNumber(q: Rectangle): byte
  {
    match q
    case RawRectangle(_, _) => 0
    case CopyRectangle(_, _, _) => 1
    case HextileRectangle(_, _) => 5
  }

  function EncodeRectangleHeader(q: Rectangle): (e: seq<byte>)
    requires ValidRectangle(q)
    ensures |e| == 12
  {
    BigEndian(q.area.x) + BigEndian(q.area.y) + BigEndian(q.area.w) + BigEndian(q.area.h) + [0, 0, 0, EncodingNumber(q)]
  }

  function EncodeRectangleBody(q: Rectangle): seq<byte>
    requires ValidRectangle(q)
  {
    match q
    case RawRectangle(_, data) => data
    case CopyRectangle(_, x, y) => BigEndian(x) + BigEndian(y)
    case HextileRectangle(r, tiles) => EncodeTiles(2, r, tiles, 0, 0)
  }

  /** The picture of one rectangle. This client shows hextile rectangles only: raw and CopyRect
      rectangles are consumed and dropped. */
  function PaintRectangle(p: Panel, c: Carry, q: Rectangle): Panel
    requires ValidRectangle(q)
  {
    if q.HextileRectangle? then PaintTiles(p, q.area, c, q.tiles, 0, 0) else p
  }

  function CarryRectangle(c: Carry, q: Rectangle): Carry
  {
    if q.HextileRectangle? then CarryThrough(c, q.tiles) else c
  }

  /** The state in which the body of a rectangle is read. */
  function HeaderState(s: Rx, q: Rectangle): Rx
    requires ValidRectangle(q) && s.rectangleCount > 0
  {
    var t := s.(rectangleCount := s.rectangleCount - 1,
                x0 := q.area.x, x1 := Add16(q.area.x, q.area.w), y0 := q.area.y, y1 := Add16(q.area.y, q.area.h));
    match q
    case RawRectangle(r, _) => t.(pixelCount := RawCount(r.w, r.h), rect := OutBounds)
    case CopyRectangle(_, _, _) => t.(rect := CopyRect)
    case HextileRectangle(_, _) => t.(rect := HextileRect, tile := TileInit)
  }

  lemma RunRectangleHeader(s: Rx, q: Rectangle, rest: seq<byte>)
    requires ValidRectangle(q) && s.phase == ProcessingUpdate && s.rect == RectIdle && s.rectangleCount > 0
    ensures Run(s, EncodeRectangleHeader(q) + rest) == Run(HeaderState(s, q), rest)
  {
    var e := EncodeRectangleHeader(q);
    var b := e + rest;
    DropPrefix(e, rest);
    assert b[..12] == e;
    assert b[0] == e[0] && b[1] == e[1] && b[2] == e[2] && b[3] == e[3] && b[4] == e[4] && b[5] == e[5];
    assert b[6] == e[6] && b[7] == e[7] && b[8] == e[8] && b[9] == e[9] && b[10] == e[10] && b[11] == e[11];
    RunMove(s, b, HeaderState(s, q), 12);
  }

  /** One rectangle is consumed exactly and shown exactly, whatever its encoding. */
  lemma RunRectangle(s: Rx, q: Rectangle)
    requires ValidRectangle(q) && s.phase == ProcessingUpdate && s.rect == RectIdle && s.rectangleCount > 0
    ensures var e := Run(s, EncodeRectangleHeader(q) + EncodeRectangleBody(q));
            && e.Quiet? && e.rest == []
            && Between(e.st, s.rectangleCount - 1)
            && e.st.panel == PaintRectangle(s.panel, CarryOf(s), q)
            && CarryOf(e.st) == CarryRectangle(CarryOf(s), q)
  {
    var body := EncodeRectangleBody(q);
    var t := HeaderState(s, q);
    RunRectangleHeader(s, q, body);
    match q
    case RawRectangle(r, data) =>
      RawCountExact(r.w, r.h);
      RunDrop(t, data, []);
      assert data + [] == data;
      RunBetween(t.(pixelCount := 0, rect := RectIdle));
    case CopyRectangle(_, _, _) =>
      RunMove(t, body, t.(rect := RectIdle), 4);
      RunBetween(t.(rect := RectIdle));
    case HextileRectangle(r, tiles) =>
      FirstTile(t, r, body);
      RunMove(t, body, Step(t, body).next, 0);
      assert body[0..] == body;
      RunTiles(Step(t, body).next, r, tiles, 0, 0);
  }

  // ----- Framebuffer updates -----

  predicate ValidRectangles(qs: seq<Rectangle>)
  {
    forall k :: 0 <= k < |qs| ==> ValidRectangle(qs[k])
  }

  function EncodeRectangles(qs: seq<Rectangle>): seq<byte>
    requires ValidRectangles(qs)
  {
    if qs == [] then []
    else (EncodeRectangleHeader(qs[0]) + EncodeRectangleBody(qs[0])) + EncodeRectangles(qs[1..])
  }

  function PaintRectangles(p: Panel, c: Carry, qs: seq<Rectangle>): Panel
    requires ValidRectangles(qs)
    decreases |qs|
  {
    if qs == [] then p else PaintRectangles(PaintRectangle(p, c, qs[0]), CarryRectangle(c, qs[0]), qs[1..])
  }

  function CarryRectangles(c: Carry, qs: seq<Rectangle>): Carry
    decreases |qs|
  {
    if qs == [] then c else CarryRectangles(CarryRectangle(c, qs[0]), qs[1..])
  }

  lemma {:induction false} RunRectangles(s: Rx, qs: seq<Rectangle>)
    requires ValidRectangles(qs) && s.phase == ProcessingUpdate && s.rect == RectIdle && s.rectangleCount == |qs|
    ensures var e := Run(s, EncodeRectangles(qs));
            && e.Quiet? && e.rest == []
            && e.st.phase == ConnectedRefresh && e.st.rectangleCount == 0
            && e.st.panel == PaintRectangles(s.panel, CarryOf(s), qs)
            && CarryOf(e.st) == CarryRectangles(CarryOf(s), qs)
    decreases |qs|
  {
    if qs == [] {
      RunBetween(s);
    } else {
      var first := EncodeRectangleHeader(qs[0]) + EncodeRectangleBody(qs[0]);
      var more := EncodeRectangles(qs[1..]);
      RunRectangle(s, qs[0]);
      RunSplit(s, first, more);
      var t := Run(s, first).st;
      assert [] + more == more;
      if qs[1..] == [] {
        AtRest(t);
      } else {
        RunRectangles(t, qs[1..]);
      }
    }
  }

  datatype Update = Update(padding: byte, rectangles: seq<Rectangle>)

  predicate ValidUpdate(u: Update)
  {
    |u.rectangles| < 0x1_0000 && ValidRectangles(u.rectangles)
  }

  predicate ValidUpdates(us: seq<Update>)
  {
    us == [] || (ValidUpdate(us[0]) && ValidUpdates(us[1..]))
  }

  function EncodeUpdate(u: Update): seq<byte>
    requires ValidUpdate(u)
  {
    ([0, u.padding] + BigEndian(|u.rectangles|)) + EncodeRectangles(u.rectangles)
  }

  /** Waiting for a framebuffer update. */
  predicate AwaitsUpdate(s: Rx)
  {
    s.phase == WaitUpdate || s.phase == ConnectedRefresh
  }

  /** Exact consumption: a complete framebuffer update is used to its last byte, whatever follows
      it is left for later, and the client is back to asking for a refresh with the update shown. */
  lemma RunUpdate(s: Rx, u: Update, next: seq<byte>)
    requires ValidUpdate(u) && AwaitsUpdate(s)
    ensures var e := Run(s, EncodeUpdate(u));
            && e.Quiet? && e.rest == []
            && e.st.phase == ConnectedRefresh && e.st.rectangleCount == 0
            && e.st.panel == PaintRectangles(s.panel, CarryOf(s), u.rectangles)
            && CarryOf(e.st) == CarryRectangles(CarryOf(s), u.rectangles)
            && Run(s, EncodeUpdate(u) + next) == Run(e.st, next)
  {
    var head := [0, u.padding] + BigEndian(|u.rectangles|);
    var body := EncodeRectangles(u.rectangles);
    var t := s.(rectangleCount := |u.rectangles|, rect := RectIdle, phase := ProcessingUpdate);
    DropPrefix(head, body);
    var b := head + body;
    assert b[0] == head[0] && b[2] == head[2] && b[3] == head[3];
    RunMove(s, b, t, 4);
    RunRectangles(t, u.rectangles);
    RunSplit(s, b, next);
    assert [] + next == next;
  }

  function EncodeUpdates(us: seq<Update>): seq<byte>
    requires ValidUpdates(us)
  {
    if us == [] then [] else EncodeUpdate(us[0]) + EncodeUpdates(us[1..])
  }

  function PaintUpdates(p: Panel, c: Carry, us: seq<Update>): Panel
    requires ValidUpdates(us)
    decreases |us|
  {
    if us == [] then p
    else PaintUpdates(PaintRectangles(p, c, us[0].rectangles), CarryRectangles(c, us[0].rectangles), us[1..])
  }

  lemma {:induction false} RunUpdates(s: Rx, us: seq<Update>)
    requires AwaitsUpdate(s) && ValidUpdates(us)
    ensures var e := Run(s, EncodeUpdates(us));
            && e.Quiet? && e.rest == [] && AwaitsUpdate(e.st)
            && e.st.panel == PaintUpdates(s.panel, CarryOf(s), us)
    decreases |us|
  {
    if us != [] {
      RunUpdate(s, us[0], EncodeUpdates(us[1..]));
      RunUpdates(Run(s, EncodeUpdate(us[0])).st, us[1..]);
    }
  }

  // ----- The greeting -----

  /** What a version 3.3 server says before its first update (RFC 6143, sections 7.1 to 7.3 and
      appendix A.1). With VNC authentication there is a 16-byte challenge and a result. */
  datatype Greeting = Greeting(version: seq<byte>, vncAuth: bool, challenge: seq<byte>, init: seq<byte>,
                               name: seq<byte>)

  predicate ValidGreeting(g: Greeting)
  {
    |g.version| == 12 && |g.challenge| == 16 && |g.init| == 20 && |g.name| < 0x1_0000
  }

  function Security(g: Greeting): (e: seq<byte>)
    requires ValidGreeting(g)
    ensures |e| == if g.vncAuth then 24 else 4
  {
    if g.vncAuth then [0, 0, 0, 2] + (g.challenge + [0, 0, 0, 0]) else [0, 0, 0, 1]
  }

  function ServerInit(g: Greeting): (e: seq<byte>)
    requires ValidGreeting(g)
    ensures |e| == 24 + |g.name|
  {
    (g.init + ([0, 0] + BigEndian(|g.name|))) + g.name
  }

  function EncodeGreeting(g: Greeting): seq<byte>
    requires ValidGreeting(g)
  {
    g.version + (Security(g) + ServerInit(g))
  }

  lemma RunSecurity(s: Rx, g: Greeting, rest: seq<byte>)
    requires ValidGreeting(g) && s.phase == WaitAuthType
    ensures Run(s, Security(g) + rest) == Run(s.(phase := WaitServerInit), rest)
  {
    if g.vncAuth {
      var tail := [0, 0, 0, 0] + rest;
      var b := [0, 0, 0, 2] + (g.challenge + tail);
      assert Security(g) + rest == b;
      DropPrefix([0, 0, 0, 2], g.challenge + tail);
      RunMove(s, b, s.(phase := WaitAuthWord), 4);
      DropPrefix(g.challenge, tail);
      RunMove(s.(phase := WaitAuthWord), g.challenge + tail, s.(phase := WaitAuthResponse), 16);
      DropPrefix([0, 0, 0, 0], rest);
      RunMove(s.(phase := WaitAuthResponse), tail, s.(phase := WaitServerInit), 4);
    } else {
      DropPrefix([0, 0, 0, 1], rest);
      RunMove(s, [0, 0, 0, 1] + rest, s.(phase := WaitServerInit), 4);
    }
  }

  lemma RunServerInit(s: Rx, g: Greeting)
    requires ValidGreeting(g) && s.phase == WaitServerInit
    ensures Run(s, ServerInit(g)) == Quiet(s.(phase := WaitUpdate, pixelCount := |g.name|), [])
  {
    var head := g.init + ([0, 0] + BigEndian(|g.name|));
    var b := head + g.name;
    DropPrefix(head, g.name);
    assert b[20] == 0 && b[21] == 0 && b[22] == BigEndian(|g.name|)[0] && b[23] == BigEndian(|g.name|)[1];
    var t := s.(phase := WaitServerName, pixelCount := |g.name|);
    assert Long(b, 20) == |g.name|;
    RunMove(s, b, t, 24);
    assert g.name[|g.name|..] == [];
    RunMove(t, g.name, t.(phase := Connected), |g.name|);
  }

  lemma RunGreeting(s: Rx, g: Greeting)
    requires ValidGreeting(g) && s.phase == NotConnected
    ensures Run(s, EncodeGreeting(g)) == Quiet(s.(phase := WaitUpdate, pixelCount := |g.name|), [])
  {
    var tail := Security(g) + ServerInit(g);
    DropPrefix(g.version, tail);
    RunMove(s, g.version + tail, s.(phase := WaitAuthType), 12);
    RunSecurity(s.(phase := WaitAuthType), g, ServerInit(g));
    RunServerInit(s.(phase := WaitServerInit), g);
  }

  // ----- Whole sessions -----

  datatype Session = Session(greeting: Greeting, updates: seq<Update>)

  predicate ValidSession(x: Session)
  {
    ValidGreeting(x.greeting) && ValidUpdates(x.updates)
  }

  function EncodeSession(x: Session): seq<byte>
    requires ValidSession(x)
  {
    EncodeGreeting(x.greeting) + EncodeUpdates(x.updates)
  }

  /** A whole session, delivered at once to a client that is not connected, is consumed to its
      last byte and leaves the picture of its updates. */
  lemma RunSession(s: Rx, x: Session)
    requires ValidSession(x) && s.phase == NotConnected
    ensures var e := Run(s, EncodeSession(x));
            && e.Quiet? && e.rest == [] && AwaitsUpdate(e.st)
            && e.st.panel == PaintUpdates(s.panel, CarryOf(s), x.updates)
  {
    RunGreeting(s, x.greeting);
    RunSplit(s, EncodeGreeting(x.greeting), EncodeUpdates(x.updates));
    assert [] + EncodeUpdates(x.updates) == EncodeUpdates(x.updates);
    RunUpdates(Run(s, EncodeGreeting(x.greeting)).st, x.updates);
  }

  /** The headers of the standard, byte by byte: an update has its kind, a padding byte and how many
      rectangles there are; a rectangle has its corner, its size and the number of its encoding. */
  lemma HeadersSpelt(u: Update, q: Rectangle)
    requires ValidUpdate(u) && ValidRectangle(q)
    ensures EncodeUpdate(u) ==
            ([0, u.padding] + [|u.rectangles| / 256, |u.rectangles| % 256]) + EncodeRectangles(u.rectangles)
    ensures EncodeRectangleHeader(q) ==
            [q.area.x / 256, q.area.x % 256] + [q.area.y / 256, q.area.y % 256] +
            [q.area.w / 256, q.area.w % 256] + [q.area.h / 256, q.area.h % 256] +
            [0, 0, 0, if q.RawRectangle? then 0 else if q.CopyRectangle? then 1 else 5]
  {
  }

  // ----- A rectangle that was not asked for -----

  /** The header of a rectangle in an encoding other than raw, CopyRect and hextile. */
  predicate ForeignHeader(b: seq<byte>)
  {
    |b| >= 12 && !(b[8] == b[9] == b[10] == 0 && (b[11] == 0 || b[11] == 1 || b[11] == 5))
  }

  /** What n calls with the same data make of it. */
  function Calls(s: Rx, b: seq<byte>, send: SendState, n: nat): CallEnd
    decreases n
  {
    if n == 0 then CallEnd(s, send, b, Starved)
    else
      var e := Call(s, b, send);
      Calls(e.st, e.rest, e.send, n - 1)
  }

  /** Every call counts such a rectangle as done without using its header; so after as many calls as
      there were rectangles left the next one ends the update, with the header still in front, to be
      read as the next message: as an update of as many rectangles as its y says if x is below 256,
      and as an unknown message, which ends the connection, otherwise. */
  lemma {:induction false} ForeignRectangle(s: Rx, b: seq<byte>, send: SendState)
    requires s.phase == ProcessingUpdate && s.rect == RectIdle && ForeignHeader(b)
    ensures var e := Calls(s, b, send, s.rectangleCount + 1);
            && e.rest == b && e.status == Starved && e.send == send
            && e.st.phase == ConnectedRefresh && e.st.rectangleCount == 0
            && e.st.panel == s.panel && CarryOf(e.st) == CarryOf(s)
    ensures var e := Calls(s, b, send, s.rectangleCount + 1);
            var o := Step(e.st, b);
            if b[0] == 0 then o.Move? && o.used == 4 && o.next.phase == ProcessingUpdate &&
                               o.next.rectangleCount == Word(b[2], b[3])
            else o.Reject? && o.next.phase == Dead
    decreases s.rectangleCount
  {
    var e := Call(s, b, send);
    if s.rectangleCount > 0 {
      ForeignRectangle(e.st, b, send);
    } else {
      assert Calls(e.st, b, send, 0) == CallEnd(e.st, send, b, Starved);
    }
  }
}
