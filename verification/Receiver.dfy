/** The receiving half of the VNC client as a machine of single steps.

    `Rx` holds the parser's statics and the panel. `Step` is the smallest thing the three nested
    state machines ever do: change state, consume one field, paint one subrectangle, or draw or
    drop one raw pixel. `Call` strings steps together the way one call of Vnc_ProcessVncBuffer
    does; `Run` goes on until nothing can be done without more data. */
module Receiver {
  import opened Bytes
  import opened Panels
  import opened Hextile

  type dword = n: nat | n < 0x1_0000_0000

  datatype Phase =
    | Dead
    | AuthFailed
    | NotConnected
    | WaitAuthType
    | WaitAuthWord
    | WaitAuthResponse
    | WaitServerInit
    | WaitServerName
    | Connected
    | ConnectedRefresh
    | WaitUpdate
    | ProcessingUpdate
  {
    /** Position in the source's enumeration, which the sender compares. */
    function Order(): nat
    {
      match this
      case Dead => 0
      case AuthFailed => 1
      case NotConnected => 2
      case WaitAuthType => 3
      case WaitAuthWord => 4
      case WaitAuthResponse => 5
      case WaitServerInit => 6
      case WaitServerName => 7
      case Connected => 8
      case ConnectedRefresh => 9
      case WaitUpdate => 10
      case ProcessingUpdate => 11
    }
  }

  datatype SendState =
    | SendInit
    | VersionSent
    | AuthWordSent
    | ClientInitSent
    | PixelFormatSent
    | EncodingsSent
    | RefreshSent

  datatype RectState = RectIdle | OutBounds | HextileRect | CopyRect

  datatype TileState = TileInit | TileDone | ParseHeader | DrawRaw | DropRaw | FillBuffer | DrawTile

  type tilebuf = b: seq<byte> | |b| == 512 witness seq(512, _ => 0)

  datatype Rx = Rx(
    phase: Phase,
    rect: RectState,
    tile: TileState,
    rectangleCount: word,
    pixelCount: dword,
    x0: word, y0: word, x1: word, y1: word,
    tileX: word, tileY: word, tileW: byte, tileH: byte,
    background: word, foreground: word,
    sub: byte,
    numSubrects: byte,
    buf: tilebuf,
    panel: Panel)

  /** What one step does: go on, end the call with work left, wait for data, refuse the stream
      (the call returns 0), report an error (-1), or leave the arrays' bounds. */
  datatype Outcome =
    | Move(next: Rx, used: nat)
    | Pause(next: Rx)
    | Wait(next: Rx)
    | Reject(next: Rx)
    | Error
    | Undefined

  /** Bounds the steps that can be taken without consuming a byte. */
  function Rank(s: Rx): nat
  {
    match s.phase
    case WaitServerName => 2
    case Connected => 1
    case ProcessingUpdate =>
      (match s.rect
       case RectIdle => 1
       case OutBounds => 2
       case CopyRect => 2
       case HextileRect =>
         match s.tile
         case ParseHeader => 2
         case TileInit => 3
         case TileDone => 3
         case DrawTile => 4
         case DrawRaw => 4
         case DropRaw => 4
         case FillBuffer => 5)
    case _ => 0
  }

  /** A 32-bit big-endian field. */
  function Long(b: seq<byte>, i: nat): dword
    requires i + 4 <= |b|
  {
    (b[i] as int) * 0x100_0000 + (b[i + 1] as int) * 0x1_0000 + (b[i + 2] as int) * 0x100 + b[i + 3] as int
  }

  function Step(s: Rx, b: seq<byte>): (r: Outcome)
    ensures r.Move? ==> r.used <= |b| && (r.used > 0 || Rank(r.next) < Rank(s))
    ensures r.Pause? ==> Rank(r.next) < Rank(s)
  {
    match s.phase
    case NotConnected =>
      if |b| >= 12 then Move(s.(phase := WaitAuthType), 12) else Wait(s)
    case WaitAuthType =>
      if |b| < 4 then Wait(s)
      else if b[3] == 2 then Move(s.(phase := WaitAuthWord), 4)
      else if b[3] == 1 then Move(s.(phase := WaitServerInit), 4)
      else Move(s.(phase := AuthFailed), 4)
    case WaitAuthWord =>
      if |b| >= 16 then Move(s.(phase := WaitAuthResponse), 16) else Wait(s)
    case WaitAuthResponse =>
      if |b| < 4 then Wait(s)
      else Move(s.(phase := if b[3] == 0 then WaitServerInit else AuthFailed), 4)
    case WaitServerInit =>
      if |b| < 24 then Wait(s)
      else Move(s.(phase := WaitServerName, pixelCount := Long(b, 20)), 24)
    case WaitServerName =>
      if |b| < s.pixelCount then Wait(s)
      else Move(s.(phase := Connected), s.pixelCount)
    case Connected =>
      Move(s.(phase := WaitUpdate), 0)
    case ConnectedRefresh => StepUpdateHeader(s, b)
    case WaitUpdate => StepUpdateHeader(s, b)
    case ProcessingUpdate => StepRect(s, b)
    case Dead => Error
    case AuthFailed => Error
  }

  function StepUpdateHeader(s: Rx, b: seq<byte>): (r: Outcome)
    requires s.phase == ConnectedRefresh || s.phase == WaitUpdate
    ensures r.Move? ==> r.used == 4 <= |b|
    ensures !r.Pause?
  {
    if |b| < 4 then Wait(s)
    else if b[0] != 0 then Reject(s.(phase := Dead))
    else Move(s.(rectangleCount := Word(b[2], b[3]), rect := RectIdle, phase := ProcessingUpdate), 4)
  }

  /** The 16-bit product of width and height as the source computes it: each factor is a signed
      16-bit value widened to 32 bits. */
  function RawCount(w: word, h: word): dword
  {
    (Widened(w) * Widened(h)) % 0x1_0000_0000
  }

  /** The counter and the window, which the source updates before it looks at the encoding. */
  function RectHeader(s: Rx, b: seq<byte>): Rx
    requires s.rectangleCount > 0 && |b| >= 12
  {
    s.(rectangleCount := s.rectangleCount - 1,
       x0 := Word(b[0], b[1]), x1 := Add16(Word(b[0], b[1]), Word(b[4], b[5])),
       y0 := Word(b[2], b[3]), y1 := Add16(Word(b[2], b[3]), Word(b[6], b[7])))
  }

  function StepRect(s: Rx, b: seq<byte>): (r: Outcome)
    requires s.phase == ProcessingUpdate
    ensures r.Move? ==> r.used <= |b| && (r.used > 0 || Rank(r.next) < Rank(s))
    ensures r.Pause? ==> Rank(r.next) < Rank(s)
  {
    match s.rect
    case RectIdle =>
      if s.rectangleCount == 0 then Pause(s.(phase := ConnectedRefresh))
      else if |b| < 12 then Wait(s)
      else
        var t := RectHeader(s, b);
        if b[8] != 0 || b[9] != 0 || b[10] != 0 then Reject(t)
        else if b[11] == 0 then
          Move(t.(pixelCount := RawCount(Word(b[4], b[5]), Word(b[6], b[7])), rect := OutBounds), 12)
        else if b[11] == 1 then Move(t.(rect := CopyRect), 12)
        else if b[11] == 5 then Move(t.(rect := HextileRect, tile := TileInit), 12)
        else Reject(t)
    case OutBounds =>
      // the byte count is doubled in 32 bits, so bit 31 of the pixel count is lost
      if s.pixelCount % 0x8000_0000 == 0 then Move(s.(pixelCount := 0, rect := RectIdle), 0)
      else if |b| >= 2 then Move(s.(pixelCount := s.pixelCount - 1), 2)
      else Wait(s)
    case CopyRect =>
      if |b| < 4 then Wait(s) else Move(s.(rect := RectIdle), 4)
    case HextileRect =>
      StepTile(s, b)
  }

  /** The extent of a tile that starts at pos in a rectangle that ends at end. */
  function TileExtent(pos: word, end: word): byte
  {
    (if end < Add16(pos, 16) then Sub16(end, pos) else 16) % 256
  }

  /** The test of the source: 16-bit sums against the window's last column and row. */
  predicate OnScreen(s: Rx)
  {
    Add16(s.tileX, s.tileW) <= SCREEN_WIDTH && Add16(s.tileY, s.tileH) <= SCREEN_HEIGHT
  }

  predicate Oversize(s: Rx)
  {
    s.tileW > 16 || s.tileH > 16
  }

  /** A 16-bit product widened to 32 bits with its sign. */
  function Widened(p: word): dword
  {
    if p < 0x8000 then p else p + 0xFFFF_0000
  }

  /** The pixels of the current tile, as the source multiplies them. */
  function TileSize(s: Rx): dword
  {
    CellsOfBytes(s.tileW, s.tileH);
    Widened(Cells(s.tileW, s.tileH))
  }

  function HeaderBytes(sub: byte): nat
  {
    (if BackgroundBit(sub) then 2 else 0) + (if ForegroundBit(sub) then 2 else 0) + (if SubrectsBit(sub) then 2 else 0)
  }

  function Filled(c: word): tilebuf
  {
    seq(512, k => if k % 2 == 0 then (c % 256) as byte else (c / 256) as byte)
  }

  predicate InSubrect(k: nat, x0: nat, y0: nat, x1: nat, y1: int)
  {
    y0 <= k / 32 <= y1 && x0 <= (k % 32) / 2 <= x1
  }

  function Painted(buf: tilebuf, x0: nat, y0: nat, x1: nat, y1: int, c: word): tilebuf
  {
    seq(512, k requires 0 <= k < 512 =>
      if InSubrect(k, x0, y0, x1, y1) then if k % 2 == 0 then (c % 256) as byte else (c / 256) as byte
      else buf[k])
  }

  function StepTile(s: Rx, b: seq<byte>): (r: Outcome)
    requires s.phase == ProcessingUpdate && s.rect == HextileRect
    ensures r.Move? ==> r.used <= |b| && (r.used > 0 || Rank(r.next) < Rank(s))
    ensures r.Pause? ==> Rank(r.next) < Rank(s)
  {
    match s.tile
    case TileInit =>
      Move(s.(tileX := s.x0, tileY := s.y0,
              tileW := TileExtent(s.x0, s.x1), tileH := TileExtent(s.y0, s.y1),
              tile := ParseHeader), 0)
    case TileDone =>
      var x := Add16(s.tileX, s.tileW);
      if x != s.x1 then
        Move(s.(tileX := x, tileW := TileExtent(x, s.x1), tile := ParseHeader), 0)
      else if Add16(s.tileY, s.tileH) == s.y1 then
        Pause(s.(tileX := x, rect := RectIdle, tile := TileInit))
      else
        var y := Add16(s.tileY, s.tileH);
        Move(s.(tileX := s.x0, tileY := y, tileH := TileExtent(y, s.y1),
                tileW := TileExtent(s.x0, s.x1), tile := ParseHeader), 0)
    case ParseHeader =>
      if |b| == 0 then Wait(s)
      else if |b| - 1 < HeaderBytes(b[0]) then Wait(s.(sub := b[0]))
      else StepHeader(s.(sub := b[0]), b)
    case DropRaw =>
      if s.pixelCount % 0x8000_0000 == 0 then Move(s.(pixelCount := 0, tile := TileDone), 0)
      else if |b| >= 2 then Move(s.(pixelCount := s.pixelCount - 1), 2)
      else Wait(s)
    case DrawRaw =>
      if s.pixelCount % 0x8000_0000 == 0 then Move(s.(pixelCount := 0, tile := TileDone), 0)
      else if |b| >= 2 then Move(s.(pixelCount := s.pixelCount - 1, panel := Put(s.panel, Word(b[1], b[0]))), 2)
      else Wait(s)
    case FillBuffer =>
      if s.numSubrects == 0 then Move(s.(tile := DrawTile), 0) else StepSubrect(s, b)
    case DrawTile =>
      if !OnScreen(s) then Move(s.(tile := TileDone), 0)
      else if Oversize(s) then Undefined
      else
        Move(s.(tile := TileDone,
                panel := PutAll(SetWindow(s.panel, s.tileX, s.tileY, s.tileW, s.tileH),
                                TileCells(s.buf, s.tileW, s.tileH))), 0)
  }

  /** The subencoding byte and the optional fields behind it, all of them in the buffer. */
  function StepHeader(s: Rx, b: seq<byte>): (r: Outcome)
    requires |b| >= 1 + HeaderBytes(s.sub)
    ensures r.Move? ==> 0 < r.used <= |b|
    ensures !r.Pause? && !r.Wait?
  {
    if RawBit(s.sub) then
      if OnScreen(s) then
        Move(s.(pixelCount := TileSize(s), tile := DrawRaw,
                panel := SetWindow(s.panel, s.tileX, s.tileY, s.tileW, s.tileH)), 1)
      else
        Move(s.(pixelCount := TileSize(s), tile := DropRaw), 1)
    else
      var f := if BackgroundBit(s.sub) then 3 else 1;
      var n := if ForegroundBit(s.sub) then f + 2 else f;
      var bg := if BackgroundBit(s.sub) then Word(b[2], b[1]) else s.background;
      var fg := if ForegroundBit(s.sub) then Word(b[f + 1], b[f]) else s.foreground;
      var t := s.(background := bg, foreground := fg, buf := Filled(bg), tile := FillBuffer);
      if SubrectsBit(s.sub) then Move(t.(numSubrects := b[n]), n + 1)
      else Move(t.(numSubrects := 0), n)
  }

  /** One subrectangle into the tile buffer. */
  function StepSubrect(s: Rx, b: seq<byte>): (r: Outcome)
    requires s.numSubrects > 0
    ensures r.Move? ==> 0 < r.used <= |b|
    ensures !r.Pause?
  {
    var n := if ColouredBit(s.sub) then 2 else 0;
    if |b| < n + 2 then Wait(s)
    else
      var c := if ColouredBit(s.sub) then Word(b[1], b[0]) else s.foreground;
      var x0, y0 := b[n] / 16, b[n] % 16;
      var x1, y1 := x0 + b[n + 1] / 16, y0 + b[n + 1] % 16;
      if x1 > 15 || y1 > 15 then Undefined
      else Move(s.(buf := Painted(s.buf, x0, y0, x1, y1, c), numSubrects := s.numSubrects - 1), n + 2)
  }

  // ----- One call -----

  datatype Status = Starved | Paused | Rejected | Failed | OutOfArray

  datatype CallEnd = CallEnd(st: Rx, send: SendState, rest: seq<byte>, status: Status)

  /** Learning that the server wants no authentication skips the authentication word. */
  function SendAfter(s: Rx, t: Rx, send: SendState): SendState
  {
    if s.phase == WaitAuthType && t.phase == WaitServerInit then AuthWordSent else send
  }

  /** Everything one call does with a buffer: steps until one of them returns 0 or -1. */
  function Call(s: Rx, b: seq<byte>, send: SendState): CallEnd
    decreases |b|, Rank(s)
  {
    match Step(s, b)
    case Move(t, used) => Call(t, b[used..], SendAfter(s, t, send))
    case Pause(t) => CallEnd(t, send, b, Paused)
    case Wait(t) => CallEnd(t, send, b, Starved)
    case Reject(t) => CallEnd(t, send, b, Rejected)
    case Error => CallEnd(s, send, b, Failed)
    case Undefined => CallEnd(s, send, b, OutOfArray)
  }

  // ----- To quiescence -----

  /** Quiet: every delivered byte that can be used has been, `rest` is left over.
      Fault: the stream was refused with `rest` not consumed. */
  datatype Rest = Quiet(st: Rx, rest: seq<byte>) | Fault(rest: seq<byte>)

  function Run(s: Rx, b: seq<byte>): Rest
    decreases |b|, Rank(s)
  {
    match Step(s, b)
    case Move(t, used) => Run(t, b[used..])
    case Pause(t) => Run(t, b)
    case Wait(t) => Quiet(t, b)
    case Reject(_) => Fault(b)
    case Error => Fault(b)
    case Undefined => Fault(b)
  }

  lemma StepTileStable(s: Rx, a: seq<byte>, b: seq<byte>)
    requires s.phase == ProcessingUpdate && s.rect == HextileRect
    ensures !StepTile(s, a).Wait? ==> StepTile(s, a + b) == StepTile(s, a)
  {
    if s.tile == ParseHeader && a != [] {
      assert (a + b)[0] == a[0];
      if |a| > HeaderBytes(a[0]) {
        assert StepHeader(s.(sub := a[0]), a + b) == StepHeader(s.(sub := a[0]), a);
      }
    }
  }

  lemma StepRectStable(s: Rx, a: seq<byte>, b: seq<byte>)
    requires s.phase == ProcessingUpdate
    ensures !StepRect(s, a).Wait? ==> StepRect(s, a + b) == StepRect(s, a)
  {
    if s.rect == HextileRect {
      StepTileStable(s, a, b);
    }
  }

  lemma RunMove(s: Rx, b: seq<byte>, t: Rx, used: nat)
    requires Step(s, b) == Move(t, used)
    ensures Run(s, b) == Run(t, b[used..])
  {
  }

  /** More data never changes a step that did not have to wait. */
  lemma StepStable(s: Rx, a: seq<byte>, b: seq<byte>)
    ensures !Step(s, a).Wait? ==> Step(s, a + b) == Step(s, a)
  {
    if s.phase == ProcessingUpdate {
      StepRectStable(s, a, b);
    }
  }

  /** Waiting changes nothing that the next step reads. */
  lemma WaitHarmless(s: Rx, a: seq<byte>, b: seq<byte>)
    requires Step(s, a).Wait?
    ensures var t := Step(s, a).next;
            && (t == s || (s.phase == ProcessingUpdate && s.rect == HextileRect && s.tile == ParseHeader &&
                           a != [] && t == s.(sub := a[0])))
            && Step(t, a + b) == Step(s, a + b) && Step(t, a) == Wait(t)
  {
    var t := Step(s, a).next;
    if t != s {
      assert (a + b)[0] == a[0] && t.(sub := a[0]) == s.(sub := a[0]);
    }
  }

  /** Data may arrive in two portions: the run of the whole is the run of the second portion,
      behind what the first left over, from where the first stopped. */
  lemma {:induction false} RunSplit(s: Rx, a: seq<byte>, b: seq<byte>)
    ensures Run(s, a + b) ==
            match Run(s, a)
            case Quiet(t, rest) => Run(t, rest + b)
            case Fault(rest) => Fault(rest + b)
    decreases |a|, Rank(s)
  {
    StepStable(s, a, b);
    match Step(s, a)
    case Move(t, used) =>
      assert (a + b)[used..] == a[used..] + b;
      RunSplit(t, a[used..], b);
    case Pause(t) =>
      RunSplit(t, a, b);
    case Wait(t) =>
      WaitHarmless(s, a, b);
    case _ =>
  }

  /** A call is a stretch of the run. */
  lemma {:induction false} CallInRun(s: Rx, b: seq<byte>, send: SendState)
    ensures var e := Call(s, b, send);
            match e.status
            case Starved => Run(s, b) == Quiet(e.st, e.rest) && Run(e.st, e.rest) == Quiet(e.st, e.rest)
            case Paused => Run(s, b) == Run(e.st, e.rest) &&
                           (|e.rest| < |b| || (e.rest == b && Rank(e.st) < Rank(s)))
            case _ => Run(s, b).Fault?
    decreases |b|, Rank(s)
  {
    match Step(s, b)
    case Move(t, used) => CallInRun(t, b[used..], SendAfter(s, t, send));
    case Wait(t) =>
      WaitHarmless(s, b, []);
      assert b + [] == b;
    case _ =>
  }

  /** The most bytes that can be left waiting in a state. */
  function Residue(s: Rx): nat
  {
    match s.phase
    case NotConnected => 11
    case WaitAuthType => 3
    case WaitAuthWord => 15
    case WaitAuthResponse => 3
    case WaitServerInit => 23
    case WaitServerName => if s.pixelCount == 0 then 0 else s.pixelCount - 1
    case ProcessingUpdate =>
      (match s.rect
       case RectIdle => 11
       case OutBounds => 1
       case CopyRect => 3
       case HextileRect =>
         match s.tile
         case ParseHeader => 6
         case FillBuffer => 3
         case _ => 1)
    case _ => 3
  }

  /** At quiescence the unused remainder is small: at most 23 bytes before the server's name, less
      than the name while waiting for it, and at most 11 once connected. */
  lemma {:induction false} BoundedResidue(s: Rx, b: seq<byte>)
    requires Run(s, b).Quiet?
    ensures var q := Run(s, b);
            && |q.rest| <= Residue(q.st)
            && (q.st.phase != WaitServerName ==> |q.rest| <= 23)
            && (q.st.phase == WaitServerName ==> |q.rest| < q.st.pixelCount)
            && (q.st.phase.Order() > WaitServerName.Order() ==> |q.rest| <= 11)
    decreases |b|, Rank(s)
  {
    match Step(s, b)
    case Move(t, used) => BoundedResidue(t, b[used..]);
    case Pause(t) => BoundedResidue(t, b);
    case _ =>
  }
}
