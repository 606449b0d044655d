/** The client as the source writes it: file-level statics changed in place by three nested state
    machines that share a data pointer, painting through the SPI driver.

    Every method says what is left of the current call. `Call(Abs(), Data())` is what the call
    will have done when it ends; a method that returns with more to do has not changed it, and a
    method that ends the call has reached it. */
module VncClients {
  import opened Bytes
  import opened Panels
  import opened Hextile
  import opened Receiver

  // ----- Stretches of a call -----

  lemma CallMove(s: Rx, b: seq<byte>, send: SendState, t: Rx, used: nat)
    requires Step(s, b) == Move(t, used)
    ensures Call(s, b, send) == Call(t, b[used..], SendAfter(s, t, send))
  {
  }

  lemma CallStarved(s: Rx, b: seq<byte>, send: SendState)
    requires Step(s, b).Wait?
    ensures Call(s, b, send) == CallEnd(Step(s, b).next, send, b, Starved)
  {
  }

  lemma CallUndefined(s: Rx, b: seq<byte>, send: SendState)
    requires Step(s, b).Undefined?
    ensures Call(s, b, send).status == OutOfArray
  {
  }

  /** A step that uses no data. */
  lemma CallStay(s: Rx, b: seq<byte>, send: SendState, t: Rx)
    requires Step(s, b) == Move(t, 0) && s.phase != WaitAuthType
    ensures Call(s, b, send) == Call(t, b, send)
  {
    assert b[0..] == b;
  }

  predicate Dropping(s: Rx)
  {
    s.phase == ProcessingUpdate && (s.rect == OutBounds || (s.rect == HextileRect && s.tile == DropRaw))
  }

  /** The pixels that a count stands for once doubled in 32 bits. */
  function Low31(n: dword): (k: dword)
    ensures k <= n
  {
    n % 0x8000_0000
  }

  lemma CountDown(n: dword, k: nat)
    requires 0 < k <= Low31(n)
    ensures (n - (k - 1)) % 0x8000_0000 != 0
  {
  }

  lemma Remainder(n: dword, k: nat)
    requires k <= Low31(n)
    ensures Low31(n - k) == Low31(n) - k
  {
  }

  function Twice(n: dword): dword
  {
    (n * 2) % 0x1_0000_0000
  }

  /** Doubling in 32 bits forgets the top bit of a count. */
  lemma Doubled(n: dword)
    ensures Twice(n) == 2 * Low31(n)
  {
  }

  /** Dropping k pixels one at a time is dropping k pixels at once. */
  lemma CallDropNext(s: Rx, b: seq<byte>, send: SendState, k: nat)
    requires Dropping(s) && 0 < k <= Low31(s.pixelCount) && 2 * k <= |b|
    ensures Call(s.(pixelCount := s.pixelCount - (k - 1)), b[2 * (k - 1)..], send) ==
            Call(s.(pixelCount := s.pixelCount - k), b[2 * k..], send)
  {
    hide Low31;
    var t, rest := s.(pixelCount := s.pixelCount - (k - 1)), b[2 * (k - 1)..];
    DropTwice(b, 2 * (k - 1), 2);
    CountDown(s.pixelCount, k);
    CallMove(t, rest, send, s.(pixelCount := s.pixelCount - k), 2);
  }

  lemma {:induction false} CallDrop(s: Rx, b: seq<byte>, send: SendState, k: nat)
    requires Dropping(s) && k <= Low31(s.pixelCount) && 2 * k <= |b|
    ensures Call(s, b, send) == Call(s.(pixelCount := s.pixelCount - k), b[2 * k..], send)
    decreases k
  {
    hide Call, Step, Low31;
    if k == 0 {
      assert b[0..] == b;
    } else {
      CallDrop(s, b, send, k - 1);
      CallDropNext(s, b, send, k);
    }
  }

  lemma CallDropped(s: Rx, b: seq<byte>, send: SendState)
    requires Dropping(s) && Low31(s.pixelCount) == 0
    ensures Call(s, b, send) ==
            Call(if s.rect == OutBounds then s.(pixelCount := 0, rect := RectIdle)
                 else s.(pixelCount := 0, tile := TileDone), b, send)
  {
    assert b[0..] == b;
  }

  lemma CallDropStarved(s: Rx, b: seq<byte>, send: SendState)
    requires Dropping(s) && Low31(s.pixelCount) > 0 && |b| < 2
    ensures Call(s, b, send) == CallEnd(s, send, b, Starved)
  {
    CallStarved(s, b, send);
  }

  /** Dropping all that can be dropped: either the rest of the pixels or the rest of the data. */
  lemma CallDropAll(s: Rx, b: seq<byte>, send: SendState)
    requires Dropping(s)
    ensures var n := Low31(s.pixelCount);
            if 2 * n <= |b| then
              Call(s, b, send) == Call(if s.rect == OutBounds then s.(pixelCount := 0, rect := RectIdle)
                                       else s.(pixelCount := 0, tile := TileDone), b[2 * n..], send)
            else
              Call(s, b, send) ==
              CallEnd(s.(pixelCount := s.pixelCount - |b| / 2), send, b[2 * (|b| / 2)..], Starved)
  {
    hide Call, Step, Low31;
    var n := Low31(s.pixelCount);
    if 2 * n <= |b| {
      CallDrop(s, b, send, n);
      Remainder(s.pixelCount, n);
      CallDropped(s.(pixelCount := s.pixelCount - n), b[2 * n..], send);
    } else {
      var k := |b| / 2;
      CallDrop(s, b, send, k);
      Remainder(s.pixelCount, k);
      CallDropStarved(s.(pixelCount := s.pixelCount - k), b[2 * k..], send);
    }
  }

  lemma CallDropTile(s: Rx, b: seq<byte>, send: SendState)
    requires s.phase == ProcessingUpdate && s.rect == HextileRect && s.tile == DropRaw
    ensures var n := Low31(s.pixelCount);
            if 2 * n <= |b| then Call(s, b, send) == Call(s.(pixelCount := 0, tile := TileDone), b[2 * n..], send)
            else
              Call(s, b, send) ==
              CallEnd(s.(pixelCount := s.pixelCount - |b| / 2), send, b[2 * (|b| / 2)..], Starved)
  {
    hide Call, Low31;
    CallDropAll(s, b, send);
  }

  lemma CallDrawOne(s: Rx, b: seq<byte>, send: SendState)
    requires s.phase == ProcessingUpdate && s.rect == HextileRect && s.tile == DrawRaw
    requires s.pixelCount % 0x8000_0000 != 0 && 2 <= |b|
    ensures Call(s, b, send) ==
            Call(s.(pixelCount := s.pixelCount - 1, panel := Put(s.panel, Word(b[1], b[0]))), b[2..], send)
  {
  }

  lemma PutLast(p: Panel, b: seq<byte>, k: nat)
    requires 0 < k && 2 * k <= |b|
    ensures PutAll(p, PixelsOf(b[..2 * k])) ==
              Put(PutAll(p, PixelsOf(b[..2 * (k - 1)])), Word(b[2 * k - 1], b[2 * k - 2]))
  {
    var px := PixelsOf(b[..2 * (k - 1)]);
    var c := Word(b[2 * k - 1], b[2 * k - 2]);
    var q := PutAll(p, px);
    PixelsOfLast(b, k);
    PutAllAppend(p, px, [c]);
    assert PutAll(q, [c]) == PutAll(Put(q, c), []);
  }

  /** The state after the first k pixels of b are drawn. */
  function PixelsPut(s: Rx, b: seq<byte>, k: nat): Rx
    requires k <= s.pixelCount && 2 * k <= |b|
  {
    s.(pixelCount := s.pixelCount - k, panel := PutAll(s.panel, PixelsOf(b[..2 * k])))
  }

  lemma DrawnNone(s: Rx, b: seq<byte>)
    ensures PixelsPut(s, b, 0) == s
  {
    assert PixelsOf(b[..0]) == [];
  }

  lemma DrawnMore(s: Rx, b: seq<byte>, k: nat)
    requires 0 < k <= s.pixelCount && 2 * k <= |b|
    ensures var t := PixelsPut(s, b, k - 1);
            PixelsPut(s, b, k) == t.(pixelCount := t.pixelCount - 1,
                                 panel := Put(t.panel, Word(b[2 * k - 1], b[2 * k - 2])))
  {
    PutLast(s.panel, b, k);
  }

  lemma CallDrawNext(s: Rx, b: seq<byte>, send: SendState, k: nat)
    requires s.phase == ProcessingUpdate && s.rect == HextileRect && s.tile == DrawRaw
    requires 0 < k <= Low31(s.pixelCount) && 2 * k <= |b|
    ensures Call(PixelsPut(s, b, k - 1), b[2 * (k - 1)..], send) == Call(PixelsPut(s, b, k), b[2 * k..], send)
  {
    var t, rest := PixelsPut(s, b, k - 1), b[2 * (k - 1)..];
    assert PixelsPut(s, b, k) == t.(pixelCount := t.pixelCount - 1, panel := Put(t.panel, Word(rest[1], rest[0]))) by {
      DrawnMore(s, b, k);
    }
    assert rest[2..] == b[2 * k..] by {
      DropTwice(b, 2 * (k - 1), 2);
    }
    CountDown(s.pixelCount, k);
    CallDrawOne(t, rest, send);
  }

  /** Drawing k pixels one at a time is drawing k pixels at once. */
  lemma {:induction false} CallDraw(s: Rx, b: seq<byte>, send: SendState, k: nat)
    requires s.phase == ProcessingUpdate && s.rect == HextileRect && s.tile == DrawRaw
    requires k <= Low31(s.pixelCount) && 2 * k <= |b|
    ensures Call(s, b, send) == Call(PixelsPut(s, b, k), b[2 * k..], send)
    decreases k
  {
    hide Call, Step, PixelsPut, Low31;
    if k == 0 {
      assert b[0..] == b;
      DrawnNone(s, b);
    } else {
      CallDraw(s, b, send, k - 1);
      CallDrawNext(s, b, send, k);
    }
  }

  /** Shifting four bytes into a 32-bit count one after the other. */
  lemma Horner(a: byte, b: byte, c: byte, d: byte)
    ensures (((a * 0x100) % 0x1_0000_0000 + b) * 0x100) % 0x1_0000_0000 == a * 0x1_0000 + b * 0x100
    ensures ((a * 0x1_0000 + b * 0x100 + c) * 0x100) % 0x1_0000_0000 == a * 0x100_0000 + b * 0x1_0000 + c * 0x100
  {
  }

  /** Where the optional fields of a tile header end. */
  function FieldEnds(sub: byte): (int, int, int)
  {
    var f := if BackgroundBit(sub) then 3 else 1;
    var n := if ForegroundBit(sub) then f + 2 else f;
    (f, n, if SubrectsBit(sub) then n + 1 else n)
  }

  lemma HeaderFields(s: Rx, b: seq<byte>)
    requires !RawBit(s.sub) && |b| >= 1 + HeaderBytes(s.sub)
    ensures var (f, n, m) := FieldEnds(s.sub);
            && 1 <= f <= n <= m <= |b|
            && (BackgroundBit(s.sub) ==> f == 3) && (!BackgroundBit(s.sub) ==> f == 1)
            && (ForegroundBit(s.sub) ==> n == f + 2) && (!ForegroundBit(s.sub) ==> n == f)
            && (SubrectsBit(s.sub) ==> m == n + 1) && (!SubrectsBit(s.sub) ==> m == n)
            && (SubrectsBit(s.sub) ==> n + 1 <= |b|)
            && var bg := if BackgroundBit(s.sub) then Word(b[2], b[1]) else s.background;
            StepHeader(s, b) ==
            Move(s.(background := bg, foreground := if ForegroundBit(s.sub) then Word(b[f + 1], b[f]) else s.foreground,
                    buf := Filled(bg), tile := FillBuffer, numSubrects := if SubrectsBit(s.sub) then b[n] else 0), m)
  {
  }

  /** What follows a finished tile. */
  lemma DoneStep(s: Rx, b: seq<byte>)
    requires s.phase == ProcessingUpdate && s.rect == HextileRect && s.tile == TileDone
    ensures var x, y := Add16(s.tileX, s.tileW), Add16(s.tileY, s.tileH);
            Step(s, b) ==
            if x != s.x1 then Move(s.(tileX := x, tileW := TileExtent(x, s.x1), tile := ParseHeader), 0)
            else if y == s.y1 then Pause(s.(tileX := x, rect := RectIdle, tile := TileInit))
            else Move(s.(tileX := s.x0, tileY := y, tileH := TileExtent(y, s.y1), tileW := TileExtent(s.x0, s.x1),
                         tile := ParseHeader), 0)
  {
    hide Add16, Sub16, TileExtent;
  }

  lemma TileStep(s: Rx, b: seq<byte>)
    requires s.phase == ProcessingUpdate && s.rect == HextileRect
    ensures Step(s, b) == StepTile(s, b)
  {
    hide StepTile;
  }

  lemma SubrectStep(s: Rx, b: seq<byte>)
    requires s.phase == ProcessingUpdate && s.rect == HextileRect && s.tile == FillBuffer && s.numSubrects > 0
    ensures Step(s, b) == StepSubrect(s, b)
  {
    hide StepSubrect;
  }

  lemma HeaderStep(s: Rx, b: seq<byte>)
    requires s.phase == ProcessingUpdate && s.rect == HextileRect && s.tile == ParseHeader
    ensures Step(s, b) ==
            if b == [] then Wait(s)
            else if |b| - 1 < HeaderBytes(b[0]) then Wait(s.(sub := b[0]))
            else StepHeader(s.(sub := b[0]), b)
  {
    hide StepHeader, HeaderBytes;
  }

  class VncClient {
    var vncState: Phase
    var vncSendState: SendState
    var pixelProcessorState: RectState
    var hextileState: TileState
    var rectangleCount: word
    var interPixelCount: dword
    var updateWindowX0: word
    var updateWindowY0: word
    var updateWindowX1: word
    var updateWindowY1: word
    var tileX: word
    var tileY: word
    var tileW: byte
    var tileH: byte
    var background: word
    var foreground: word
    var subencodingByte: byte
    var numSubrects: byte
    const hextileBuffer: array<byte>
    const lcd: SpiLcd

    // the incoming data: dataSize bytes of buffer from dataPtr on
    var buffer: array<byte>
    var dataPtr: nat
    var dataSize: nat

    ghost predicate Valid()
      reads this, lcd
    {
      && lcd.Valid()
      && hextileBuffer.Length == 512
      && buffer != hextileBuffer
      && dataPtr + dataSize <= buffer.Length
    }

    ghost function Abs(): Rx
      requires hextileBuffer.Length == 512
      reads this, hextileBuffer, lcd
    {
      Rx(vncState, pixelProcessorState, hextileState, rectangleCount, interPixelCount,
         updateWindowX0, updateWindowY0, updateWindowX1, updateWindowY1,
         tileX, tileY, tileW, tileH, background, foreground,
         subencodingByte, numSubrects, hextileBuffer[..], lcd.Shown())
    }

    /** The bytes still to be read in this call. */
    ghost function Data(): (d: seq<byte>)
      requires dataPtr + dataSize <= buffer.Length
      reads `buffer, `dataPtr, `dataSize, buffer
      ensures |d| == dataSize
    {
      buffer[dataPtr..dataPtr + dataSize]
    }

    /** What the current call will have done. */
    ghost function Ahead(): CallEnd
      requires Valid()
      reads this, hextileBuffer, lcd, buffer
    {
      Call(Abs(), Data(), vncSendState)
    }

    ghost predicate InTile()
      reads this, lcd
    {
      Valid() && vncState == ProcessingUpdate && pixelProcessorState == HextileRect
    }

    /** The call is over, with this outcome. */
    ghost predicate Finished(end: CallEnd)
      requires Valid()
      reads this, hextileBuffer, lcd, buffer
    {
      end == CallEnd(Abs(), vncSendState, Data(), end.status)
    }

    /** The call is over and has done this, unless it left the tile buffer's bounds on the way. */
    ghost predicate Stopped(end: CallEnd)
      requires Valid()
      reads this, hextileBuffer, lcd, buffer
    {
      end.status == OutOfArray || Finished(end)
    }

    /** The call will still do this, unless it leaves the tile buffer's bounds. */
    ghost predicate Kept(end: CallEnd)
      requires Valid()
      reads this, hextileBuffer, lcd, buffer
    {
      end.status == OutOfArray || Ahead() == end
    }

    lemma FirstByte()
      requires dataPtr + dataSize <= buffer.Length && dataSize > 0
      ensures Data()[0] == buffer[dataPtr]
    {
    }

    /** Power-on: nothing connected, everything else as the C runtime leaves its statics. */
    constructor (display: SpiLcd)
      requires display.Valid()
      ensures Valid() && fresh(hextileBuffer) && lcd == display && fresh(buffer)
      ensures vncState == NotConnected && vncSendState == SendInit
      ensures Abs().panel == display.Shown()
    {
      vncState, vncSendState := NotConnected, SendInit;
      pixelProcessorState, hextileState := RectIdle, TileInit;
      rectangleCount, interPixelCount := 0, 0;
      updateWindowX0, updateWindowY0, updateWindowX1, updateWindowY1 := 0, 0, 0, 0;
      tileX, tileY, tileW, tileH := 0, 0, 0, 0;
      background, foreground, subencodingByte, numSubrects := 0, 0, 0, 0;
      hextileBuffer := new byte[512](_ => 0);
      lcd := display;
      buffer := new byte[0];
      dataPtr, dataSize := 0, 0;
    }

    /** Vnc_ResetSystem: two statics, and nothing else. */
    method ResetSystem()
      requires Valid()
      modifies this`vncState, this`vncSendState
      ensures Valid() && vncSendState == SendInit
      ensures Abs() == old(Abs()).(phase := NotConnected)
    {
      vncState := NotConnected;
      vncSendState := SendInit;
    }

    method Skip(n: nat)
      requires Valid() && n <= dataSize
      modifies this`dataPtr, this`dataSize
      ensures Valid() && Abs() == old(Abs()) && Data() == old(Data())[n..]
      ensures dataPtr + dataSize == old(dataPtr + dataSize)
    {
      dataPtr := dataPtr + n;
      dataSize := dataSize - n;
    }

    /** Removes as many of interPixelCount pixels as there are; true when none are left. */
    method DropOutOfViewPixels() returns (done: bool)
      requires Valid()
      modifies this`dataPtr, this`dataSize, this`interPixelCount
      ensures Valid() && dataPtr + dataSize == old(dataPtr + dataSize)
      ensures var n := Low31(old(interPixelCount));
              var b := old(Data());
              && done == (2 * n <= |b|)
              && Data() == (if done then b[2 * n..] else b[2 * (|b| / 2)..])
              && Abs() == old(Abs()).(pixelCount := if done then 0 else old(interPixelCount) - |b| / 2)
    {
      hide Low31, Twice;
      var doubled := Twice(interPixelCount);
      Doubled(interPixelCount);
      if dataSize >= doubled {
        interPixelCount := 0;
        Skip(doubled);
        return true;
      }
      if doubled > dataSize && dataSize != 0 {
        var pixelsToRemove := dataSize / 2;
        interPixelCount := interPixelCount - pixelsToRemove;
        Skip(pixelsToRemove * 2);
      }
      return false;
    }

    method FillBackground()
      requires hextileBuffer.Length == 512
      modifies hextileBuffer
      ensures hextileBuffer[..] == Filled(background)
    {
      for j := 0 to 16
        invariant forall k :: 0 <= k < 32 * j ==> hextileBuffer[k] == Filled(background)[k]
      {
        var i := 0;
        while i < 32
          invariant 0 <= i <= 32 && i % 2 == 0
          invariant forall k :: 0 <= k < 32 * j + i ==> hextileBuffer[k] == Filled(background)[k]
        {
          hextileBuffer[32 * j + i] := background % 256;
          hextileBuffer[32 * j + i + 1] := background / 256;
          i := i + 2;
        }
      }
    }

    method PaintRow(j: nat, x0: nat, x1: nat, rectangleColor: word)
      requires hextileBuffer.Length == 512 && x0 <= x1 <= 15 && j <= 15
      modifies hextileBuffer
      ensures hextileBuffer[..] == Painted(old(hextileBuffer[..]), x0, j, x1, j, rectangleColor)
    {
      ghost var was := hextileBuffer[..];
      var i := x0 * 2;
      while i <= x1 * 2
        invariant x0 * 2 <= i <= x1 * 2 + 2 && i % 2 == 0
        invariant forall k :: 0 <= k < 512 ==>
          hextileBuffer[k] == if 32 * j + x0 * 2 <= k < 32 * j + i then Filled(rectangleColor)[k] else was[k]
      {
        hextileBuffer[32 * j + i] := rectangleColor % 256;
        hextileBuffer[32 * j + i + 1] := rectangleColor / 256;
        i := i + 2;
      }
    }

    /** Rows y0 to y1, columns x0 to x1, both ends included. */
    method PaintSubrect(x0: nat, y0: nat, x1: nat, y1: nat, rectangleColor: word)
      requires hextileBuffer.Length == 512 && x0 <= x1 <= 15 && y0 <= y1 <= 15
      modifies hextileBuffer
      ensures hextileBuffer[..] == Painted(old(hextileBuffer[..]), x0, y0, x1, y1, rectangleColor)
    {
      ghost var was := hextileBuffer[..];
      var j := y0;
      while j <= y1
        invariant y0 <= j <= y1 + 1
        invariant hextileBuffer[..] == Painted(was, x0, y0, x1, j - 1, rectangleColor)
      {
        ghost var before := hextileBuffer[..];
        PaintRow(j, x0, x1, rectangleColor);
        assert Painted(before, x0, j, x1, j, rectangleColor) == Painted(was, x0, y0, x1, j, rectangleColor);
        j := j + 1;
      }
    }

    // ----- The tile machine -----

    /** One step that needs no data. */
    ghost predicate Stepped(s: Rx, b: seq<byte>, used: nat)
      requires Valid()
      reads this, hextileBuffer, lcd, buffer
    {
      Step(s, b) == Move(Abs(), used) && used <= |b| && Data() == b[used..]
    }

    lemma StarvedHere()
      requires Valid() && Step(Abs(), Data()) == Wait(Abs())
      ensures Finished(Ahead()) && Ahead().status == Starved
    {
      CallStarved(Abs(), Data(), vncSendState);
    }

    lemma DrawStarved()
      requires InTile() && hextileState == DrawRaw
      requires Low31(interPixelCount) > 0 && dataSize < 2
      ensures Finished(Ahead())
    {
      StarvedHere();
    }

    lemma DrawComplete()
      requires InTile() && hextileState == DrawRaw
      requires Low31(interPixelCount) == 0
      ensures Ahead() == Call(Abs().(pixelCount := 0, tile := TileDone), Data(), vncSendState)
    {
      CallStay(Abs(), Data(), vncSendState, Abs().(pixelCount := 0, tile := TileDone));
    }

    lemma Proceed(s: Rx, b: seq<byte>, send: SendState, used: nat)
      requires Valid() && Stepped(s, b, used) && vncSendState == SendAfter(s, Abs(), send)
      ensures Ahead() == Call(s, b, send)
    {
      CallMove(s, b, send, Abs(), used);
    }

    method StartTile()
      requires Valid() && vncState == ProcessingUpdate && pixelProcessorState == HextileRect && hextileState == TileInit
      modifies this`tileX, this`tileY, this`tileW, this`tileH, this`hextileState
      ensures Valid() && Step(old(Abs()), old(Data())) == Move(Abs(), 0)
    {
      hide Data, Step, Add16, Sub16, TileExtent, StepHeader, StepSubrect, SetWindow, PutAll, TileCells, HeaderBytes;
      TileStep(Abs(), Data());
      tileX := updateWindowX0;
      tileY := updateWindowY0;
      tileW := TileExtent(updateWindowX0, updateWindowX1);
      tileH := TileExtent(updateWindowY0, updateWindowY1);
      hextileState := ParseHeader;
    }

    /** The first tile of the next row. */
    method NextRow()
      requires Valid()
      modifies this`tileX, this`tileY, this`tileH
      ensures Valid()
      ensures Abs() == old(Abs()).(tileX := updateWindowX0, tileY := Add16(old(tileY), old(tileH)),
                                   tileH := TileExtent(Add16(old(tileY), old(tileH)), updateWindowY1))
    {
      hide Add16, TileExtent;
      tileX := updateWindowX0;
      tileY := Add16(tileY, tileH);
      tileH := TileExtent(tileY, updateWindowY1);
    }

    /** False when the last tile of the rectangle has been drawn. */
    method AdvanceTile() returns (more: bool)
      requires Valid() && vncState == ProcessingUpdate && pixelProcessorState == HextileRect && hextileState == TileDone
      modifies this`tileX, this`tileY, this`tileW, this`tileH, this`hextileState, this`pixelProcessorState
      ensures Valid()
      ensures Step(old(Abs()), old(Data())) == if more then Move(Abs(), 0) else Pause(Abs())
      ensures more ==> vncState == ProcessingUpdate && pixelProcessorState == HextileRect
    {
      hide Data, Step, Add16, Sub16, TileExtent;
      ghost var s := Abs();
      DoneStep(s, Data());
      tileX := Add16(tileX, tileW);
      if tileX == updateWindowX1 {
        if Add16(tileY, tileH) == updateWindowY1 {
          pixelProcessorState := RectIdle;
          hextileState := TileInit;
          assert Abs() == s.(tileX := tileX, rect := RectIdle, tile := TileInit);
          return false;
        }
        NextRow();
      }
      tileW := TileExtent(tileX, updateWindowX1);
      hextileState := ParseHeader;
      assert Abs() == s.(tileX := tileX, tileY := tileY, tileW := tileW, tileH := tileH, tile := ParseHeader);
      return true;
    }

    /** The window test of the source. */
    method OutsideWindow() returns (outside: bool)
      requires hextileBuffer.Length == 512
      ensures outside <==> !OnScreen(Abs())
    {
      outside := tileX < 0 || Add16(tileX, tileW) > SCREEN_WIDTH || tileY < 0 || Add16(tileY, tileH) > SCREEN_HEIGHT;
    }

    /** A raw tile: drawn if it is on the screen, dropped if not. */
    method BeginRawTile()
      requires Valid() && hextileState == ParseHeader
      modifies this`interPixelCount, this`hextileState, lcd
      ensures Valid()
      ensures Abs() == old(if OnScreen(Abs()) then
                             Abs().(pixelCount := TileSize(Abs()), tile := DrawRaw,
                                    panel := SetWindow(Abs().panel, tileX, tileY, tileW, tileH))
                           else Abs().(pixelCount := TileSize(Abs()), tile := DropRaw))
    {
      hide SetWindow;
      CellsIsProduct(tileW, tileH);
      CellsOfBytes(tileW, tileH);
      var outside := OutsideWindow();
      interPixelCount := Widened(tileW * tileH);
      if outside {
        hextileState := DropRaw;
      } else {
        lcd.SetupTile(tileX, tileY, tileW, tileH);
        hextileState := DrawRaw;
      }
    }

    /** One little-endian pixel from the data. */
    method TakePixel() returns (c: word)
      requires Valid() && dataSize >= 2
      modifies this`dataPtr, this`dataSize
      ensures Valid() && Abs() == old(Abs()) && Data() == old(Data())[2..]
      ensures dataPtr + dataSize == old(dataPtr + dataSize)
      ensures c == Word(old(Data())[1], old(Data())[0])
    {
      c := Word(buffer[dataPtr + 1], buffer[dataPtr]);
      Skip(2);
    }

    /** A background pixel at byte i of the tile, if the tile has one; n is where it ends. */
    method ReadBackground(ghost b: seq<byte>, ghost i: nat) returns (ghost n: nat)
      requires Valid() && i <= |b| && Data() == b[i..] && (BackgroundBit(subencodingByte) ==> i + 2 <= |b|)
      modifies this`dataPtr, this`dataSize, this`background
      ensures Valid() && dataPtr + dataSize == old(dataPtr + dataSize)
      ensures n == (if BackgroundBit(subencodingByte) then i + 2 else i) <= |b| && Data() == b[n..]
      ensures Abs() == old(Abs()).(
        background := if BackgroundBit(subencodingByte) then Word(b[i + 1], b[i]) else old(background))
    {
      n := i;
      if BackgroundBit(subencodingByte) {
        hide Data, Word;
        PairAt(b, i);
        background := TakePixel();
        n := i + 2;
      }
    }

    /** The same for a foreground pixel. */
    method ReadForeground(ghost b: seq<byte>, ghost i: nat) returns (ghost n: nat)
      requires Valid() && i <= |b| && Data() == b[i..] && (ForegroundBit(subencodingByte) ==> i + 2 <= |b|)
      modifies this`dataPtr, this`dataSize, this`foreground
      ensures Valid() && dataPtr + dataSize == old(dataPtr + dataSize)
      ensures n == (if ForegroundBit(subencodingByte) then i + 2 else i) <= |b| && Data() == b[n..]
      ensures Abs() == old(Abs()).(
        foreground := if ForegroundBit(subencodingByte) then Word(b[i + 1], b[i]) else old(foreground))
    {
      n := i;
      if ForegroundBit(subencodingByte) {
        hide Data, Word;
        PairAt(b, i);
        foreground := TakePixel();
        n := i + 2;
      }
    }

    /** And for the subrectangle count, which is zero if the tile has none. */
    method ReadSubrectCount(ghost b: seq<byte>, ghost i: nat) returns (ghost n: nat)
      requires Valid() && i <= |b| && Data() == b[i..] && (SubrectsBit(subencodingByte) ==> i + 1 <= |b|)
      modifies this`dataPtr, this`dataSize, this`numSubrects
      ensures Valid() && dataPtr + dataSize == old(dataPtr + dataSize)
      ensures n == (if SubrectsBit(subencodingByte) then i + 1 else i) <= |b| && Data() == b[n..]
      ensures Abs() == old(Abs()).(numSubrects := if SubrectsBit(subencodingByte) then b[i] else 0)
    {
      n := i;
      if SubrectsBit(subencodingByte) {
        FirstByte();
        numSubrects := buffer[dataPtr];
        DropTwice(b, i, 1);
        Skip(1);
        n := i + 1;
      } else {
        numSubrects := 0;
      }
    }

    static lemma PairAt(b: seq<byte>, i: nat)
      requires i + 2 <= |b|
      ensures b[i..][0] == b[i] && b[i..][1] == b[i + 1] && b[i..][2..] == b[i + 2..]
    {
    }

    /** The optional fields of a tile that is not raw, and the background everywhere. */
    method ReadFields(ghost b: seq<byte>) returns (ghost used: nat)
      requires Valid() && hextileState == ParseHeader && !RawBit(subencodingByte)
      requires |b| >= 1 + HeaderBytes(subencodingByte) && Data() == b[1..]
      modifies this`dataPtr, this`dataSize, this`hextileState, this`background, this`foreground, this`numSubrects,
               hextileBuffer
      ensures Valid() && dataPtr + dataSize == old(dataPtr + dataSize)
      ensures used <= |b| && StepHeader(old(Abs()), b) == Move(Abs(), used) && Data() == b[used..]
    {
      hide BackgroundBit, ForegroundBit, SubrectsBit, RawBit, HeaderBytes, FieldEnds, StepHeader, Filled, Data, Word;
      HeaderFields(Abs(), b);
      ghost var f := ReadBackground(b, 1);
      ghost var n := ReadForeground(b, f);
      ghost var m := ReadSubrectCount(b, n);
      FillBackground();
      hextileState := FillBuffer;
      used := m;
    }

    method ParseTileHeader() returns (more: bool, ghost used: nat)
      requires Valid() && vncState == ProcessingUpdate && pixelProcessorState == HextileRect &&
                hextileState == ParseHeader
      modifies this`dataPtr, this`dataSize, this`subencodingByte, this`interPixelCount, this`hextileState,
               this`background, this`foreground, this`numSubrects, hextileBuffer, lcd
      ensures Valid() && dataPtr + dataSize == old(dataPtr + dataSize)
      ensures Step(old(Abs()), old(Data())) == if more then Move(Abs(), used) else Wait(Abs())
      ensures used <= |old(Data())| && Data() == old(Data())[used..]
      ensures more <==> used > 0
    {
      hide Data, Step;
      ghost var s, b := Abs(), Data();
      used := 0;
      HeaderStep(s, b);
      assert b[0..] == b;
      if dataSize < 1 {
        return false, 0;
      }
      FirstByte();
      subencodingByte := buffer[dataPtr];
      var temp3 := 0;
      if BackgroundBit(subencodingByte) {
        temp3 := temp3 + 2;
      }
      if ForegroundBit(subencodingByte) {
        temp3 := temp3 + 2;
      }
      if SubrectsBit(subencodingByte) {
        temp3 := temp3 + 2;
      }
      assert temp3 == HeaderBytes(subencodingByte);
      if dataSize - 1 < temp3 {
        return false, 0;
      }
      Skip(1);
      if RawBit(subencodingByte) {
        BeginRawTile();
        used := 1;
      } else {
        used := ReadFields(b);
      }
      return true, used;
    }

    /** A portion of a raw tile that is on the screen. */
    method DrawRawPixels() returns (more: bool)
      requires InTile() && hextileState == DrawRaw
      modifies this`dataPtr, this`dataSize, this`interPixelCount, this`hextileState, lcd
      ensures Valid() && dataPtr + dataSize == old(dataPtr + dataSize)
      ensures more ==> InTile() && hextileState == TileDone && dataSize <= old(dataSize) && Ahead() == old(Ahead())
      ensures !more ==> Finished(old(Ahead()))
    {
      hide Call, Step, PixelsPut, Data, Low31, Twice;
      var doubled := Twice(interPixelCount);
      Doubled(interPixelCount);
      if doubled > dataSize {
        var pixelsToDraw := dataSize / 2;
        DrawPixels(pixelsToDraw);
        DrawStarved();
        return false;
      } else {
        DrawPixels(doubled / 2);
        DrawComplete();
        interPixelCount := 0;
        hextileState := TileDone;
        return true;
      }
    }

    method DrawPixels(n: nat)
      requires InTile() && hextileState == DrawRaw
      requires n <= Low31(interPixelCount) && 2 * n <= dataSize
      modifies this`dataPtr, this`dataSize, this`interPixelCount, lcd
      ensures InTile() && dataPtr + dataSize == old(dataPtr + dataSize)
      ensures Abs() == PixelsPut(old(Abs()), old(Data()), n) && Data() == old(Data())[2 * n..]
      ensures Low31(interPixelCount) == Low31(old(interPixelCount)) - n && dataSize == old(dataSize) - 2 * n
      ensures Ahead() == old(Ahead())
    {
      hide Call, Step;
      ghost var s, b := Abs(), Data();
      Remainder(interPixelCount, n);
      CallDraw(s, b, vncSendState, n);
      assert buffer[dataPtr..dataPtr + 2 * n] == b[..2 * n];
      lcd.DrawRawTile(n, buffer[dataPtr..dataPtr + 2 * n]);
      interPixelCount := interPixelCount - n;
      Skip(n * 2);
    }

    /** A portion of a raw tile that is not on the screen. */
    method DropRawPixels() returns (more: bool)
      requires InTile() && hextileState == DropRaw
      modifies this`dataPtr, this`dataSize, this`interPixelCount, this`hextileState
      ensures Valid() && dataPtr + dataSize == old(dataPtr + dataSize)
      ensures more ==> InTile() && hextileState == TileDone && dataSize <= old(dataSize) && Ahead() == old(Ahead())
      ensures !more ==> Finished(old(Ahead()))
    {
      hide Call, Step, Data, Low31, Dropping;
      ghost var s, b, send := Abs(), Data(), vncSendState;
      CallDropTile(s, b, send);
      more := DropOutOfViewPixels();
      if more {
        hextileState := TileDone;
        assert Abs() == s.(pixelCount := 0, tile := TileDone);
      }
    }

    /** One subrectangle from the data into the tile buffer; false when it is not all there. */
    method ReadSubrect() returns (more: bool)
      requires InTile() && hextileState == FillBuffer && numSubrects != 0
      modifies this`dataPtr, this`dataSize, this`numSubrects, hextileBuffer
      ensures Valid() && dataPtr + dataSize == old(dataPtr + dataSize)
      ensures more ==> InTile() && hextileState == FillBuffer && dataSize < old(dataSize) &&
                       numSubrects == old(numSubrects) - 1
      ensures if more then Kept(old(Ahead())) else Stopped(old(Ahead()))
    {
      hide Call, Data, Painted, Step;
      ghost var s, b, send := Abs(), Data(), vncSendState;
      SubrectStep(s, b);
      var rectangleColor := foreground;
      ghost var n := 0;
      if ColouredBit(subencodingByte) {
        if dataSize < 4 {
          StarvedHere();
          return false;
        }
        rectangleColor := TakePixel();
        n := 2;
      } else if dataSize < 2 {
        StarvedHere();
        return false;
      }
      assert Data() == b[n..];
      var temp1, temp2 := TakePair();
      assert Data() == b[n + 2..] by {
        DropTwice(b, n, 2);
      }
      var x0 := temp1 / 16;
      var x1 := x0 + temp2 / 16;
      var y0 := temp1 % 16;
      var y1 := y0 + temp2 % 16;
      // the part inside the array; what a write past its end does is not modelled
      PaintSubrect(x0, y0, if x1 > 15 then 15 else x1, if y1 > 15 then 15 else y1, rectangleColor);
      numSubrects := numSubrects - 1;
      if x1 > 15 || y1 > 15 {
        CallUndefined(s, b, send);
      } else {
        assert Stepped(s, b, n + 2);
        Proceed(s, b, send, n + 2);
      }
      return true;
    }

    /** The position and size bytes of a subrectangle. */
    method TakePair() returns (first: byte, second: byte)
      requires Valid() && dataSize >= 2
      modifies this`dataPtr, this`dataSize
      ensures Valid() && Abs() == old(Abs()) && Data() == old(Data())[2..]
      ensures dataPtr + dataSize == old(dataPtr + dataSize)
      ensures first == old(Data())[0] && second == old(Data())[1]
    {
      first := buffer[dataPtr];
      second := buffer[dataPtr + 1];
      Skip(2);
    }

    /** All subrectangles that are there; false when the data runs out first. */
    method FillTileBuffer() returns (more: bool)
      requires InTile() && hextileState == FillBuffer
      modifies this`dataPtr, this`dataSize, this`numSubrects, this`hextileState, hextileBuffer
      ensures Valid() && dataPtr + dataSize == old(dataPtr + dataSize)
      ensures more ==> InTile() && hextileState == DrawTile && dataSize <= old(dataSize) && Kept(old(Ahead()))
      ensures !more ==> Stopped(old(Ahead()))
    {
      hide Call, Step;
      while numSubrects != 0
        invariant InTile() && hextileState == FillBuffer && dataSize <= old(dataSize)
        invariant dataPtr + dataSize == old(dataPtr + dataSize)
        invariant Kept(old(Ahead()))
        decreases numSubrects
      {
        var more := ReadSubrect();
        if !more {
          return false;
        }
      }
      FilledStep();
      hextileState := DrawTile;
      return true;
    }

    lemma FilledStep()
      requires InTile() && hextileState == FillBuffer && numSubrects == 0
      ensures Ahead() == Call(Abs().(tile := DrawTile), Data(), vncSendState)
    {
      CallStay(Abs(), Data(), vncSendState, Abs().(tile := DrawTile));
    }

    /** The tile buffer to the panel, if all of the tile is on the screen. */
    method ShowTile()
      requires InTile() && hextileState == DrawTile
      modifies this`hextileState, lcd
      ensures InTile() && hextileState == TileDone
      ensures var o := Step(old(Abs()), old(Data())); o == Undefined || o == Move(Abs(), 0)
    {
      hide SetWindow, PutAll, TileCells, Data, StepHeader, StepSubrect, StepUpdateHeader;
      var outside := OutsideWindow();
      if !outside {
        lcd.SetupTile(tileX, tileY, tileW, tileH);
        // the cells inside the array; what lies past its end is not modelled
        lcd.DrawHextile(if tileW > 16 then 16 else tileW, if tileH > 16 then 16 else tileH, hextileBuffer);
      }
      hextileState := TileDone;
    }

    /** One turn of the tile machine. True: there is more to do. False: the call is over, for lack
        of data or because the rectangle is done. */
    method ProcessHextile() returns (more: bool)
      requires InTile()
      modifies this`dataPtr, this`dataSize, this`pixelProcessorState, this`hextileState, this`interPixelCount,
               this`tileX, this`tileY, this`tileW, this`tileH, this`background, this`foreground,
               this`subencodingByte, this`numSubrects, hextileBuffer, lcd
      ensures Valid() && dataPtr + dataSize == old(dataPtr + dataSize)
      ensures more ==> InTile() && Kept(old(Ahead())) && Less(dataSize, Rank(Abs()), old(dataSize), old(Rank(Abs())))
      ensures !more ==> Stopped(old(Ahead()))
    {
      hide Call, Step, Data, Rank;
      ghost var s, b, send := Abs(), Data(), vncSendState;
      ghost var used := 0;
      assert b[0..] == b;
      match hextileState {
        case TileInit =>
          StartTile();
          Proceed(s, b, send, 0);
          more := true;
        case TileDone =>
          more := AdvanceTile();
          if more {
            Proceed(s, b, send, 0);
          } else {
            PausedHere(s, b, send);
          }
        case ParseHeader =>
          more, used := ParseTileHeader();
          if more {
            Proceed(s, b, send, used);
          } else {
            CallStarved(s, b, send);
          }
        case DropRaw =>
          more := DropRawPixels();
          TileRanks(s, Abs());
        case DrawRaw =>
          more := DrawRawPixels();
          TileRanks(s, Abs());
        case FillBuffer =>
          more := FillTileBuffer();
          TileRanks(s, Abs());
        case DrawTile =>
          ShowTile();
          TileRanks(s, Abs());
          if Step(s, b).Undefined? {
            CallUndefined(s, b, send);
          } else {
            Proceed(s, b, send, 0);
          }
          more := true;
      }
    }

    lemma PausedHere(s: Rx, b: seq<byte>, send: SendState)
      requires Valid() && Step(s, b) == Pause(Abs()) && Data() == b && vncSendState == send
      ensures Finished(Call(s, b, send))
    {
    }

    lemma RejectedHere(s: Rx, b: seq<byte>, send: SendState)
      requires Valid() && Step(s, b) == Reject(Abs()) && Data() == b && vncSendState == send
      ensures Finished(Call(s, b, send)) && Call(s, b, send).status == Rejected
    {
    }

    lemma BytesHere(n: nat)
      requires dataPtr + dataSize <= buffer.Length && n <= dataSize
      ensures forall k {:trigger Data()[k]} :: 0 <= k < n ==> Data()[k] == buffer[dataPtr + k]
    {
    }

    // ----- The rectangle machine -----

    /** A big-endian field of the data. */
    method Field(k: nat) returns (v: word)
      requires dataPtr + dataSize <= buffer.Length && k + 2 <= dataSize
      ensures v == Word(Data()[k], Data()[k + 1])
    {
      v := Word(buffer[dataPtr + k], buffer[dataPtr + k + 1]);
    }

    /** The counter and the window of the next rectangle. */
    method TakeRectangle() returns (w: word, h: word)
      requires Valid() && rectangleCount != 0 && dataSize >= 12
      modifies this`rectangleCount, this`updateWindowX0, this`updateWindowX1, this`updateWindowY0, this`updateWindowY1
      ensures Valid() && Abs() == RectHeader(old(Abs()), Data())
      ensures w == Word(Data()[4], Data()[5]) && h == Word(Data()[6], Data()[7])
    {
      hide Data, Add16, Word;
      ghost var s := Abs();
      var x := Field(0);
      w := Field(4);
      var y := Field(2);
      h := Field(6);
      rectangleCount := rectangleCount - 1;
      updateWindowX0 := x;
      updateWindowX1 := Add16(updateWindowX0, w);
      updateWindowY0 := y;
      updateWindowY1 := Add16(updateWindowY0, h);
      assert Abs() == s.(rectangleCount := rectangleCount, x0 := x, x1 := Add16(x, w), y0 := y, y1 := Add16(y, h));
    }

    lemma EncodingHere()
      requires dataPtr + dataSize <= buffer.Length && dataSize >= 12
      ensures Data()[8] == buffer[dataPtr + 8] && Data()[9] == buffer[dataPtr + 9]
      ensures Data()[10] == buffer[dataPtr + 10] && Data()[11] == buffer[dataPtr + 11]
    {
    }

    /** The twelve bytes of a rectangle header. */
    method ReadRectangleHeader() returns (more: bool)
      requires Valid() && vncState == ProcessingUpdate && pixelProcessorState == RectIdle
      requires rectangleCount != 0 && dataSize >= 12
      modifies this`dataPtr, this`dataSize, this`rectangleCount, this`pixelProcessorState, this`hextileState,
               this`interPixelCount, this`updateWindowX0, this`updateWindowX1, this`updateWindowY0, this`updateWindowY1
      ensures Valid() && dataPtr + dataSize == old(dataPtr + dataSize)
      ensures more ==> Step(old(Abs()), old(Data())) == Move(Abs(), 12) && Data() == old(Data())[12..]
      ensures !more ==> Step(old(Abs()), old(Data())) == Reject(Abs()) && Data() == old(Data())
    {
      hide Data, RectHeader, RawCount, Word, StepTile, StepUpdateHeader, Long;
      var w, h := TakeRectangle();
      EncodingHere();
      if buffer[dataPtr + 8] != 0 || buffer[dataPtr + 9] != 0 || buffer[dataPtr + 10] != 0 {
        return false;
      }
      match buffer[dataPtr + 11] {
        case 0 =>
          interPixelCount := RawCount(w, h);
          pixelProcessorState := OutBounds;
        case 1 =>
          pixelProcessorState := CopyRect;
        case 5 =>
          pixelProcessorState := HextileRect;
          hextileState := TileInit;
        case _ =>
          return false;
      }
      Skip(12);
      return true;
    }

    method ProcessCopyRect() returns (more: bool)
      requires Valid() && vncState == ProcessingUpdate && pixelProcessorState == CopyRect
      modifies this`dataPtr, this`dataSize, this`pixelProcessorState
      ensures Valid() && dataPtr + dataSize == old(dataPtr + dataSize)
      ensures Step(old(Abs()), old(Data())) == if more then Move(Abs(), 4) else Wait(Abs())
      ensures if more then |old(Data())| >= 4 && Data() == old(Data())[4..] else Data() == old(Data())
    {
      if dataSize < 4 {
        return false;
      }
      Skip(4);
      pixelProcessorState := RectIdle;
      return true;
    }

    /** The innermost loop: turns of the tile machine until the call is over. */
    method ProcessTiles()
      requires InTile()
      modifies this, hextileBuffer, lcd
      ensures Valid() && dataPtr + dataSize == old(dataPtr + dataSize) && buffer == old(buffer)
      ensures Stopped(old(Ahead()))
    {
      hide Call, Step;
      var again := ProcessHextile();
      while again
        invariant Valid() && dataPtr + dataSize == old(dataPtr + dataSize) && buffer == old(buffer)
        invariant if again then InTile() && Kept(old(Ahead())) else Stopped(old(Ahead()))
        decreases again, dataSize, Rank(Abs())
      {
        again := ProcessHextile();
      }
    }

    method DropRectangle() returns (more: bool)
      requires Valid() && vncState == ProcessingUpdate && pixelProcessorState == OutBounds
      modifies this`dataPtr, this`dataSize, this`interPixelCount, this`pixelProcessorState
      ensures Valid() && dataPtr + dataSize == old(dataPtr + dataSize)
      ensures more ==> pixelProcessorState == RectIdle && dataSize <= old(dataSize)
      ensures if more then Ahead() == old(Ahead()) else Finished(old(Ahead()))
    {
      hide Call, Step, Data, Low31, Twice, Rank;
      CallDropAll(Abs(), Data(), vncSendState);
      more := DropOutOfViewPixels();
      if more {
        pixelProcessorState := RectIdle;
      }
    }

    /** One turn of the rectangle machine, with the same meaning of the result. */
    method PixelProcessor() returns (more: bool)
      requires Valid() && vncState == ProcessingUpdate
      modifies this, hextileBuffer, lcd
      ensures Valid() && dataPtr + dataSize == old(dataPtr + dataSize) && buffer == old(buffer)
      ensures more ==> vncState == ProcessingUpdate && Kept(old(Ahead()))
      ensures more ==> Less(dataSize, Rank(Abs()), old(dataSize), old(Rank(Abs())))
      ensures !more ==> Stopped(old(Ahead()))
    {
      hide Call, Step;
      ghost var s, b, send := Abs(), Data(), vncSendState;
      match pixelProcessorState {
        case RectIdle =>
          if rectangleCount == 0 {
            IdleStep(s, b);
            vncState := ConnectedRefresh;
            PausedHere(s, b, send);
            return false;
          }
          if dataSize < 12 {
            IdleStep(s, b);
            StarvedHere();
            return false;
          }
          more := ReadRectangleHeader();
          if more {
            Proceed(s, b, send, 12);
          } else {
            RejectedHere(s, b, send);
          }
        case OutBounds =>
          more := DropRectangle();
        case HextileRect =>
          ProcessTiles();
          return false;
        case CopyRect =>
          more := ProcessCopyRect();
          if more {
            Proceed(s, b, send, 4);
          } else {
            CallStarved(s, b, send);
          }
      }
    }

    lemma IdleStep(s: Rx, b: seq<byte>)
      requires s.phase == ProcessingUpdate && s.rect == RectIdle
      ensures s.rectangleCount == 0 ==> Step(s, b) == Pause(s.(phase := ConnectedRefresh))
      ensures s.rectangleCount != 0 && |b| < 12 ==> Step(s, b) == Wait(s)
    {
    }

    // ----- The protocol machine -----

    /** The middle loop: turns of the rectangle machine until the call is over. */
    method ProcessUpdate()
      requires Valid() && vncState == ProcessingUpdate
      modifies this, hextileBuffer, lcd
      ensures Valid() && dataPtr + dataSize == old(dataPtr + dataSize) && buffer == old(buffer)
      ensures Stopped(old(Ahead()))
    {
      hide Call, Step;
      var again := PixelProcessor();
      while again
        invariant Valid() && dataPtr + dataSize == old(dataPtr + dataSize) && buffer == old(buffer)
        invariant if again then vncState == ProcessingUpdate && Kept(old(Ahead())) else Stopped(old(Ahead()))
        decreases again, dataSize, Rank(Abs())
      {
        again := PixelProcessor();
      }
    }

    /** A fixed-size handshake message of n bytes moves on to phase p. */
    lemma Greeted(s: Rx, b: seq<byte>, send: SendState, n: nat)
      requires Valid() && n <= |b| && Data() == b[n..]
      requires Step(s, b) == Move(Abs(), n) && vncSendState == SendAfter(s, Abs(), send)
      ensures Ahead() == Call(s, b, send)
      ensures Less(|Data()|, Rank(Abs()), |b|, Rank(s))
    {
      CallMove(s, b, send, Abs(), n);
    }

    method AuthTypeReceived()
      requires Valid() && vncState == WaitAuthType && dataSize >= 4
      modifies this`dataPtr, this`dataSize, this`vncState, this`vncSendState
      ensures Valid() && dataPtr + dataSize == old(dataPtr + dataSize)
      ensures Step(old(Abs()), old(Data())) == Move(Abs(), 4) && Data() == old(Data())[4..]
      ensures vncSendState == SendAfter(old(Abs()), Abs(), old(vncSendState))
    {
      BytesHere(4);
      assert Data()[3] == buffer[dataPtr + 3];
      if buffer[dataPtr + 3] == 2 {
        vncState := WaitAuthWord;
      } else if buffer[dataPtr + 3] == 1 {
        vncSendState := AuthWordSent;
        vncState := WaitServerInit;
      } else {
        vncState := AuthFailed;
      }
      Skip(4);
    }

    method AuthResponseReceived()
      requires Valid() && vncState == WaitAuthResponse && dataSize >= 4
      modifies this`dataPtr, this`dataSize, this`vncState
      ensures Valid() && dataPtr + dataSize == old(dataPtr + dataSize)
      ensures Step(old(Abs()), old(Data())) == Move(Abs(), 4) && Data() == old(Data())[4..]
    {
      BytesHere(4);
      assert Data()[3] == buffer[dataPtr + 3];
      if buffer[dataPtr + 3] == 0 {
        vncState := WaitServerInit;
      } else {
        vncState := AuthFailed;
      }
      Skip(4);
    }

    method ServerInitReceived()
      requires Valid() && vncState == WaitServerInit && dataSize >= 24
      modifies this`dataPtr, this`dataSize, this`vncState, this`interPixelCount
      ensures Valid() && dataPtr + dataSize == old(dataPtr + dataSize)
      ensures Step(old(Abs()), old(Data())) == Move(Abs(), 24) && Data() == old(Data())[24..]
    {
      hide Data;
      var n := ReadLength();
      interPixelCount := n;
      vncState := WaitServerName;
      Skip(24);
    }

    /** The length of the server's name, shifted in byte by byte. */
    method ReadLength() returns (n: dword)
      requires dataPtr + dataSize <= buffer.Length && dataSize >= 24
      ensures n == Long(Data(), 20)
    {
      hide Data;
      LengthHere();
      Horner(buffer[dataPtr + 20], buffer[dataPtr + 21], buffer[dataPtr + 22], buffer[dataPtr + 23]);
      n := buffer[dataPtr + 20];
      n := (n * 0x100) % 0x1_0000_0000 + buffer[dataPtr + 21];
      n := (n * 0x100) % 0x1_0000_0000 + buffer[dataPtr + 22];
      n := (n * 0x100) % 0x1_0000_0000 + buffer[dataPtr + 23];
    }

    lemma LengthHere()
      requires dataPtr + dataSize <= buffer.Length && dataSize >= 24
      ensures Data()[20] == buffer[dataPtr + 20] && Data()[21] == buffer[dataPtr + 21]
      ensures Data()[22] == buffer[dataPtr + 22] && Data()[23] == buffer[dataPtr + 23]
    {
    }

    method UpdateHeaderReceived() returns (more: bool)
      requires Valid() && (vncState == ConnectedRefresh || vncState == WaitUpdate) && dataSize >= 4
      modifies this`dataPtr, this`dataSize, this`vncState, this`rectangleCount, this`pixelProcessorState
      ensures Valid() && dataPtr + dataSize == old(dataPtr + dataSize)
      ensures Step(old(Abs()), old(Data())) == if more then Move(Abs(), 4) else Reject(Abs())
      ensures Data() == if more then old(Data())[4..] else old(Data())
    {
      hide Data;
      BytesHere(4);
      ghost var b := Data();
      assert b[0] == buffer[dataPtr + 0] && b[2] == buffer[dataPtr + 2] && b[3] == buffer[dataPtr + 3];
      if buffer[dataPtr] != 0 {
        vncState := Dead;
        return false;
      }
      rectangleCount := Word(buffer[dataPtr + 2], buffer[dataPtr + 3]);
      pixelProcessorState := RectIdle;
      vncState := ProcessingUpdate;
      Skip(4);
      return true;
    }

    /** The number of bytes a phase waits for before it does anything. */
    function Awaited(): nat
      reads this
    {
      match vncState
      case NotConnected => 12
      case WaitAuthType => 4
      case WaitAuthWord => 16
      case WaitAuthResponse => 4
      case WaitServerInit => 24
      case WaitServerName => interPixelCount
      case ConnectedRefresh => 4
      case WaitUpdate => 4
      case _ => 0
    }

    lemma TooShort()
      requires Valid() && vncState != ProcessingUpdate && dataSize < Awaited()
      ensures Finished(Ahead()) && Ahead().status == Starved
    {
      StarvedHere();
    }

    /** A message that only moves the protocol on. */
    method Accept(n: nat, next: Phase)
      requires Valid() && n <= dataSize
      requires Step(Abs(), Data()) == Move(Abs().(phase := next), n)
      requires vncState != ProcessingUpdate && next != ProcessingUpdate && vncState != WaitAuthType
      modifies this`dataPtr, this`dataSize, this`vncState
      ensures Valid() && dataPtr + dataSize == old(dataPtr + dataSize)
      ensures Ahead() == old(Ahead()) && Less(dataSize, Rank(Abs()), old(dataSize), old(Rank(Abs())))
    {
      hide Call, Step;
      ghost var s, b, send := Abs(), Data(), vncSendState;
      vncState := next;
      Skip(n);
      Greeted(s, b, send, n);
    }

    lemma Acceptable()
      requires Valid() && Awaited() <= dataSize
      ensures vncState == NotConnected ==> Step(Abs(), Data()) == Move(Abs().(phase := WaitAuthType), 12)
      ensures vncState == WaitAuthWord ==> Step(Abs(), Data()) == Move(Abs().(phase := WaitAuthResponse), 16)
      ensures vncState == WaitServerName ==> Step(Abs(), Data()) == Move(Abs().(phase := Connected), interPixelCount)
      ensures vncState == Connected ==> Step(Abs(), Data()) == Move(Abs().(phase := WaitUpdate), 0)
    {
    }

    /** One turn of the protocol machine: 1 when there is more to do, 0 when the call is over,
        -1 in a state that expects no data. */
    method StateMachine() returns (retval: int)
      requires Valid()
      modifies this, hextileBuffer, lcd
      ensures Valid() && dataPtr + dataSize == old(dataPtr + dataSize) && buffer == old(buffer)
      ensures retval == 1 || retval == 0 || retval == -1
      ensures retval == 1 ==> Ahead() == old(Ahead()) && Less(dataSize, Rank(Abs()), old(dataSize), old(Rank(Abs())))
      ensures retval != 1 ==> Stopped(old(Ahead())) && (retval == -1 <==> old(Ahead()).status == Failed)
    {
      hide Call, Step;
      ghost var s, b, send := Abs(), Data(), vncSendState;
      if vncState == ProcessingUpdate {
        ProcessUpdate();
        ProcessingNeverFails(s, b, send);
        return 0;
      }
      if vncState == Dead || vncState == AuthFailed {
        FailedHere();
        return -1;
      }
      if dataSize < Awaited() {
        TooShort();
        return 0;
      }
      if vncState == ConnectedRefresh || vncState == WaitUpdate {
        var more := UpdateHeaderReceived();
        if !more {
          RejectedHere(s, b, send);
          return 0;
        }
        Greeted(s, b, send, 4);
        return 1;
      }
      Acceptable();
      match vncState {
        case NotConnected =>
          Accept(12, WaitAuthType);
        case WaitAuthType =>
          AuthTypeReceived();
          Greeted(s, b, send, 4);
        case WaitAuthWord =>
          Accept(16, WaitAuthResponse);
        case WaitAuthResponse =>
          AuthResponseReceived();
          Greeted(s, b, send, 4);
        case WaitServerInit =>
          ServerInitReceived();
          Greeted(s, b, send, 24);
        case WaitServerName =>
          Accept(interPixelCount, Connected);
        case Connected =>
          Accept(0, WaitUpdate);
      }
      return 1;
    }

    lemma FailedHere()
      requires Valid() && (vncState == Dead || vncState == AuthFailed)
      ensures Finished(Ahead()) && Ahead().status == Failed
    {
    }

    /** Vnc_ProcessVncBuffer: as many turns as one buffer of data allows. Returns how many bytes at
        the end of the buffer are unused, or -1. It ends on any bytes in any state; what it has done
        is known unless a tile left the tile buffer's bounds. */
    method ProcessVncBuffer(data: array<byte>, length: nat) returns (retval: int)
      requires Valid() && length <= data.Length && data != hextileBuffer
      modifies this, hextileBuffer, lcd
      ensures Valid() && buffer == data && dataPtr + dataSize == length
      ensures var end := old(Call(Abs(), data[..length], vncSendState));
              && Stopped(end)
              && (end.status != OutOfArray ==> Abs() == end.st && vncSendState == end.send && Data() == end.rest)
              && retval == if end.status == Failed then -1 else dataSize
    {
      hide Call, Step;
      buffer := data;
      dataPtr := 0;
      dataSize := length;
      ghost var end := Ahead();
      assert Data() == data[..length];
      retval := StateMachine();
      while retval > 0
        invariant Valid() && dataPtr + dataSize == length && buffer == data
        invariant retval == 1 || retval == 0 || retval == -1
        invariant if retval == 1 then Ahead() == end else Stopped(end) && (retval == -1 <==> end.status == Failed)
        decreases retval == 1, dataSize, Rank(Abs())
      {
        retval := StateMachine();
      }
      if retval == 0 {
        retval := dataSize;
      }
    }
  }

  lemma {:induction false} ProcessingNeverFails(s: Rx, b: seq<byte>, send: SendState)
    requires s.phase == ProcessingUpdate
    ensures Call(s, b, send).status != Failed
    decreases |b|, Rank(s)
  {
    match Step(s, b)
    case Move(t, used) => ProcessingNeverFails(t, b[used..], SendAfter(s, t, send));
    case _ =>
  }

  lemma TileRanks(s: Rx, t: Rx)
    requires s.phase == t.phase == ProcessingUpdate && s.rect == HextileRect
    ensures t.rect == HextileRect && s.tile == FillBuffer && t.tile == DrawTile ==> Rank(t) < Rank(s)
    ensures t.rect == HextileRect && t.tile == TileDone &&
            (s.tile == DropRaw || s.tile == DrawRaw || s.tile == DrawTile) ==>
              Rank(t) < Rank(s)
  {
  }

  predicate Less(n: nat, r: nat, n0: nat, r0: nat)
  {
    n < n0 || (n == n0 && r < r0)
  }
}
