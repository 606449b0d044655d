/** A reset is as good as a fresh boot.

    Vnc_ResetSystem clears two statics. Everything else in the receiver keeps what the last
    connection left there, yet none of it is read before it is written again, except that a
    stream may itself rely on a colour it has not sent. */
module Reset {
  import opened Bytes
  import opened Panels
  import opened Hextile
  import opened Receiver
  import opened Picture
  import opened Sender
  import opened MainLoop

  /** Which of the two carried colours this connection has sent. */
  datatype Sent = Sent(bg: bool, fg: bool)

  /** Two receivers that agree on everything that can still be read. */
  predicate Alike(s: Rx, t: Rx, k: Sent)
  {
    && s.phase == t.phase && s.panel == t.panel
    && (k.bg ==> s.background == t.background)
    && (k.fg ==> s.foreground == t.foreground)
    && (s.phase == WaitServerName ==> s.pixelCount == t.pixelCount)
    && (s.phase == ProcessingUpdate ==> AlikeRect(s, t))
  }

  predicate AlikeRect(s: Rx, t: Rx)
  {
    && s.rect == t.rect && s.rectangleCount == t.rectangleCount
    && (s.rect == OutBounds ==> s.pixelCount == t.pixelCount)
    && (s.rect == HextileRect ==> AlikeTile(s, t))
  }

  predicate AlikeTile(s: Rx, t: Rx)
  {
    && s.tile == t.tile
    && s.x0 == t.x0 && s.x1 == t.x1 && s.y0 == t.y0 && s.y1 == t.y1
    && (s.tile != TileInit ==> Here(s) == Here(t))
    && (s.tile == DrawRaw || s.tile == DropRaw ==> s.pixelCount == t.pixelCount)
    && (s.tile == FillBuffer ==> s.sub == t.sub && s.numSubrects == t.numSubrects && s.buf == t.buf)
    && (s.tile == DrawTile ==> s.buf == t.buf)
  }

  /** The step about to be taken parses the header of a tile that is not raw. */
  predicate Colours(s: Rx, b: seq<byte>)
  {
    && s.phase == ProcessingUpdate && s.rect == HextileRect && s.tile == ParseHeader
    && b != [] && |b| > HeaderBytes(b[0]) && !RawBit(b[0])
  }

  /** The step about to be taken paints a subrectangle in the foreground colour. */
  predicate PaintsForeground(s: Rx, b: seq<byte>)
  {
    && s.phase == ProcessingUpdate && s.rect == HextileRect && s.tile == FillBuffer
    && s.numSubrects > 0 && !ColouredBit(s.sub) && |b| >= 2
  }

  function SentAfter(s: Rx, b: seq<byte>, k: Sent): Sent
  {
    if Colours(s, b) then Sent(k.bg || BackgroundBit(b[0]), k.fg || ForegroundBit(b[0])) else k
  }

  /** The step about to be taken uses only colours that this connection has sent. */
  predicate Specified(s: Rx, b: seq<byte>, k: Sent)
  {
    && (Colours(s, b) ==> k.bg || BackgroundBit(b[0]))
    && (PaintsForeground(s, b) ==> k.fg)
  }

  predicate SameKind(o: Outcome, p: Outcome, k: Sent)
  {
    match o
    case Move(s, n) => p.Move? && p.used == n && Alike(s, p.next, k)
    case Pause(s) => p.Pause? && Alike(s, p.next, k)
    case Wait(s) => p.Wait? && Alike(s, p.next, k)
    case Reject(s) => p.Reject? && Alike(s, p.next, k)
    case Error => p.Error?
    case Undefined => p.Undefined?
  }

  lemma HeaderAlike(s: Rx, t: Rx, b: seq<byte>, k: Sent)
    requires Alike(s, t, k) && Specified(s, b, k)
    requires s.phase == ProcessingUpdate && s.rect == HextileRect && s.tile == ParseHeader
    ensures SameKind(Step(s, b), Step(t, b), SentAfter(s, b, k))
  {
    if b != [] && |b| > HeaderBytes(b[0]) {
      var u, v := s.(sub := b[0]), t.(sub := b[0]);
      assert Step(s, b) == StepHeader(u, b) && Step(t, b) == StepHeader(v, b);
      assert OnScreen(u) == OnScreen(v);
    }
  }

  lemma SubrectAlike(s: Rx, t: Rx, b: seq<byte>, k: Sent)
    requires Alike(s, t, k) && Specified(s, b, k)
    requires s.phase == ProcessingUpdate && s.rect == HextileRect && s.tile == FillBuffer
    ensures SameKind(Step(s, b), Step(t, b), k)
  {
  }

  lemma TileAlike(s: Rx, t: Rx, b: seq<byte>, k: Sent)
    requires Alike(s, t, k) && s.phase == ProcessingUpdate && s.rect == HextileRect
    requires s.tile != ParseHeader && s.tile != FillBuffer
    ensures SameKind(StepTile(s, b), StepTile(t, b), k)
  {
    hide StepHeader, StepSubrect, TileExtent, Add16, Sub16, TileCells, PutAll, SetWindow;
  }

  lemma RectAlike(s: Rx, t: Rx, b: seq<byte>, k: Sent)
    requires Alike(s, t, k) && s.phase == ProcessingUpdate
    requires s.rect == HextileRect ==> s.tile != ParseHeader && s.tile != FillBuffer
    ensures SameKind(StepRect(s, b), StepRect(t, b), k)
  {
    hide StepTile;
    if s.rect == HextileRect {
      TileAlike(s, t, b, k);
    }
  }

  /** One step never tells two alike receivers apart. */
  lemma StepAlike(s: Rx, t: Rx, b: seq<byte>, k: Sent)
    requires Alike(s, t, k) && Specified(s, b, k)
    ensures Specified(t, b, k) && SentAfter(t, b, k) == SentAfter(s, b, k)
    ensures SameKind(Step(s, b), Step(t, b), SentAfter(s, b, k))
    ensures Step(s, b).Move? ==>
              forall send :: SendAfter(s, Step(s, b).next, send) == SendAfter(t, Step(t, b).next, send)
  {
    if s.phase == ProcessingUpdate {
      if s.rect == HextileRect && s.tile == ParseHeader {
        HeaderAlike(s, t, b, k);
      } else if s.rect == HextileRect && s.tile == FillBuffer {
        SubrectAlike(s, t, b, k);
      } else {
        RectAlike(s, t, b, k);
      }
    }
  }

  // ----- Calls -----

  predicate CallSpecified(s: Rx, b: seq<byte>, k: Sent)
    decreases |b|, Rank(s)
  {
    && Specified(s, b, k)
    && match Step(s, b)
       case Move(t, used) => CallSpecified(t, b[used..], SentAfter(s, b, k))
       case _ => true
  }

  function SentInCall(s: Rx, b: seq<byte>, k: Sent): Sent
    decreases |b|, Rank(s)
  {
    match Step(s, b)
    case Move(t, used) => SentInCall(t, b[used..], SentAfter(s, b, k))
    case _ => k
  }

  lemma {:induction false} CallAlike(s: Rx, t: Rx, b: seq<byte>, send: SendState, k: Sent)
    requires Alike(s, t, k) && CallSpecified(s, b, k)
    ensures CallSpecified(t, b, k) && SentInCall(t, b, k) == SentInCall(s, b, k)
    ensures var e, f := Call(s, b, send), Call(t, b, send);
            && e.send == f.send && e.rest == f.rest && e.status == f.status
            && Alike(e.st, f.st, SentInCall(s, b, k))
    decreases |b|, Rank(s)
  {
    hide Alike, Specified;
    StepAlike(s, t, b, k);
    match Step(s, b)
    case Move(u, used) =>
      CallAlike(u, Step(t, b).next, b[used..], SendAfter(s, u, send), SentAfter(s, b, k));
    case _ =>
      NoColoursWithoutMove(s, b);
  }

  lemma NoColoursWithoutMove(s: Rx, b: seq<byte>)
    ensures !Step(s, b).Move? && !Step(s, b).Undefined? ==> !Colours(s, b)
  {
  }

  // ----- The loop -----

  predicate LoopsAlike(l: Loop, m: Loop, k: Sent)
  {
    Alike(l.rx, m.rx, k) && l.held == m.held && l.send == m.send && l.key == m.key
  }

  /** The bytes the receiver works on in a turn. */
  function Given(l: Loop, e: Event): seq<byte>
    requires |l.held| <= VNC_BUFFER_MAX
  {
    l.held + e.data[..Taken(l, e.data)]
  }

  /** In none of these turns does the stream rely on a colour it has not sent. */
  predicate StreamSpecified(l: Loop, events: seq<Event>, k: Sent)
    requires |l.held| <= VNC_BUFFER_MAX
    decreases |events|
  {
    events == [] ||
    var t := Iterate(l, Ready(events[0].data), events[0].pressed);
    TurnFits(l, Ready(events[0].data), events[0].pressed);
    && CallSpecified(l.rx, Given(l, events[0]), k)
    && (t.Turn? ==> StreamSpecified(t.next, events[1..], SentInCall(l.rx, Given(l, events[0]), k)))
  }

  /** What can be seen of a turn: the message sent and what the panel shows. */
  datatype Sight = Sight(sent: Option<Message>, panel: Panel) | Lost

  function Sights(l: Loop, events: seq<Event>): seq<Sight>
    requires |l.held| <= VNC_BUFFER_MAX
    decreases |events|
  {
    if events == [] then []
    else
      var t := Iterate(l, Ready(events[0].data), events[0].pressed);
      TurnFits(l, Ready(events[0].data), events[0].pressed);
      if t.Turn? then [Sight(t.sent, t.next.rx.panel)] + Sights(t.next, events[1..]) else [Lost]
  }

  lemma TurnAlike(l: Loop, m: Loop, e: Event, k: Sent)
    requires |l.held| <= VNC_BUFFER_MAX && LoopsAlike(l, m, k)
    requires CallSpecified(l.rx, Given(l, e), k)
    ensures CallSpecified(m.rx, Given(m, e), k)
    ensures SentInCall(m.rx, Given(m, e), k) == SentInCall(l.rx, Given(l, e), k)
    ensures var t, u := Iterate(l, Ready(e.data), e.pressed), Iterate(m, Ready(e.data), e.pressed);
            if t.Turn? then
              u.Turn? && u.sent == t.sent && u.next.rx.panel == t.next.rx.panel
              && LoopsAlike(t.next, u.next, SentInCall(l.rx, Given(l, e), k))
            else !u.Turn?
  {
    hide Call, CallSpecified, SentInCall;
    CallAlike(l.rx, m.rx, Given(l, e), l.send, k);
  }

  lemma {:induction false} StreamAlike(l: Loop, m: Loop, events: seq<Event>, k: Sent)
    requires |l.held| <= VNC_BUFFER_MAX && LoopsAlike(l, m, k)
    requires StreamSpecified(l, events, k)
    ensures Sights(l, events) == Sights(m, events)
    decreases |events|
  {
    hide LoopsAlike, Iterate, CallSpecified, SentInCall;
    assert l.held == m.held by {
      AlikeHeld(l, m, k);
    }
    if events != [] {
      var e := events[0];
      TurnAlike(l, m, e, k);
      var t := Iterate(l, Ready(e.data), e.pressed);
      if t.Turn? {
        TurnFits(l, Ready(e.data), e.pressed);
        StreamAlike(t.next, Iterate(m, Ready(e.data), e.pressed).next, events[1..], SentInCall(l.rx, Given(l, e), k));
      }
    }
  }

  lemma AlikeHeld(l: Loop, m: Loop, k: Sent)
    requires LoopsAlike(l, m, k)
    ensures l.held == m.held
  {
  }

  /** The statics as the C runtime leaves them, in front of a panel that shows p. */
  function PowerOn(p: Panel): Rx
  {
    Rx(NotConnected, RectIdle, TileInit, 0, 0, 0, 0, 0, 0, 0, 0, 0, 0, 0, 0, 0, 0, seq(512, _ => 0), p)
  }

  function Boot(p: Panel, key: Key): Loop
  {
    Loop(PowerOn(p), [], SendInit, key)
  }

  /** From any state at all, even in the middle of a tile, a disconnect followed by any stream that
      sends its colours before it uses them shows the same panel and sends the same messages, turn
      by turn, as the stream would after power-on in front of the same panel. */
  lemma ResetIsBoot(l: Loop, events: seq<Event>)
    requires |l.held| <= VNC_BUFFER_MAX
    requires StreamSpecified(Iterate(l, Disconnect, NoKey).next, events, Sent(false, false))
    ensures Sights(Iterate(l, Disconnect, NoKey).next, events) == Sights(Boot(l.rx.panel, l.key), events)
  {
    StreamAlike(Iterate(l, Disconnect, NoKey).next, Boot(l.rx.panel, l.key), events, Sent(false, false));
  }
}
