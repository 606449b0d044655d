/** The main loop: bytes arrive in whatever portions the connection has them, go through a 200-byte
    buffer that is compacted in place, and at most one message leaves in every turn. */
module MainLoop {
  import opened Bytes
  import opened Panels
  import opened Receiver
  import opened Picture
  import opened Streams
  import opened Sender
  import opened VncClients

  const VNC_BUFFER_MAX: nat := 200

  /** Everything the loop keeps from one turn to the next. */
  datatype Loop = Loop(rx: Rx, held: seq<byte>, send: SendState, key: Key)

  /** What the connection offers in a turn: a disconnect, or the bytes it has ready. */
  datatype Arrival = Disconnect | Ready(data: seq<byte>)

  /** A turn of the loop. Astray: the remainder was negative, so the copy to the front of the buffer
      has a wrapped length and from then on the buffer may hold anything; `next.held` is empty.
      TileOutOfRange: a tile left the tile buffer, and nothing is known any more. */
  datatype Turn =
    | Turn(next: Loop, taken: nat, sent: Option<Message>)
    | Astray(next: Loop, taken: nat, sent: Option<Message>)
    | TileOutOfRange

  function Taken(l: Loop, data: seq<byte>): (n: nat)
    requires |l.held| <= VNC_BUFFER_MAX
    ensures n <= |data| && |l.held| + n <= VNC_BUFFER_MAX
  {
    Min(|data|, VNC_BUFFER_MAX - |l.held|)
  }

  /** The sending half of a turn. */
  function Respond(l: Loop): (Loop, Option<Message>)
  {
    var m := Next(l.send, l.rx.phase, l.key);
    (if m.None? then l
     else l.(send := AfterSending(l.send), key := if m.value.KeyPress? then NoKey else l.key),
     m)
  }

  /** A turn behind the reception: the buffer now holds b, of which `taken` bytes are new. */
  function Work(l: Loop, b: seq<byte>, taken: nat, pressed: Key): Turn
  {
    var e := Call(l.rx, b, l.send);
    if e.status == OutOfArray then TileOutOfRange
    else
      var rest := if e.status == Failed then [] else e.rest;
      var (next, m) := Respond(Loop(e.st, rest, e.send, if pressed == NoKey then l.key else pressed));
      if e.status == Failed then Astray(next, taken, m) else Turn(next, taken, m)
  }

  function Iterate(l: Loop, a: Arrival, pressed: Key): Turn
    requires |l.held| <= VNC_BUFFER_MAX
  {
    match a
    case Disconnect => Turn(Loop(l.rx.(phase := NotConnected), [], SendInit, l.key), 0, None)
    case Ready(data) => Work(l, l.held + data[..Taken(l, data)], Taken(l, data), pressed)
  }

  /** The connection was refused, or an unknown message came. */
  predicate Over(p: Phase)
  {
    p == Dead || p == AuthFailed
  }

  /** From then on every turn goes astray, whatever the buffer holds: the receiver and the send
      state stay and nothing is sent. */
  lemma OverForGood(l: Loop, b: seq<byte>, taken: nat, pressed: Key)
    requires Over(l.rx.phase)
    ensures Work(l, b, taken, pressed) ==
            Astray(l.(held := [], key := if pressed == NoKey then l.key else pressed), taken, None)
  {
    SilentWhenOver(l.send, pressed);
    SilentWhenOver(l.send, l.key);
  }

  /** No other call has a negative result. */
  lemma {:induction false} OnlyOverFails(s: Rx, b: seq<byte>, send: SendState)
    ensures var e := Call(s, b, send); e.status == Failed <==> Over(e.st.phase) && e.status != Rejected
    decreases |b|, Rank(s)
  {
    hide Step, Rank;
    StepFails(s, b);
    match Step(s, b)
    case Move(t, used) => OnlyOverFails(t, b[used..], SendAfter(s, t, send));
    case _ =>
  }

  lemma StepFails(s: Rx, b: seq<byte>)
    ensures var o := Step(s, b);
            && (o.Error? <==> Over(s.phase))
            && (o.Pause? || o.Wait? ==> !Over(o.next.phase))
  {
    hide StepRect;
    if s.phase == ProcessingUpdate {
      InsideUpdate(s, b);
    }
  }

  /** A call never leaves more than it was given. */
  lemma {:induction false} CallShrinks(s: Rx, b: seq<byte>, send: SendState)
    ensures |Call(s, b, send).rest| <= |b|
    decreases |b|, Rank(s)
  {
    match Step(s, b)
    case Move(t, used) => CallShrinks(t, b[used..], SendAfter(s, t, send));
    case _ =>
  }

  lemma TurnFits(l: Loop, a: Arrival, pressed: Key)
    requires |l.held| <= VNC_BUFFER_MAX
    ensures var t := Iterate(l, a, pressed); t.Turn? ==> |t.next.held| <= VNC_BUFFER_MAX
  {
    hide Call;
    if a.Ready? {
      CallShrinks(l.rx, l.held + a.data[..Taken(l, a.data)], l.send);
    }
  }

  // ----- Any chunking -----

  /** One turn is a stretch of the run over whatever is still to come. */
  lemma TurnInRun(l: Loop, data: seq<byte>, pressed: Key, later: seq<byte>)
    requires |l.held| <= VNC_BUFFER_MAX
    requires Run(l.rx, (l.held + data[..Taken(l, data)]) + later).Quiet?
    ensures var t := Iterate(l, Ready(data), pressed);
            && t.Turn? && t.taken == Taken(l, data)
            && Run(t.next.rx, t.next.held + later) == Run(l.rx, (l.held + data[..t.taken]) + later)
  {
    hide Run, Call;
    var b := l.held + data[..Taken(l, data)];
    var e := Call(l.rx, b, l.send);
    CallInRun(l.rx, b, l.send);
    RunSplit(l.rx, b, later);
    assert e.status == Starved || e.status == Paused;
    RunSplit(e.st, e.rest, later);
  }

  /** Turns without a disconnect; the key is what the buttons report in that turn. */
  datatype Event = Event(data: seq<byte>, pressed: Key)

  /** The bytes a schedule hands over, turn by turn. */
  function Delivered(l: Loop, events: seq<Event>): seq<byte>
    requires |l.held| <= VNC_BUFFER_MAX
    decreases |events|
  {
    if events == [] then []
    else
      var t := Iterate(l, Ready(events[0].data), events[0].pressed);
      TurnFits(l, Ready(events[0].data), events[0].pressed);
      events[0].data[..Taken(l, events[0].data)] + if t.Turn? then Delivered(t.next, events[1..]) else []
  }

  /** The loop after a schedule, unless a turn had no defined outcome. */
  function After(l: Loop, events: seq<Event>): (r: Option<Loop>)
    requires |l.held| <= VNC_BUFFER_MAX
    ensures r.Some? ==> |r.value.held| <= VNC_BUFFER_MAX
    decreases |events|
  {
    if events == [] then Some(l)
    else
      var t := Iterate(l, Ready(events[0].data), events[0].pressed);
      TurnFits(l, Ready(events[0].data), events[0].pressed);
      if t.Turn? then After(t.next, events[1..]) else None
  }

  /** A turn with no outcome means that the bytes were not those of a well-formed stream. */
  lemma NoTurnNoRun(l: Loop, e: Event)
    requires |l.held| <= VNC_BUFFER_MAX
    requires !Iterate(l, Ready(e.data), e.pressed).Turn?
    ensures Run(l.rx, l.held + e.data[..Taken(l, e.data)]).Fault?
  {
    hide Run, Call;
    CallInRun(l.rx, l.held + e.data[..Taken(l, e.data)], l.send);
  }

  /** The loop at any moment of a well-formed stream stands somewhere on the run over all it has
      been given. */
  lemma {:induction false} OnTheRun(l: Loop, events: seq<Event>)
    requires |l.held| <= VNC_BUFFER_MAX
    ensures var all := Run(l.rx, l.held + Delivered(l, events));
            all.Quiet? ==>
              && After(l, events).Some?
              && var z := After(l, events).value;
              Run(z.rx, z.held) == all
    decreases |events|
  {
    hide Run, Call;
    if events == [] {
      assert l.held + [] == l.held;
    } else if Run(l.rx, l.held + Delivered(l, events)).Quiet? {
      var e := events[0];
      var t := Iterate(l, Ready(e.data), e.pressed);
      var now := e.data[..Taken(l, e.data)];
      TurnFits(l, Ready(e.data), e.pressed);
      if t.Turn? {
        var later := Delivered(t.next, events[1..]);
        assert l.held + (now + later) == (l.held + now) + later;
        TurnInRun(l, e.data, e.pressed, later);
        OnTheRun(t.next, events[1..]);
      } else {
        assert now + [] == now;
        NoTurnNoRun(l, e);
      }
    }
  }

  /** Another turn without data would change nothing. */
  predicate Quiescent(l: Loop)
  {
    Step(l.rx, l.held) == Wait(l.rx)
  }

  /** At quiescence the receiver is what one run over the delivered bytes makes of it: the
      parser's statics, the unused remainder and the panel do not depend on the portions. */
  lemma AnyChunking(l: Loop, events: seq<Event>)
    requires |l.held| <= VNC_BUFFER_MAX
    ensures var all := Run(l.rx, l.held + Delivered(l, events));
            all.Quiet? ==>
              && After(l, events).Some?
              && var z := After(l, events).value;
              Quiescent(z) ==> all == Quiet(z.rx, z.held)
  {
    hide Run, Step, Delivered, After;
    OnTheRun(l, events);
    if After(l, events).Some? && Quiescent(After(l, events).value) {
      QuiescentRun(After(l, events).value);
    }
  }

  /** Two schedules that deliver the same bytes end the same. */
  lemma SameBytesSameEnd(l: Loop, m: Loop, events: seq<Event>, others: seq<Event>)
    requires |l.held| <= VNC_BUFFER_MAX && m.rx == l.rx && m.held == l.held
    requires Delivered(l, events) == Delivered(m, others)
    requires Run(l.rx, l.held + Delivered(l, events)).Quiet?
    ensures After(l, events).Some? && After(m, others).Some?
    ensures var z, y := After(l, events).value, After(m, others).value;
            Quiescent(z) && Quiescent(y) ==> z.rx == y.rx && z.held == y.held
  {
    AnyChunking(l, events);
    AnyChunking(m, others);
  }

  // ----- Reaching quiescence -----

  /** One turn without data: either nothing is left to do, or less is. */
  lemma SilentTurn(l: Loop)
    requires |l.held| <= VNC_BUFFER_MAX && Run(l.rx, l.held).Quiet?
    ensures var t := Iterate(l, Ready([]), NoKey);
            && t.Turn? && t.taken == 0 && |t.next.held| <= VNC_BUFFER_MAX
            && Run(t.next.rx, t.next.held) == Run(l.rx, l.held)
            && (Quiescent(t.next) || |t.next.held| < |l.held| ||
                (t.next.held == l.held && Rank(t.next.rx) < Rank(l.rx)))
  {
    hide Run, Call, Step;
    assert l.held + [][..0] == l.held;
    CallInRun(l.rx, l.held, l.send);
    CallShrinks(l.rx, l.held, l.send);
    StarvedWaits(l.rx, l.held, l.send);
  }

  lemma {:induction false} StarvedWaits(s: Rx, b: seq<byte>, send: SendState)
    ensures var e := Call(s, b, send); e.status == Starved ==> Step(e.st, e.rest) == Wait(e.st)
    decreases |b|, Rank(s)
  {
    match Step(s, b)
    case Move(t, used) => StarvedWaits(t, b[used..], SendAfter(s, t, send));
    case Wait(t) => WaitHarmless(s, b, []);
    case _ =>
  }

  /** How many turns without data bring the loop to rest. */
  function TurnsToRest(l: Loop): nat
    requires |l.held| <= VNC_BUFFER_MAX && Run(l.rx, l.held).Quiet?
    decreases |l.held|, Rank(l.rx)
  {
    if Quiescent(l) then 0
    else
      var t := Iterate(l, Ready([]), NoKey);
      SilentTurn(l);
      if Quiescent(t.next) then 1 else 1 + TurnsToRest(t.next)
  }

  function Silence(n: nat): (e: seq<Event>)
    ensures |e| == n
  {
    if n == 0 then [] else [Event([], NoKey)] + Silence(n - 1)
  }

  /** Left without data the loop comes to rest, on the same run. */
  lemma {:induction false} ComesToRest(l: Loop)
    requires |l.held| <= VNC_BUFFER_MAX && Run(l.rx, l.held).Quiet?
    ensures var z := After(l, Silence(TurnsToRest(l)));
            z.Some? && Quiescent(z.value) && Run(l.rx, l.held) == Quiet(z.value.rx, z.value.held)
    decreases |l.held|, Rank(l.rx)
  {
    hide Run, Call, Step;
    if Quiescent(l) {
      QuiescentRun(l);
    } else {
      var t := Iterate(l, Ready([]), NoKey);
      SilentTurn(l);
      if Quiescent(t.next) {
        QuiescentRun(t.next);
        assert Silence(1) == [Event([], NoKey)] + Silence(0);
        assert Silence(1)[1..] == [];
      } else {
        ComesToRest(t.next);
        assert Silence(TurnsToRest(l))[1..] == Silence(TurnsToRest(t.next));
      }
    }
  }

  lemma QuiescentRun(l: Loop)
    requires Quiescent(l)
    ensures Run(l.rx, l.held) == Quiet(l.rx, l.held)
  {
  }

  // ----- The buffer never wedges -----

  /** At rest the buffer is full only while a server name longer than the buffer is awaited. */
  lemma RoomForMore(l: Loop)
    requires |l.held| <= VNC_BUFFER_MAX && Quiescent(l)
    ensures |l.held| == 200 ==> l.rx.phase == WaitServerName && l.rx.pixelCount > 200
    ensures l.rx.phase.Order() > WaitServerName.Order() ==> |l.held| <= 11
  {
    QuiescentRun(l);
    BoundedResidue(l.rx, l.held);
  }

  /** Exactly when the greeting can be got through: while a name is awaited, some schedule passes
      it if and only if the name fits the buffer. */
  lemma {:induction false} LongNameNeverPasses(l: Loop, events: seq<Event>)
    requires |l.held| <= VNC_BUFFER_MAX && l.rx.phase == WaitServerName && l.rx.pixelCount > 200
    ensures After(l, events).Some? && After(l, events).value.rx == l.rx
    decreases |events|
  {
    if events != [] {
      var t := Iterate(l, Ready(events[0].data), events[0].pressed);
      var b := l.held + events[0].data[..Taken(l, events[0].data)];
      assert Step(l.rx, b) == Wait(l.rx);
      LongNameNeverPasses(t.next, events[1..]);
    }
  }

  lemma ShortNamePasses(l: Loop, data: seq<byte>, pressed: Key)
    requires |l.held| <= VNC_BUFFER_MAX && l.rx.phase == WaitServerName && l.rx.pixelCount <= 200
    requires |l.held| + |data| == l.rx.pixelCount
    ensures var t := Iterate(l, Ready(data), pressed);
            t.Turn? && t.taken == |data| && t.next.held == [] && t.next.rx == l.rx.(phase := WaitUpdate)
  {
    var b := l.held + data;
    assert data[..|data|] == data;
    var u := l.rx.(phase := Connected);
    assert b[l.rx.pixelCount..] == [];
    CallMove(l.rx, b, l.send, u, l.rx.pixelCount);
    CallStay(u, [], l.send, u.(phase := WaitUpdate));
    CallStarved(u.(phase := WaitUpdate), [], l.send);
  }

  // ----- Whole sessions -----

  lemma PrefixRuns(s: Rx, a: seq<byte>, b: seq<byte>)
    requires Run(s, a + b).Quiet?
    ensures Run(s, a).Quiet?
  {
    hide Run;
    RunSplit(s, a, b);
  }

  /** Every schedule that delivers a prefix of a well-formed session keeps the loop going, and one
      that delivers all of it leaves, at rest, an empty buffer and the session's picture. */
  lemma AnySession(l: Loop, x: Session, events: seq<Event>)
    requires l.held == [] && l.rx.phase == NotConnected && ValidSession(x)
    requires Delivered(l, events) <= EncodeSession(x)
    ensures After(l, events).Some?
    ensures var z := After(l, events).value;
            Delivered(l, events) == EncodeSession(x) && Quiescent(z) ==>
              && z.held == [] && AwaitsUpdate(z.rx)
              && z.rx.panel == PaintUpdates(l.rx.panel, CarryOf(l.rx), x.updates)
  {
    hide Run, Step, EncodeSession, PaintUpdates, Delivered, After, Iterate;
    var d := Delivered(l, events);
    var e := EncodeSession(x);
    RunSession(l.rx, x);
    assert d + e[|d|..] == e && l.held + d == d;
    PrefixRuns(l.rx, d, e[|d|..]);
    AnyChunking(l, events);
  }

  // ----- One message between updates -----

  /** How many updates a call begins. */
  function Begun(s: Rx, b: seq<byte>): nat
    decreases |b|, Rank(s)
  {
    match Step(s, b)
    case Move(t, used) =>
      (if t.phase == ProcessingUpdate && s.phase != ProcessingUpdate then 1 else 0) + Begun(t, b[used..])
    case _ => 0
  }

  lemma InsideUpdate(s: Rx, b: seq<byte>)
    requires s.phase == ProcessingUpdate
    ensures var o := Step(s, b);
            && (o.Move? || o.Wait? || o.Reject? ==> o.next.phase == ProcessingUpdate)
            && (o.Pause? ==> o.next.phase == ProcessingUpdate || o.next.phase == ConnectedRefresh)
            && !o.Error?
  {
  }

  /** A call begins at most one update, and none while it is inside one; inside an update it stays
      there or ends right behind it. */
  lemma {:induction false} OneUpdateAtATime(s: Rx, b: seq<byte>, send: SendState)
    ensures Begun(s, b) <= if s.phase == ProcessingUpdate then 0 else 1
    ensures var e := Call(s, b, send);
            s.phase == ProcessingUpdate || Begun(s, b) == 1 ==>
              e.st.phase == ProcessingUpdate || (e.st.phase == ConnectedRefresh && e.status == Paused)
    decreases |b|, Rank(s)
  {
    hide Step, Rank;
    if s.phase == ProcessingUpdate {
      InsideUpdate(s, b);
    }
    match Step(s, b)
    case Move(t, used) => OneUpdateAtATime(t, b[used..], SendAfter(s, t, send));
    case _ =>
  }

  /** A turn begins at most one update, and the turn that finishes it sends a message, before any
      later byte is looked at. */
  lemma SpeaksBetweenUpdates(l: Loop, data: seq<byte>, pressed: Key)
    requires |l.held| <= VNC_BUFFER_MAX
    ensures var begun := Begun(l.rx, l.held + data[..Taken(l, data)]);
            var t := Iterate(l, Ready(data), pressed);
            && begun <= (if l.rx.phase == ProcessingUpdate then 0 else 1)
            && (t.Turn? && (begun == 1 || l.rx.phase == ProcessingUpdate) && t.next.rx.phase != ProcessingUpdate ==>
                  t.next.rx.phase == ConnectedRefresh && t.sent.Some?)
  {
    hide Call, Begun;
    OneUpdateAtATime(l.rx, l.held + data[..Taken(l, data)], l.send);
  }

  // ----- The loop itself -----

  class DisplayLoop {
    const client: VncClient
    const vncBuffer: array<byte>
    const vncResponseBuffer: array<byte>
    var vncBufferSize: nat
    var keypress: Key

    ghost predicate Valid()
      reads this, client, client.lcd
    {
      && client.Valid()
      && vncBuffer.Length == VNC_BUFFER_MAX && vncResponseBuffer.Length == 50
      && vncBuffer != client.hextileBuffer && vncBuffer != vncResponseBuffer
      && vncResponseBuffer != client.hextileBuffer
      && vncBufferSize <= VNC_BUFFER_MAX
    }

    ghost function Abs(): Loop
      requires Valid()
      reads this, client, client.lcd, client.hextileBuffer, vncBuffer
    {
      Loop(client.Abs(), vncBuffer[..vncBufferSize], client.vncSendState, keypress)
    }

    constructor (display: SpiLcd)
      requires display.Valid()
      ensures Valid() && Abs().held == [] && Abs().send == SendInit && Abs().rx.phase == NotConnected
      ensures Abs().rx.panel == display.Shown() && fresh(client) && client.lcd == display
      ensures fresh(vncBuffer) && fresh(vncResponseBuffer) && fresh(client.hextileBuffer)
    {
      client := new VncClient(display);
      vncBuffer := new byte[VNC_BUFFER_MAX](_ => 0);
      vncResponseBuffer := new byte[50](_ => 0);
      vncBufferSize := 0;
      keypress := NoKey;
    }

    /** VncServerGetData: as many of the bytes at hand as fit behind what is held. */
    method GetData(data: seq<byte>) returns (size: nat)
      requires Valid()
      modifies vncBuffer
      ensures size == Min(|data|, VNC_BUFFER_MAX - vncBufferSize)
      ensures vncBuffer[..vncBufferSize + size] == old(vncBuffer[..vncBufferSize]) + data[..size]
    {
      size := 0;
      while size < VNC_BUFFER_MAX - vncBufferSize && size < |data|
        invariant size <= |data| && vncBufferSize + size <= VNC_BUFFER_MAX
        invariant vncBuffer[..vncBufferSize + size] == old(vncBuffer[..vncBufferSize]) + data[..size]
      {
        vncBuffer[vncBufferSize + size] := data[size];
        size := size + 1;
      }
    }

    /** The unused bytes to the front of the buffer, in place. */
    method Compact(from: nat, size: nat)
      requires from + size <= vncBuffer.Length
      modifies vncBuffer
      ensures vncBuffer[..size] == old(vncBuffer[from..from + size])
    {
      for i := 0 to size
        invariant vncBuffer[..i] == old(vncBuffer[from..from + i])
        invariant forall k :: i <= k < vncBuffer.Length ==> vncBuffer[k] == old(vncBuffer[k])
      {
        vncBuffer[i] := vncBuffer[from + i];
      }
    }

    method CopyResponse(bytes: seq<byte>)
      requires |bytes| <= vncResponseBuffer.Length
      modifies vncResponseBuffer
      ensures vncResponseBuffer[..|bytes|] == bytes
    {
      for i := 0 to |bytes|
        invariant vncResponseBuffer[..i] == bytes[..i]
      {
        vncResponseBuffer[i] := bytes[i];
      }
      assert bytes[..|bytes|] == bytes;
    }

    /** Vnc_LoadResponseBuffer: the next message, if its time has come, and its size. */
    method LoadResponseBuffer() returns (size: nat, ghost sent: Option<Message>)
      requires Valid()
      modifies client`vncSendState, this`keypress, vncResponseBuffer
      ensures Valid() && (Abs(), sent) == Respond(old(Abs()))
      ensures size <= vncResponseBuffer.Length
      ensures vncResponseBuffer[..size] == if sent.Some? then MessageBytes(sent.value) else []
    {
      size := 0;
      sent := None;
      ghost var l := Abs();
      var m := Next(client.vncSendState, client.vncState, keypress);
      match m {
        case None =>
        case Some(message) =>
          CopyResponse(MessageBytes(message));
          size := |MessageBytes(message)|;
          sent := m;
          client.vncSendState := AfterSending(client.vncSendState);
          if message.KeyPress? {
            keypress := NoKey;
          }
      }
    }

    /** Everything but the buffer, whose content is unknown behind a copy that went astray. */
    ghost predicate AgreesButHeld(l: Loop)
      requires Valid()
      reads this, client, client.lcd, client.hextileBuffer
    {
      client.Abs() == l.rx && client.vncSendState == l.send && keypress == l.key
    }

    /** The call and the copy of what it left over to the front of the buffer. `ok` is false when
        the remainder is negative; the copy, which then has a wrapped length, is left out. */
    method Process() returns (ok: bool)
      requires Valid()
      modifies this`vncBufferSize, client, client.lcd, client.hextileBuffer, vncBuffer
      ensures Valid()
      ensures var e := old(Call(client.Abs(), vncBuffer[..vncBufferSize], client.vncSendState));
              && ok == (e.status != Failed)
              && (e.status != OutOfArray ==> client.Abs() == e.st && client.vncSendState == e.send)
              && (ok && e.status != OutOfArray ==> vncBuffer[..vncBufferSize] == e.rest)
    {
      hide Call, Step;
      var retval := client.ProcessVncBuffer(vncBuffer, vncBufferSize);
      ok := retval >= 0;
      if ok {
        ghost var rest := client.Data();
        RestIsTail();
        Compact(vncBufferSize - retval, retval);
        vncBufferSize := retval;
        assert vncBuffer[..vncBufferSize] == rest;
      }
    }

    /** One turn of the loop. When the copy goes astray the rest of the turn goes on as in the
        source. */
    method Iteration(arrival: Arrival, pressed: Key) returns (ok: bool, size: nat, ghost sent: Option<Message>)
      requires Valid()
      modifies this, client, client.lcd, client.hextileBuffer, vncBuffer, vncResponseBuffer
      ensures Valid()
      ensures var t := old(Iterate(Abs(), arrival, pressed));
              && (t.Turn? ==> ok && Abs() == t.next && sent == t.sent)
              && (t.Astray? ==> !ok && AgreesButHeld(t.next) && sent == t.sent)
      ensures size <= vncResponseBuffer.Length &&
              vncResponseBuffer[..size] == if sent.Some? then MessageBytes(sent.value) else []
    {
      hide Call, Next;
      ghost var l := Abs();
      if arrival.Disconnect? {
        vncBufferSize := 0;
        client.ResetSystem();
        assert vncBuffer[..0] == [];
        return true, 0, None;
      }
      var response := GetData(arrival.data);
      vncBufferSize := vncBufferSize + response;
      assert client.Abs() == l.rx && vncBuffer[..vncBufferSize] == l.held + arrival.data[..Taken(l, arrival.data)];
      ok := Process();
      keypress := if pressed == NoKey then keypress else pressed;
      size, sent := LoadResponseBuffer();
    }

    /** A turn behind a copy that went astray, with whatever memory then holds in the buffer's
        place: once the connection is over, it changes nothing and sends nothing. */
    method TurnAstray(memory: array<byte>, length: nat, pressed: Key) returns (size: nat, ghost sent: Option<Message>)
      requires Valid() && Over(client.vncState)
      requires length <= memory.Length && memory != client.hextileBuffer && memory != vncResponseBuffer
      modifies this, client, client.lcd, client.hextileBuffer, vncResponseBuffer
      ensures Valid() && client.Abs() == old(client.Abs()) && client.vncSendState == old(client.vncSendState)
      ensures size == 0 && sent == None
    {
      OverForGood(Abs(), memory[..length], 0, pressed);
      var retval := client.ProcessVncBuffer(memory, length);
      keypress := if pressed == NoKey then keypress else pressed;
      size, sent := LoadResponseBuffer();
    }

    lemma RestIsTail()
      requires client.Valid() && client.buffer == vncBuffer && client.dataPtr + client.dataSize <= vncBuffer.Length
      ensures client.Data() == vncBuffer[client.dataPtr..client.dataPtr + client.dataSize]
    {
    }
  }
}
