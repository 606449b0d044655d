/** The client and a version 3.3 server as one system: bytes in flight in both directions, every
    order of sending, delivering and receiving.

    The server may send no further than the protocol lets it (RFC 6143, sections 7.1 to 7.3 and
    appendix A.1): its security type after the client's version, its result after the client's
    response, its initialisation after the client's, and updates after the first full request.
    Behind its initialisation it may send other messages (section 7.6) before that request. */
module Handshake {
  import opened Bytes
  import opened Receiver
  import opened Sender
  import opened MainLoop

  datatype Kind = NoAuth | VncAccepted | VncRejected | Unsupported

  /** A server: how it authenticates, how long its name is, how many bytes of other messages it
      sends between its initialisation and the first full request, and everything it will ever
      send. */
  datatype Server = Server(kind: Kind, name: nat, early: nat, stream: seq<byte>)

  /** Where the server's initialisation message starts. */
  function InitAt(v: Server): nat
  {
    if v.kind == NoAuth then 16 else 36
  }

  predicate Accepts(v: Server)
  {
    v.kind == NoAuth || v.kind == VncAccepted
  }

  /** Where a server that does not accept the client has said so. */
  function RefusedAt(v: Server): nat
  {
    if v.kind == Unsupported then 16 else 36
  }

  /** The end of the greeting. */
  function GreetingEnd(v: Server): nat
  {
    InitAt(v) + 24 + v.name
  }

  predicate ValidServer(v: Server)
  {
    && |v.stream| >= 16
    && (match v.kind
        case NoAuth => v.stream[15] == 1
        case VncAccepted => v.stream[15] == 2 && |v.stream| >= 36 && v.stream[35] == 0
        case VncRejected => v.stream[15] == 2 && |v.stream| >= 36 && v.stream[35] != 0
        case Unsupported => v.stream[15] != 1 && v.stream[15] != 2)
    && (Accepts(v) ==>
          && |v.stream| >= GreetingEnd(v) + v.early
          && Long(v.stream, InitAt(v) + 20) == v.name
          && (v.early > 0 ==> v.stream[GreetingEnd(v)] != 0))
  }

  /** How far the server may have sent, once it has received n bytes. */
  function Allowed(v: Server, n: nat): nat
  {
    if n < 12 then 12
    else
      match v.kind
      case NoAuth => if n < 13 then 16 else if n < 55 then GreetingEnd(v) + v.early else |v.stream|
      case VncAccepted =>
        if n < 28 then 32
        else if n < 29 then 36
        else if n < 71 then GreetingEnd(v) + v.early
        else |v.stream|
      case VncRejected => if n < 28 then 32 else |v.stream|
      case Unsupported => |v.stream|
  }

  // ----- The client's side of the stream -----

  predicate Greeting(p: Phase)
  {
    NotConnected.Order() <= p.Order() <= WaitServerName.Order()
  }

  /** The bytes used when a phase of the greeting is reached, and those it waits for. */
  function Used(v: Server, p: Phase): nat
  {
    match p
    case NotConnected => 0
    case WaitAuthType => 12
    case WaitAuthWord => 16
    case WaitAuthResponse => 32
    case WaitServerInit => InitAt(v)
    case WaitServerName => InitAt(v) + 24
    case _ => 0
  }

  function Needed(v: Server, p: Phase): nat
  {
    match p
    case NotConnected => 12
    case WaitAuthType => 4
    case WaitAuthWord => 16
    case WaitAuthResponse => 4
    case WaitServerInit => 24
    case WaitServerName => v.name
    case _ => 0
  }

  /** The header of an update has been accepted. */
  predicate InUpdates(p: Phase)
  {
    p == ConnectedRefresh || p == ProcessingUpdate
  }

  /** The receiver and its buffer after d bytes of the server's stream. */
  predicate Follows(v: Server, s: Rx, b: seq<byte>, d: nat)
    requires ValidServer(v) && d <= |v.stream|
  {
    && (Greeting(s.phase) ==> Used(v, s.phase) <= d && b == v.stream[Used(v, s.phase)..d])
    && (s.phase == WaitAuthWord || s.phase == WaitAuthResponse ==> v.kind == VncAccepted || v.kind == VncRejected)
    && (s.phase.Order() >= WaitServerInit.Order() || s.phase == Dead ==> Accepts(v))
    && (s.phase == WaitServerName ==> s.pixelCount == v.name)
    && (s.phase == Connected || s.phase == WaitUpdate ==> GreetingEnd(v) <= d && b == v.stream[GreetingEnd(v)..d])
    && (InUpdates(s.phase) || s.phase == Dead ==> d >= GreetingEnd(v) + 4)
    && (InUpdates(s.phase) ==> v.stream[GreetingEnd(v)] == 0)
    && (s.phase == AuthFailed ==> !Accepts(v) && d >= RefusedAt(v))
  }

  lemma FollowsStep(v: Server, s: Rx, b: seq<byte>, d: nat)
    requires ValidServer(v) && d <= |v.stream| && Follows(v, s, b, d)
    ensures var o := Step(s, b);
            && (o.Move? ==> Follows(v, o.next, b[o.used..], d) &&
                            (Greeting(s.phase) && Greeting(o.next.phase) ==>
                               Used(v, o.next.phase) == Used(v, s.phase) + o.used))
            && (o.Pause? || o.Wait? || o.Reject? ==> Follows(v, o.next, b, d))
            && (Greeting(s.phase) ==> (o.Move? || (o == Wait(s) && |b| < Needed(v, s.phase))))
  {
    hide Step, Follows;
    if Greeting(s.phase) {
      GreetingStep(v, s, b, d);
    } else {
      UpdatesStep(v, s, b, d);
    }
    WaitsInGreeting(v, s);
  }

  lemma WaitsInGreeting(v: Server, s: Rx)
    ensures Greeting(s.phase) ==> s.phase != Connected && s.phase != WaitUpdate
  {
  }

  lemma StepRectPhase(s: Rx, b: seq<byte>)
    requires s.phase == ProcessingUpdate
    ensures var o := StepRect(s, b);
            && (o.Move? || o.Wait? || o.Reject? ==> o.next.phase == ProcessingUpdate)
            && (o.Pause? ==> o.next.phase == ConnectedRefresh || o.next.phase == ProcessingUpdate)
            && !o.Error?
  {
  }

  lemma UpdatesStep(v: Server, s: Rx, b: seq<byte>, d: nat)
    requires ValidServer(v) && d <= |v.stream| && Follows(v, s, b, d) && !Greeting(s.phase)
    ensures var o := Step(s, b);
            && (o.Move? ==> Follows(v, o.next, b[o.used..], d) && !Greeting(o.next.phase))
            && (o.Pause? || o.Wait? || o.Reject? ==> Follows(v, o.next, b, d))
  {
    hide StepRect;
    if s.phase == ProcessingUpdate {
      StepRectPhase(s, b);
    } else if s.phase == Connected {
      assert b[0..] == b;
    }
  }

  lemma GreetingStep(v: Server, s: Rx, b: seq<byte>, d: nat)
    requires ValidServer(v) && d <= |v.stream| && Follows(v, s, b, d) && Greeting(s.phase)
    ensures var o := Step(s, b);
            if |b| < Needed(v, s.phase) then o == Wait(s)
            else o.Move? && o.used == Needed(v, s.phase) && Follows(v, o.next, b[o.used..], d)
                 && (Greeting(o.next.phase) ==> Used(v, o.next.phase) == Used(v, s.phase) + o.used)
  {
    hide Long, StepRect, StepUpdateHeader;
    var o := Step(s, b);
    var u := Used(v, s.phase);
    if o.Move? {
      assert b[o.used..] == v.stream[u + o.used..d] by {
        SliceDrop(v.stream, u, d, o.used);
      }
      match s.phase
      case WaitAuthType => SliceAt(v.stream, u, d, 3);
      case WaitAuthResponse => SliceAt(v.stream, u, d, 3);
      case WaitServerInit => LengthField(v.stream, u, d);
      case WaitServerName => assert Follows(v, o.next, b[o.used..], d);
      case _ =>
    }
  }

  lemma LengthField(a: seq<byte>, i: nat, j: nat)
    requires i + 24 <= j <= |a|
    ensures Long(a[i..j], 20) == Long(a, i + 20)
  {
    SliceAt(a, i, j, 20);
    SliceAt(a, i, j, 21);
    SliceAt(a, i, j, 22);
    SliceAt(a, i, j, 23);
  }

  /** Between turns the loop is short of data, inside the updates, or over. */
  predicate Settled(v: Server, s: Rx, b: seq<byte>)
  {
    if Greeting(s.phase) then |b| < Needed(v, s.phase)
    else Over(s.phase) || InUpdates(s.phase) || (s.phase == WaitUpdate && |b| < 4)
  }

  predicate PastAuthType(p: Phase)
  {
    p == Dead || p.Order() >= WaitServerInit.Order()
  }

  lemma {:induction false} FollowsCall(v: Server, s: Rx, b: seq<byte>, send: SendState, d: nat)
    requires ValidServer(v) && d <= |v.stream| && Follows(v, s, b, d)
    ensures var e := Call(s, b, send);
            && Follows(v, e.st, e.rest, d)
            && (e.status != OutOfArray ==> Settled(v, e.st, e.rest))
            && (e.status == OutOfArray ==> e.st.phase == ProcessingUpdate)
            && (e.status == Failed ==> Over(e.st.phase))
            && e.send == (if s.phase.Order() <= WaitAuthType.Order() && Greeting(s.phase) &&
                             v.kind == NoAuth && PastAuthType(e.st.phase)
                          then AuthWordSent else send)
            && (Greeting(e.st.phase) ==> Greeting(s.phase) && s.phase.Order() <= e.st.phase.Order())
            && (PastAuthType(s.phase) ==> PastAuthType(e.st.phase))
    decreases |b|, Rank(s)
  {
    hide Follows, Settled, Step;
    FollowsStep(v, s, b, d);
    PhaseSteps(v, s, b, d);
    StepSettles(v, s, b, d);
    match Step(s, b)
    case Move(t, used) => FollowsCall(v, t, b[used..], SendAfter(s, t, send), d);
    case _ =>
  }

  lemma PhaseSteps(v: Server, s: Rx, b: seq<byte>, d: nat)
    requires ValidServer(v) && d <= |v.stream| && Follows(v, s, b, d)
    ensures var o := Step(s, b);
            && (o.Move? && Greeting(o.next.phase) ==> Greeting(s.phase) && s.phase.Order() < o.next.phase.Order())
            && (o.Move? && PastAuthType(s.phase) ==> PastAuthType(o.next.phase))
            && (o.Move? && s.phase.Order() > WaitAuthType.Order() ==>
                  o.next.phase == AuthFailed || o.next.phase.Order() > WaitAuthType.Order())
            && (o.Move? && SendAfter(s, o.next, SendInit) != SendInit ==>
                  v.kind == NoAuth && s.phase == WaitAuthType && PastAuthType(o.next.phase))
            && (o.Move? && s.phase == WaitAuthType && v.kind == NoAuth ==>
                  SendAfter(s, o.next, SendInit) == AuthWordSent)
            && (o.Move? && v.kind == NoAuth && s.phase == NotConnected ==> o.next.phase == WaitAuthType)
            && (o.Wait? && !Greeting(s.phase) ==>
                  o.next.phase == s.phase && (InUpdates(s.phase) || (s.phase == WaitUpdate && |b| < 4)))
            && (o.Pause? || o.Reject? ==> o.next.phase == Dead || InUpdates(o.next.phase))
            && (o.Undefined? ==> s.phase == ProcessingUpdate)
            && (o.Error? <==> Over(s.phase))
  {
    hide StepRect;
    if s.phase == ProcessingUpdate {
      StepRectPhase(s, b);
    }
  }

  /** A call ends in the greeting only for lack of data. */
  lemma StepSettles(v: Server, s: Rx, b: seq<byte>, d: nat)
    requires ValidServer(v) && d <= |v.stream| && Follows(v, s, b, d)
    ensures var o := Step(s, b);
            && (o.Pause? || o.Wait? || o.Reject? ==> Settled(v, o.next, b))
            && (o.Error? ==> Settled(v, s, b))
  {
    hide Step, Follows;
    FollowsStep(v, s, b, d);
    PhaseSteps(v, s, b, d);
  }

  // ----- The client's output -----

  function MessageSize(m: Message): (n: nat)
    ensures n == |MessageBytes(m)|
  {
    match m
    case VersionMessage => 12
    case AuthWord => 16
    case ClientInit => 1
    case PixelFormat => 20
    case EncodingTypes => 12
    case FullRefresh => 10
    case PartialRefresh => 10
    case KeyPress(_) => 8
  }

  function OutSize(out: seq<Message>): nat
  {
    if out == [] then 0 else OutSize(out[..|out| - 1]) + MessageSize(out[|out| - 1])
  }

  lemma OutSizeAppend(out: seq<Message>, m: Message)
    ensures OutSize(out + [m]) == OutSize(out) + MessageSize(m)
  {
    assert (out + [m])[..|out|] == out;
  }

  /** The messages up to and including the full refresh request, in the order of the send states. */
  function Script(v: Server): seq<Message>
  {
    [VersionMessage] + (if v.kind == NoAuth then [] else [AuthWord]) +
    [ClientInit, PixelFormat, EncodingTypes, FullRefresh]
  }

  /** What the client says to such a server before it settles down: with an unknown security type its
      version only, with a refused response its version and the response. */
  function Opening(v: Server): seq<Message>
  {
    match v.kind
    case Unsupported => [VersionMessage]
    case VncRejected => [VersionMessage, AuthWord]
    case _ => Script(v)
  }

  /** How much of the script is out in a send state. */
  function Count(v: Server, send: SendState): nat
  {
    var skipped := if v.kind == NoAuth then 1 else 0;
    match send
    case SendInit => 0
    case VersionSent => 1
    case AuthWordSent => 2 - skipped
    case ClientInitSent => 3 - skipped
    case PixelFormatSent => 4 - skipped
    case EncodingsSent => 5 - skipped
    case RefreshSent => 6 - skipped
  }

  predicate Later(m: Message)
  {
    m == PartialRefresh || m.KeyPress?
  }

  /** What RFC 6143 lets this client have sent: a prefix of the opening, or, if the server accepts it,
      all of the opening followed by incremental refresh requests and key events only. */
  predicate Orderly(v: Server, out: seq<Message>)
  {
    || out <= Opening(v)
    || (Accepts(v) && Opening(v) <= out && forall k :: |Opening(v)| <= k < |out| ==> Later(out[k]))
  }

  /** The output in a send state. */
  predicate OutputAt(v: Server, send: SendState, out: seq<Message>)
  {
    var n := Count(v, send);
    if send == RefreshSent then Script(v) <= out && forall k :: n <= k < |out| ==> Later(out[k])
    else out == Script(v)[..n]
  }

  /** Bytes sent before the full refresh request. */
  function SizeAt(v: Server, send: SendState): nat
  {
    var word := if v.kind == NoAuth then 0 else 16;
    match send
    case SendInit => 0
    case VersionSent => 12
    case AuthWordSent => 12 + word
    case ClientInitSent => 13 + word
    case PixelFormatSent => 33 + word
    case EncodingsSent => 45 + word
    case RefreshSent => 55 + word
  }

  /** The state before the last message of the opening. */
  function Preceding(v: Server, send: SendState): SendState
  {
    match send
    case SendInit => SendInit
    case VersionSent => SendInit
    case AuthWordSent => if v.kind == NoAuth then SendInit else VersionSent
    case ClientInitSent => AuthWordSent
    case PixelFormatSent => ClientInitSent
    case EncodingsSent => PixelFormatSent
    case RefreshSent => EncodingsSent
  }

  lemma OneMore(v: Server, send: SendState)
    requires Count(v, send) > 0
    ensures Count(v, Preceding(v, send)) == Count(v, send) - 1
    ensures SizeAt(v, send) == SizeAt(v, Preceding(v, send)) + MessageSize(Script(v)[Count(v, send) - 1])
  {
  }

  lemma {:induction false} OutSizeScript(v: Server, send: SendState)
    ensures OutSize(Script(v)[..Count(v, send)]) == SizeAt(v, send)
    decreases Count(v, send)
  {
    hide Script, MessageSize, SizeAt;
    var n := Count(v, send);
    if n > 0 {
      OneMore(v, send);
      OutSizeScript(v, Preceding(v, send));
      var o := Script(v);
      ScriptLength(v);
      assert o[..n] == o[..n - 1] + [o[n - 1]];
      OutSizeAppend(o[..n - 1], o[n - 1]);
    } else {
      SizeAtNone(v, send);
    }
  }

  lemma ScriptLength(v: Server)
    ensures |Script(v)| == Count(v, RefreshSent)
  {
  }

  lemma SizeAtNone(v: Server, send: SendState)
    requires Count(v, send) == 0
    ensures SizeAt(v, send) == 0 && Script(v)[..0] == []
  {
  }

  // ----- The composed system -----

  /** Running: every turn so far had an outcome. Adrift: a copy went astray, and the buffer may
      hold anything. Corrupt: a tile left the tile buffer, and no more is said of the client. */
  datatype Fate = Running | Adrift | Corrupt

  datatype Sys = Sys(emitted: nat, delivered: nat, received: nat, loop: Loop, out: seq<Message>, fate: Fate)

  /** The server sends up to byte n; the server takes the client's bytes up to n; the client's loop
      has a turn with n of the bytes in flight; a client adrift has a turn with any bytes at all. */
  datatype Action =
    | Emit(n: nat)
    | Receive(n: nat)
    | ClientTurn(n: nat, pressed: Key)
    | Drift(junk: seq<byte>, pressed: Key)

  function Turned(x: Sys, t: Turn): Sys
  {
    if t.TileOutOfRange? then x.(fate := Corrupt)
    else
      x.(delivered := x.delivered + t.taken, loop := t.next,
         out := x.out + if t.sent.Some? then [t.sent.value] else [],
         fate := if t.Astray? then Adrift else x.fate)
  }

  function Do(v: Server, x: Sys, a: Action): Sys
    requires |x.loop.held| <= VNC_BUFFER_MAX && x.emitted <= |v.stream|
  {
    match a
    case Emit(n) =>
      if x.emitted <= n <= Allowed(v, x.received) && n <= |v.stream| then x.(emitted := n) else x
    case Receive(n) =>
      if x.received <= n <= OutSize(x.out) then x.(received := n) else x
    case ClientTurn(n, pressed) =>
      if !HasTurn(x, n) then x
      else Turned(x, Iterate(x.loop, Ready(v.stream[x.delivered..x.delivered + n]), pressed))
    case Drift(junk, pressed) =>
      if x.fate == Adrift then Turned(x, Work(x.loop, junk, 0, pressed)) else x
  }

  predicate HasTurn(x: Sys, n: nat)
  {
    x.fate == Running && x.delivered + n <= x.emitted
  }

  function Start(l: Loop): Sys
  {
    Sys(0, 0, 0, l, [], Running)
  }

  predicate Fresh(l: Loop)
  {
    l.rx.phase == NotConnected && l.held == [] && l.send == SendInit
  }

  /** Between turns each phase of the greeting goes with one send state. */
  predicate InStep(v: Server, p: Phase, send: SendState)
  {
    match p
    case NotConnected => send == SendInit
    case WaitAuthType => send == VersionSent
    case WaitAuthWord => send == VersionSent
    case WaitAuthResponse => send == AuthWordSent
    case WaitServerInit => send == ClientInitSent
    case WaitServerName => send == ClientInitSent
    case WaitUpdate => send == PixelFormatSent || send == EncodingsSent || send == RefreshSent
    case AuthFailed => send == if v.kind == Unsupported then VersionSent else AuthWordSent
    case Dead => send == ClientInitSent || send == PixelFormatSent || send == EncodingsSent || send == RefreshSent
    case _ => send == RefreshSent
  }

  predicate Inv(v: Server, x: Sys)
  {
    && ValidServer(v)
    && x.delivered <= x.emitted <= |v.stream| && x.emitted <= Allowed(v, x.received)
    && x.received <= OutSize(x.out)
    && |x.loop.held| <= VNC_BUFFER_MAX
    && Follows(v, x.loop.rx, x.loop.held, x.delivered)
    && Settled(v, x.loop.rx, x.loop.held)
    && InStep(v, x.loop.rx.phase, x.loop.send)
    && OutputAt(v, x.loop.send, x.out)
    && (x.fate == Adrift ==> Over(x.loop.rx.phase))
    && (x.fate == Corrupt ==> x.loop.send == RefreshSent)
  }

  lemma StartInv(v: Server, l: Loop)
    requires ValidServer(v) && Fresh(l)
    ensures Inv(v, Start(l))
  {
    hide Script;
    assert Script(v)[..0] == [];
    assert v.stream[0..0] == [];
  }

  lemma AllowedMonotone(v: Server, m: nat, n: nat)
    requires ValidServer(v) && m <= n
    ensures Allowed(v, m) <= Allowed(v, n) <= |v.stream|
  {
  }

  /** Before the full refresh the send state bounds what can have been delivered. */
  lemma DeliveredBound(v: Server, x: Sys)
    requires Inv(v, x) && x.loop.send != RefreshSent
    ensures OutSize(x.out) == SizeAt(v, x.loop.send)
    ensures x.emitted <= Allowed(v, SizeAt(v, x.loop.send))
    ensures Accepts(v) ==> x.emitted <= GreetingEnd(v) + v.early
  {
    OutSizeScript(v, x.loop.send);
    AllowedMonotone(v, x.received, SizeAt(v, x.loop.send));
    EarlyIsAll(v, x.loop.send);
  }

  lemma EarlyIsAll(v: Server, send: SendState)
    requires ValidServer(v) && Accepts(v) ==> send != RefreshSent
    ensures ValidServer(v) && Accepts(v) ==> Allowed(v, SizeAt(v, send)) <= GreetingEnd(v) + v.early
  {
  }

  /** The phase after more bytes, and what the sender then says. */
  lemma PhaseBound(v: Server, p: Phase, send: SendState, q: Phase, d: nat)
    requires ValidServer(v) && InStep(v, p, send) && send != RefreshSent
    requires d <= Allowed(v, SizeAt(v, send)) && d <= |v.stream|
    requires Greeting(q) ==> Used(v, q) <= d && p.Order() <= q.Order() && Greeting(p)
    requires !Greeting(q) && q != AuthFailed ==> q != Connected && d >= GreetingEnd(v) && Accepts(v)
    requires InUpdates(q) || q == Dead ==> d >= GreetingEnd(v) + 4
    requires InUpdates(q) ==> v.stream[GreetingEnd(v)] == 0
    requires q == AuthFailed ==> !Accepts(v) && d >= RefusedAt(v)
    requires p == WaitAuthWord || p == WaitAuthResponse ==> v.kind == VncAccepted || v.kind == VncRejected
    requires Greeting(q) && q.Order() >= WaitServerInit.Order() ==> Accepts(v)
    requires q == WaitAuthWord || q == WaitAuthResponse ==> v.kind == VncAccepted || v.kind == VncRejected
    requires p.Order() >= WaitServerInit.Order() || p == Dead ==> Accepts(v)
    requires PastAuthType(p) ==> PastAuthType(q)
    ensures var send' := if p.Order() <= WaitAuthType.Order() && Greeting(p) && v.kind == NoAuth && PastAuthType(q)
                         then AuthWordSent else send;
            forall key ::
              var m := Next(send', q, key);
              var send'' := if m.Some? then AfterSending(send') else send';
              && (Greeting(q) || q == WaitUpdate || Over(q))
              && InStep(v, q, send'')
              && (m.Some? ==> Count(v, send'') == Count(v, send) + 1 && m.value == Script(v)[Count(v, send)])
              && (m.None? ==> send'' == send)
  {
  }

  /** What a turn on the buffer b comes to. */
  lemma WorkIs(l: Loop, b: seq<byte>, taken: nat, pressed: Key)
    ensures var t := Work(l, b, taken, pressed);
            var e := Call(l.rx, b, l.send);
            var m := Next(e.send, e.st.phase, if pressed == NoKey then l.key else pressed);
            && (t.TileOutOfRange? <==> e.status == OutOfArray)
            && (t.Astray? <==> e.status == Failed)
            && (!t.TileOutOfRange? ==>
                  && t.taken == taken && t.sent == m && t.next.rx == e.st
                  && t.next.held == (if t.Astray? then [] else e.rest)
                  && t.next.send == if m.Some? then AfterSending(e.send) else e.send)
  {
    hide Call, Next;
  }

  lemma FollowsMore(v: Server, s: Rx, b: seq<byte>, d: nat, d': nat)
    requires ValidServer(v) && d <= d' <= |v.stream| && Follows(v, s, b, d)
    ensures Follows(v, s, b + v.stream[d..d'], d')
  {
    if Greeting(s.phase) {
      assert v.stream[Used(v, s.phase)..d] + v.stream[d..d'] == v.stream[Used(v, s.phase)..d'];
    } else if s.phase == Connected || s.phase == WaitUpdate {
      assert v.stream[GreetingEnd(v)..d] + v.stream[d..d'] == v.stream[GreetingEnd(v)..d'];
    }
  }

  /** Once it is over the buffer no longer matters. */
  lemma OverFollows(v: Server, s: Rx, b: seq<byte>, c: seq<byte>, d: nat)
    requires ValidServer(v) && d <= |v.stream| && Follows(v, s, b, d) && Over(s.phase)
    ensures Follows(v, s, c, d) && Settled(v, s, c)
  {
  }

  lemma FollowsPhase(v: Server, s: Rx, b: seq<byte>, d: nat)
    requires ValidServer(v) && d <= |v.stream| && Follows(v, s, b, d)
    ensures Greeting(s.phase) ==> Used(v, s.phase) <= d
    ensures s.phase == WaitAuthWord || s.phase == WaitAuthResponse ==> v.kind == VncAccepted || v.kind == VncRejected
    ensures s.phase.Order() >= WaitServerInit.Order() || s.phase == Dead ==> Accepts(v)
    ensures s.phase.Order() >= Connected.Order() || s.phase == Dead ==> GreetingEnd(v) <= d
    ensures InUpdates(s.phase) || s.phase == Dead ==> d >= GreetingEnd(v) + 4
    ensures InUpdates(s.phase) ==> v.stream[GreetingEnd(v)] == 0
    ensures s.phase == AuthFailed ==> !Accepts(v) && d >= RefusedAt(v)
  {
  }

  lemma SettledPhase(v: Server, s: Rx, b: seq<byte>)
    requires Settled(v, s, b)
    ensures s.phase != Connected
    ensures !Greeting(s.phase) ==> Over(s.phase) || InUpdates(s.phase) || s.phase == WaitUpdate
  {
  }

  // ----- One turn -----

  /** The call a turn makes, the buffer it makes it on, and where in the stream it ends. */
  function TurnTakes(v: Server, x: Sys, n: nat): nat
    requires |x.loop.held| <= VNC_BUFFER_MAX && x.delivered + n <= |v.stream|
  {
    Taken(x.loop, v.stream[x.delivered..x.delivered + n])
  }

  function TurnBuffer(v: Server, x: Sys, n: nat): seq<byte>
    requires |x.loop.held| <= VNC_BUFFER_MAX && x.delivered + n <= |v.stream|
  {
    x.loop.held + v.stream[x.delivered..x.delivered + n][..TurnTakes(v, x, n)]
  }

  function TurnCall(v: Server, x: Sys, n: nat): CallEnd
    requires |x.loop.held| <= VNC_BUFFER_MAX && x.delivered + n <= |v.stream|
  {
    Call(x.loop.rx, TurnBuffer(v, x, n), x.loop.send)
  }

  lemma TurnDoes(v: Server, x: Sys, n: nat, pressed: Key)
    requires |x.loop.held| <= VNC_BUFFER_MAX && x.emitted <= |v.stream| && HasTurn(x, n)
    ensures Do(v, x, ClientTurn(n, pressed)) ==
            Turned(x, Work(x.loop, TurnBuffer(v, x, n), TurnTakes(v, x, n), pressed))
  {
    hide Work, Taken;
  }

  lemma TurnFollows(v: Server, x: Sys, n: nat)
    requires Inv(v, x) && HasTurn(x, n)
    ensures x.emitted <= |v.stream| && |x.loop.held| <= VNC_BUFFER_MAX
    ensures var d := x.delivered + TurnTakes(v, x, n);
            var e := TurnCall(v, x, n);
            var p := x.loop.rx.phase;
            && d <= x.delivered + n && Follows(v, e.st, e.rest, d)
            && (e.status != OutOfArray ==> Settled(v, e.st, e.rest))
            && (e.status == OutOfArray ==> e.st.phase == ProcessingUpdate)
            && (e.status == Failed ==> Over(e.st.phase))
            && e.send == (if p.Order() <= WaitAuthType.Order() && Greeting(p) && v.kind == NoAuth &&
                             PastAuthType(e.st.phase)
                          then AuthWordSent else x.loop.send)
            && (Greeting(e.st.phase) ==> Greeting(p) && p.Order() <= e.st.phase.Order())
            && (PastAuthType(p) ==> PastAuthType(e.st.phase))
    ensures |TurnCall(v, x, n).rest| <= VNC_BUFFER_MAX
  {
    hide Call, Follows, Settled, OutputAt, Allowed, InStep;
    var l := x.loop;
    var data := v.stream[x.delivered..x.delivered + n];
    var k := TurnTakes(v, x, n);
    SliceTake(v.stream, x.delivered, x.delivered + n, k);
    FollowsMore(v, l.rx, l.held, x.delivered, x.delivered + k);
    FollowsCall(v, l.rx, l.held + data[..k], l.send, x.delivered + k);
    CallShrinks(l.rx, l.held + data[..k], l.send);
  }

  /** The sending half of a turn keeps the output in step with the receiver. */
  lemma SentKeeps(v: Server, x: Sys, e: CallEnd, d: nat, key: Key)
    requires Inv(v, x) && x.delivered <= d <= x.emitted
    requires Follows(v, e.st, e.rest, d) && Settled(v, e.st, e.rest)
    requires e.send == (if x.loop.rx.phase.Order() <= WaitAuthType.Order() && Greeting(x.loop.rx.phase) &&
                           v.kind == NoAuth && PastAuthType(e.st.phase)
                        then AuthWordSent else x.loop.send)
    requires Greeting(e.st.phase) ==> Greeting(x.loop.rx.phase) && x.loop.rx.phase.Order() <= e.st.phase.Order()
    requires PastAuthType(x.loop.rx.phase) ==> PastAuthType(e.st.phase)
    ensures var m := Next(e.send, e.st.phase, key);
            var send := if m.Some? then AfterSending(e.send) else e.send;
            var out := x.out + if m.Some? then [m.value] else [];
            && InStep(v, e.st.phase, send) && OutputAt(v, send, out)
            && OutSize(x.out) <= OutSize(out)
  {
    hide Next, Script, SizeAt, Allowed, Count, Follows, OutputAt, Used, RefusedAt, GreetingEnd, SendsLeft;
    var m := Next(e.send, e.st.phase, key);
    if m.Some? {
      OutSizeAppend(x.out, m.value);
    } else {
      assert x.out + [] == x.out;
    }
    if x.loop.send == RefreshSent {
      LaterKeeps(v, x, e, key);
    } else {
      DeliveredBound(v, x);
      FollowsPhase(v, x.loop.rx, x.loop.held, x.delivered);
      FollowsPhase(v, e.st, e.rest, d);
      SettledPhase(v, e.st, e.rest);
      PhaseBound(v, x.loop.rx.phase, x.loop.send, e.st.phase, d);
      var send := if m.Some? then AfterSending(e.send) else e.send;
      OutputGrows(v, x.loop.send, send, x.out, m);
    }
  }

  lemma OutputGrows(v: Server, send: SendState, send': SendState, out: seq<Message>, m: Option<Message>)
    requires OutputAt(v, send, out) && send != RefreshSent
    requires m.Some? ==> Count(v, send') == Count(v, send) + 1 && m.value == Script(v)[Count(v, send)]
    requires m.None? ==> send' == send
    ensures OutputAt(v, send', out + if m.Some? then [m.value] else [])
  {
    hide Script;
    ScriptLength(v);
    var n := Count(v, send);
    if m.Some? {
      var o := Script(v);
      assert o[..n] + [o[n]] == o[..n + 1];
      assert o[..|o|] == o;
    }
  }

  lemma LaterKeeps(v: Server, x: Sys, e: CallEnd, key: Key)
    requires Inv(v, x) && x.loop.send == RefreshSent && e.send == RefreshSent
    requires Greeting(e.st.phase) ==> Greeting(x.loop.rx.phase)
    requires PastAuthType(x.loop.rx.phase) ==> PastAuthType(e.st.phase)
    requires Settled(v, e.st, e.rest)
    ensures var m := Next(e.send, e.st.phase, key);
            && InStep(v, e.st.phase, RefreshSent)
            && OutputAt(v, RefreshSent, x.out + if m.Some? then [m.value] else [])
  {
  }

  /** A tile can leave the tile buffer only behind the full refresh request. */
  lemma CorruptLate(v: Server, x: Sys, e: CallEnd, d: nat)
    requires Inv(v, x) && d <= x.emitted && Follows(v, e.st, e.rest, d) && InUpdates(e.st.phase)
    ensures x.loop.send == RefreshSent
  {
    hide OutputAt, Settled, InStep, Allowed;
    if x.loop.send != RefreshSent {
      DeliveredBound(v, x);
    }
  }

  lemma TurnedKeeps(v: Server, x: Sys, t: Turn)
    requires Inv(v, x) && !t.TileOutOfRange?
    requires x.delivered + t.taken <= x.emitted && |t.next.held| <= VNC_BUFFER_MAX
    requires Follows(v, t.next.rx, t.next.held, x.delivered + t.taken) && Settled(v, t.next.rx, t.next.held)
    requires InStep(v, t.next.rx.phase, t.next.send)
    requires var out := x.out + if t.sent.Some? then [t.sent.value] else [];
             OutputAt(v, t.next.send, out) && OutSize(x.out) <= OutSize(out)
    requires x.fate == Running && (t.Astray? ==> Over(t.next.rx.phase))
    ensures Inv(v, Turned(x, t))
  {
    hide Follows, Settled, InStep, OutputAt, Allowed;
  }

  /** Every action keeps the system in step. */
  lemma TurnKeeps(v: Server, x: Sys, n: nat, pressed: Key)
    requires Inv(v, x) && HasTurn(x, n)
    ensures Inv(v, Do(v, x, ClientTurn(n, pressed)))
  {
    hide TurnCall, TurnBuffer, TurnTakes, Follows, Settled, Next, Work, Do, InStep, OutputAt, Allowed;
    TurnFollows(v, x, n);
    TurnDoes(v, x, n, pressed);
    TurnWork(v, x, n, pressed);
    var e := TurnCall(v, x, n);
    var d := x.delivered + TurnTakes(v, x, n);
    if e.status == OutOfArray {
      CorruptLate(v, x, e, d);
    } else {
      hide Turned;
      SentKeeps(v, x, e, d, if pressed == NoKey then x.loop.key else pressed);
      if e.status == Failed {
        OverFollows(v, e.st, e.rest, [], d);
      }
      TurnedKeeps(v, x, Work(x.loop, TurnBuffer(v, x, n), TurnTakes(v, x, n), pressed));
    }
  }

  lemma TurnWork(v: Server, x: Sys, n: nat, pressed: Key)
    requires |x.loop.held| <= VNC_BUFFER_MAX && x.emitted <= |v.stream| && HasTurn(x, n)
    ensures var t := Work(x.loop, TurnBuffer(v, x, n), TurnTakes(v, x, n), pressed);
            var e := TurnCall(v, x, n);
            var m := Next(e.send, e.st.phase, if pressed == NoKey then x.loop.key else pressed);
            && (t.TileOutOfRange? <==> e.status == OutOfArray)
            && (t.Astray? <==> e.status == Failed)
            && (!t.TileOutOfRange? ==>
                  && t.taken == TurnTakes(v, x, n) && t.sent == m && t.next.rx == e.st
                  && t.next.held == (if t.Astray? then [] else e.rest)
                  && t.next.send == if m.Some? then AfterSending(e.send) else e.send)
  {
    hide Call, Next, Work, TurnBuffer, TurnTakes;
    WorkIs(x.loop, TurnBuffer(v, x, n), TurnTakes(v, x, n), pressed);
  }

  lemma DriftKeeps(v: Server, x: Sys, junk: seq<byte>, pressed: Key)
    requires Inv(v, x) && x.fate == Adrift
    ensures Inv(v, Do(v, x, Drift(junk, pressed)))
  {
    hide Follows, Settled, InStep, OutputAt, Allowed, Work;
    OverForGood(x.loop, junk, 0, pressed);
    OverFollows(v, x.loop.rx, x.loop.held, [], x.delivered);
    assert x.out + [] == x.out;
  }

  lemma ActionKeeps(v: Server, x: Sys, a: Action)
    requires Inv(v, x)
    ensures Inv(v, Do(v, x, a))
  {
    hide Follows, Settled, InStep, OutputAt, Iterate, Work;
    match a
    case Emit(n) =>
    case Receive(n) =>
      if x.received <= n <= OutSize(x.out) {
        AllowedMonotone(v, x.received, n);
      }
    case ClientTurn(n, pressed) =>
      if HasTurn(x, n) {
        TurnKeeps(v, x, n, pressed);
      }
    case Drift(junk, pressed) =>
      if x.fate == Adrift {
        DriftKeeps(v, x, junk, pressed);
      }
  }

  // ----- Safety over all runs -----

  function Execute(v: Server, x: Sys, actions: seq<Action>): Sys
    requires Inv(v, x)
    decreases |actions|
  {
    if actions == [] then x
    else
      ActionKeeps(v, x, actions[0]);
      Execute(v, Do(v, x, actions[0]), actions[1..])
  }

  lemma {:induction false} ExecuteKeeps(v: Server, x: Sys, actions: seq<Action>)
    requires Inv(v, x)
    ensures Inv(v, Execute(v, x, actions))
    decreases |actions|
  {
    hide Inv, Do;
    assert |x.loop.held| <= VNC_BUFFER_MAX && x.emitted <= |v.stream| by {
      InvBounds(v, x);
    }
    if actions != [] {
      ActionKeeps(v, x, actions[0]);
      ExecuteKeeps(v, Do(v, x, actions[0]), actions[1..]);
    }
  }

  lemma InvBounds(v: Server, x: Sys)
    requires Inv(v, x)
    ensures |x.loop.held| <= VNC_BUFFER_MAX && x.emitted <= |v.stream|
  {
  }

  /** In every run against every such server the client has sent a prefix of the opening that goes
      with the server's kind, in order, or all of it followed by incremental requests and key events
      only. */
  lemma AlwaysOrderly(v: Server, l: Loop, actions: seq<Action>)
    requires ValidServer(v) && Fresh(l)
    ensures Inv(v, Start(l)) && Orderly(v, Execute(v, Start(l), actions).out)
  {
    hide Script, Opening, Execute, Follows, Inv;
    StartInv(v, l);
    ExecuteKeeps(v, Start(l), actions);
    InvOrderly(v, Execute(v, Start(l), actions));
  }

  lemma InvOrderly(v: Server, x: Sys)
    requires Inv(v, x)
    ensures Orderly(v, x.out)
  {
    hide Script, Follows, Settled, InStep, Allowed;
    ScriptLength(v);
    var n := Count(v, x.loop.send);
    assert Script(v)[..n] <= Script(v);
    if !Accepts(v) {
      RefusedCount(v, x);
      RefusedScript(v);
      assert Script(v)[..|Opening(v)|][..n] == Script(v)[..n];
    }
  }

  /** A client that is refused gets no further than the opening of that server. */
  lemma RefusedCount(v: Server, x: Sys)
    requires Inv(v, x) && !Accepts(v)
    ensures x.loop.send != RefreshSent && Count(v, x.loop.send) <= |Opening(v)|
  {
    hide OutputAt, Allowed;
  }

  lemma RefusedScript(v: Server)
    requires !Accepts(v)
    ensures |Opening(v)| <= |Script(v)| && Opening(v) == Script(v)[..|Opening(v)|]
  {
  }

  lemma ActionSilent(v: Server, x: Sys, a: Action)
    requires Inv(v, x) && Over(x.loop.rx.phase)
    ensures var y := Do(v, x, a);
            y.out == x.out && y.loop.rx == x.loop.rx && y.loop.send == x.loop.send
  {
    hide Follows, Settled, InStep, OutputAt, Work, Allowed;
    assert x.out + [] == x.out;
    match a
    case Emit(n) =>
    case Receive(n) =>
    case ClientTurn(n, pressed) =>
      if HasTurn(x, n) {
        TurnDoes(v, x, n, pressed);
        OverForGood(x.loop, TurnBuffer(v, x, n), TurnTakes(v, x, n), pressed);
      }
    case Drift(junk, pressed) =>
      OverForGood(x.loop, junk, 0, pressed);
  }

  /** Once the connection was refused or an unknown message came, the client goes on having turns,
      on whatever its buffer then holds, and never leaves that state or sends again. */
  lemma {:induction false} SilentOnceOver(v: Server, x: Sys, actions: seq<Action>)
    requires Inv(v, x) && Over(x.loop.rx.phase)
    ensures var y := Execute(v, x, actions);
            y.out == x.out && y.loop.rx == x.loop.rx && y.loop.send == x.loop.send
    decreases |actions|
  {
    hide Inv, Do;
    InvBounds(v, x);
    if actions != [] {
      ActionKeeps(v, x, actions[0]);
      ActionSilent(v, x, actions[0]);
      SilentOnceOver(v, Do(v, x, actions[0]), actions[1..]);
    }
  }

  // ----- Progress -----

  function SendsLeft(send: SendState): nat
  {
    match send
    case SendInit => 6
    case VersionSent => 5
    case AuthWordSent => 4
    case ClientInitSent => 3
    case PixelFormatSent => 2
    case EncodingsSent => 1
    case RefreshSent => 0
  }

  lemma SendingLowers(send: SendState, phase: Phase, key: Key)
    ensures SendsLeft(AfterSending(send)) <= SendsLeft(send) && SendsLeft(AuthWordSent) <= 4
    ensures send != RefreshSent ==> SendsLeft(AfterSending(send)) < SendsLeft(send)
    ensures phase.Order() >= ConnectedRefresh.Order() && send != RefreshSent ==> Next(send, phase, key).Some?
    ensures send == SendInit || send == VersionSent ==> SendsLeft(AuthWordSent) < SendsLeft(send)
  {
  }

  /** How many bytes settle the handshake one way or the other. */
  function Limit(v: Server): nat
  {
    match v.kind
    case VncRejected => 36
    case Unsupported => 16
    case _ => GreetingEnd(v) + 4
  }

  /** The full refresh has been requested, or the client has given up. */
  predicate Decided(x: Sys)
  {
    x.loop.send == RefreshSent || Over(x.loop.rx.phase)
  }

  function Distance(v: Server, x: Sys): nat
  {
    SendsLeft(x.loop.send) + if x.delivered < Limit(v) then Limit(v) - x.delivered else 0
  }

  lemma LimitBound(v: Server, x: Sys)
    requires Inv(v, x) && !Decided(x)
    ensures x.fate == Running && x.delivered <= Limit(v)
    ensures v.name <= VNC_BUFFER_MAX ==> |x.loop.held| < VNC_BUFFER_MAX
    ensures x.delivered == Allowed(v, SizeAt(v, x.loop.send)) ==> x.loop.rx.phase == WaitUpdate
  {
    hide OutputAt, Script;
    DeliveredBound(v, x);
  }

  lemma TurnSends(v: Server, x: Sys, n: nat, pressed: Key)
    requires Inv(v, x) && HasTurn(x, n)
    ensures var y := Do(v, x, ClientTurn(n, pressed));
            && SendsLeft(y.loop.send) <= SendsLeft(x.loop.send)
            && y.delivered == x.delivered + if y.fate == Corrupt then 0 else TurnTakes(v, x, n)
  {
    hide TurnCall, TurnBuffer, TurnTakes, Follows, Settled, Next, Work, Do, InStep, OutputAt, Allowed, SendsLeft,
         AfterSending;
    TurnFollows(v, x, n);
    TurnDoes(v, x, n, pressed);
    TurnWork(v, x, n, pressed);
    var e := TurnCall(v, x, n);
    SendingLowers(e.send, e.st.phase, pressed);
    SendingLowers(x.loop.send, e.st.phase, pressed);
    if e.status != OutOfArray {
      StepsBefore(v, x);
    }
  }

  /** Once the greeting is through, every turn sends until the full refresh is requested. */
  lemma WaitingSends(v: Server, x: Sys, n: nat, pressed: Key)
    requires Inv(v, x) && HasTurn(x, n) && x.loop.rx.phase == WaitUpdate && x.loop.send != RefreshSent
    ensures var y := Do(v, x, ClientTurn(n, pressed));
            Decided(y) || SendsLeft(y.loop.send) < SendsLeft(x.loop.send)
  {
    hide TurnCall, TurnBuffer, TurnTakes, Follows, Settled, Next, Work, Do, InStep, OutputAt, Allowed, SendsLeft,
         AfterSending;
    TurnFollows(v, x, n);
    TurnDoes(v, x, n, pressed);
    TurnWork(v, x, n, pressed);
    var e := TurnCall(v, x, n);
    if e.status == OutOfArray {
      CorruptLate(v, x, e, x.delivered + TurnTakes(v, x, n));
    } else {
      SettledPhase(v, e.st, e.rest);
      SendingLowers(e.send, e.st.phase, if pressed == NoKey then x.loop.key else pressed);
    }
  }

  lemma StepsBefore(v: Server, x: Sys)
    requires Inv(v, x)
    ensures Greeting(x.loop.rx.phase) && x.loop.rx.phase.Order() <= WaitAuthType.Order() ==>
              x.loop.send == SendInit || x.loop.send == VersionSent
  {
  }

  /** No turn loses ground. */
  lemma TurnDistance(v: Server, x: Sys, n: nat, pressed: Key)
    requires Inv(v, x) && !Decided(x) && x.delivered + n <= x.emitted
    ensures var y := Do(v, x, ClientTurn(n, pressed));
            && (Decided(y) || Distance(v, y) <= Distance(v, x))
            && (n > 0 && v.name <= VNC_BUFFER_MAX ==> Decided(y) || Distance(v, y) < Distance(v, x))
            && (x.loop.rx.phase == WaitUpdate ==> Decided(y) || Distance(v, y) < Distance(v, x))
  {
    hide Do, Inv, Limit, TurnTakes, Decided, SendsLeft;
    InvBounds(v, x);
    LimitBound(v, x);
    TurnKeeps(v, x, n, pressed);
    TurnSends(v, x, n, pressed);
    TakesSome(v, x, n);
    if x.loop.rx.phase == WaitUpdate {
      Undecided(x);
      WaitingSends(v, x, n, pressed);
    }
    var y := Do(v, x, ClientTurn(n, pressed));
    if !Decided(y) {
      LimitBound(v, y);
    }
  }

  lemma Undecided(x: Sys)
    requires !Decided(x)
    ensures x.loop.send != RefreshSent && !Over(x.loop.rx.phase)
  {
  }

  lemma TakesSome(v: Server, x: Sys, n: nat)
    requires |x.loop.held| <= VNC_BUFFER_MAX && x.delivered + n <= |v.stream|
    ensures n > 0 && |x.loop.held| < VNC_BUFFER_MAX ==> TurnTakes(v, x, n) > 0
  {
  }

  /** The server takes all the client sent and answers as far as it may; the client then has a
      turn with everything in flight. */
  function Round(v: Server, x: Sys): Sys
    requires Inv(v, x)
  {
    var z := Served(v, x);
    Do(v, z, ClientTurn(z.emitted - z.delivered, NoKey))
  }

  /** The server's half of a round. */
  function Served(v: Server, x: Sys): (z: Sys)
    requires Inv(v, x)
    ensures Inv(v, z) && z.emitted >= z.delivered && z.emitted <= |v.stream|
    ensures z.loop == x.loop && z.out == x.out && z.fate == x.fate && z.delivered == x.delivered
  {
    var y := ServedOnce(v, x);
    ActionKeeps(v, y, Emit(Allowed(v, y.received)));
    Do(v, y, Emit(Allowed(v, y.received)))
  }

  function ServedOnce(v: Server, x: Sys): (y: Sys)
    requires Inv(v, x)
    ensures Inv(v, y) && |y.loop.held| <= VNC_BUFFER_MAX && y.emitted <= |v.stream|
    ensures y.loop == x.loop && y.out == x.out && y.fate == x.fate && y.delivered == x.delivered
  {
    ActionKeeps(v, x, Receive(OutSize(x.out)));
    Do(v, x, Receive(OutSize(x.out)))
  }

  /** Before the full refresh the server's half leaves all in flight that may be. */
  lemma ServedAll(v: Server, x: Sys)
    requires Inv(v, x) && x.loop.send != RefreshSent
    ensures Served(v, x).emitted == Allowed(v, SizeAt(v, x.loop.send))
  {
    hide Follows, Settled, InStep, OutputAt, Allowed, SizeAt;
    DeliveredBound(v, x);
    AllowedMonotone(v, x.received, OutSize(x.out));
  }

  lemma RoundKeeps(v: Server, x: Sys)
    requires Inv(v, x)
    ensures Inv(v, Round(v, x))
  {
    hide Inv, Do, Served;
    var z := Served(v, x);
    ActionKeeps(v, z, ClientTurn(z.emitted - z.delivered, NoKey));
  }

  /** No deadlock: from every reachable state a round comes strictly closer to the full refresh
      request or to the refusal. */
  lemma RoundProgress(v: Server, x: Sys)
    requires Inv(v, x) && !Decided(x) && v.name <= VNC_BUFFER_MAX
    ensures var y := Round(v, x); Decided(y) || Distance(v, y) < Distance(v, x)
  {
    hide Inv, Do, Served, Allowed, SizeAt, Over;
    var z := Served(v, x);
    ServedAll(v, x);
    LimitBound(v, z);
    TurnDistance(v, z, z.emitted - z.delivered, NoKey);
  }

  /** Nothing that can happen undoes progress. */
  lemma ActionDistance(v: Server, x: Sys, a: Action)
    requires Inv(v, x)
    ensures var y := Do(v, x, a);
            && (Decided(x) ==> Decided(y))
            && (!Decided(x) ==> Decided(y) || Distance(v, y) <= Distance(v, x))
  {
    hide Follows, Settled, InStep, OutputAt, Iterate, Work, Allowed;
    if Over(x.loop.rx.phase) {
      ActionSilent(v, x, a);
    } else if a.ClientTurn? && HasTurn(x, a.n) {
      TurnSends(v, x, a.n, a.pressed);
      if !Decided(x) {
        TurnDistance(v, x, a.n, a.pressed);
      }
    }
  }

  function Rounds(v: Server, x: Sys, n: nat): Sys
    requires Inv(v, x)
    decreases n
  {
    if n == 0 then x
    else
      RoundKeeps(v, x);
      Rounds(v, Round(v, x), n - 1)
  }

  /** From every reachable state, whatever happened before, at most Distance rounds decide the
      connection. */
  lemma {:induction false} AlwaysDecides(v: Server, x: Sys, n: nat)
    requires Inv(v, x) && v.name <= VNC_BUFFER_MAX && (Decided(x) || Distance(v, x) <= n)
    ensures Inv(v, Rounds(v, x, n)) && Decided(Rounds(v, x, n))
    decreases n
  {
    hide Inv, Round, Decided;
    if n > 0 {
      RoundKeeps(v, x);
      if Decided(x) {
        RoundDecided(v, x);
      } else {
        RoundProgress(v, x);
      }
      AlwaysDecides(v, Round(v, x), n - 1);
    } else {
      NoDistance(v, x);
    }
  }

  lemma NoDistance(v: Server, x: Sys)
    requires Decided(x) || Distance(v, x) == 0
    ensures Decided(x)
  {
  }

  lemma RoundDecided(v: Server, x: Sys)
    requires Inv(v, x) && Decided(x)
    ensures Decided(Round(v, x))
  {
    hide Inv, Do, Served, Over;
    var z := Served(v, x);
    ActionDistance(v, z, ClientTurn(z.emitted - z.delivered, NoKey));
  }

  /** With fewer than four early bytes a client of an accepting server never gives up before its
      full refresh request. */
  lemma AcceptedGoesOn(v: Server, x: Sys)
    requires Inv(v, x) && Accepts(v) && v.early < 4 && x.loop.send != RefreshSent
    ensures !Over(x.loop.rx.phase)
  {
    hide Settled, InStep, OutputAt, Allowed, Script;
    DeliveredBound(v, x);
  }

  /** The full refresh is out exactly in the last send state. */
  lemma Asked(v: Server, x: Sys)
    requires Inv(v, x)
    ensures FullRefresh in x.out <==> x.loop.send == RefreshSent
    ensures x.loop.send == RefreshSent ==> Accepts(v) && Opening(v) <= x.out
  {
    hide Follows, Settled, InStep, Allowed;
    ScriptLength(v);
    var o := Script(v);
    assert o[|o| - 1] == FullRefresh && FullRefresh !in o[..|o| - 1];
    if x.loop.send == RefreshSent {
      assert o <= x.out;
      assert x.out[|o| - 1] == FullRefresh;
      if !Accepts(v) {
        RefusedCount(v, x);
      }
    } else {
      var n := Count(v, x.loop.send);
      assert n <= |o| - 1 && forall k :: 0 <= k < n ==> x.out[k] == o[..|o| - 1][k];
    }
  }

  /** With a server that accepts the client, whose name fits the buffer and that sends fewer than
      four early bytes, every run can be, and within Distance rounds is, continued to the full
      refresh request. */
  lemma AlwaysReachesRefresh(v: Server, l: Loop, actions: seq<Action>)
    requires ValidServer(v) && Accepts(v) && v.name <= 200 && v.early < 4 && Fresh(l)
    ensures Inv(v, Start(l)) && Inv(v, Execute(v, Start(l), actions))
    ensures var x := Execute(v, Start(l), actions);
            var y := Rounds(v, x, Distance(v, x));
            Opening(v) <= y.out && FullRefresh in y.out
  {
    hide Inv, Execute, Rounds, Distance, Script, Opening, Over;
    StartInv(v, l);
    ExecuteKeeps(v, Start(l), actions);
    var x := Execute(v, Start(l), actions);
    AlwaysDecides(v, x, Distance(v, x));
    var y := Rounds(v, x, Distance(v, x));
    Asked(v, y);
    if y.loop.send != RefreshSent {
      AcceptedGoesOn(v, y);
    }
  }

  // ----- Where it fails -----

  /** A call on a full buffer does not get past a longer name. */
  lemma {:induction false} CallLongName(v: Server, s: Rx, b: seq<byte>, send: SendState, d: nat)
    requires ValidServer(v) && d <= |v.stream| && Follows(v, s, b, d) && Accepts(v)
    requires Greeting(s.phase) && |b| <= VNC_BUFFER_MAX < v.name
    ensures Greeting(Call(s, b, send).st.phase)
    decreases |b|, Rank(s)
  {
    hide Follows;
    FollowsStep(v, s, b, d);
    LongNameStep(v, s, b, d);
    match Step(s, b)
    case Move(t, used) => CallLongName(v, t, b[used..], SendAfter(s, t, send), d);
    case _ =>
  }

  lemma LongNameStep(v: Server, s: Rx, b: seq<byte>, d: nat)
    requires ValidServer(v) && d <= |v.stream| && Follows(v, s, b, d) && Accepts(v)
    requires Greeting(s.phase) && |b| <= VNC_BUFFER_MAX < v.name
    ensures var o := Step(s, b);
            (o.Move? || o.Wait?) && Greeting(o.next.phase) && (o.Move? ==> |b[o.used..]| <= VNC_BUFFER_MAX)
  {
    hide Follows, Step, Needed;
    GreetingStep(v, s, b, d);
    LongNameNeeded(v, s, b, d);
    var o := Step(s, b);
    if o.Move? {
      FollowsPhase(v, o.next, b[o.used..], d);
      GreetingMoves(s, b);
    }
  }

  lemma LongNameNeeded(v: Server, s: Rx, b: seq<byte>, d: nat)
    requires |b| <= VNC_BUFFER_MAX < v.name
    ensures s.phase == WaitServerName ==> |b| < Needed(v, s.phase)
  {
  }

  lemma GreetingMoves(s: Rx, b: seq<byte>)
    requires Greeting(s.phase) && Step(s, b).Move?
    ensures var p := Step(s, b).next.phase;
            Greeting(p) || p == AuthFailed || (s.phase == WaitServerName && p == Connected)
  {
    hide Long, StepRect, StepUpdateHeader;
  }

  lemma LongNameStays(v: Server, x: Sys, a: Action)
    requires Inv(v, x) && Accepts(v) && v.name > VNC_BUFFER_MAX && Greeting(x.loop.rx.phase)
    ensures Greeting(Do(v, x, a).loop.rx.phase)
  {
    hide Follows, Settled, InStep, OutputAt, Allowed, Call, Work, Iterate;
    if a.ClientTurn? && HasTurn(x, a.n) {
      var l, n := x.loop, a.n;
      var data := v.stream[x.delivered..x.delivered + n];
      var k := TurnTakes(v, x, n);
      SliceTake(v.stream, x.delivered, x.delivered + n, k);
      FollowsMore(v, l.rx, l.held, x.delivered, x.delivered + k);
      CallLongName(v, l.rx, l.held + data[..k], l.send, x.delivered + k);
      TurnDoes(v, x, n, a.pressed);
      TurnWork(v, x, n, a.pressed);
    }
  }

  /** In no run at all is a server whose name is longer than the buffer asked for an update. */
  lemma {:induction false} LongNameNeverAsks(v: Server, x: Sys, actions: seq<Action>)
    requires Inv(v, x) && Accepts(v) && v.name > VNC_BUFFER_MAX && Greeting(x.loop.rx.phase)
    ensures Greeting(Execute(v, x, actions).loop.rx.phase) && Execute(v, x, actions).loop.send != RefreshSent
    decreases |actions|
  {
    hide Inv, Do, Greeting;
    InvBounds(v, x);
    GreetingAsksNothing(v, x);
    if actions != [] {
      ActionKeeps(v, x, actions[0]);
      LongNameStays(v, x, actions[0]);
      LongNameNeverAsks(v, Do(v, x, actions[0]), actions[1..]);
    }
  }

  lemma GreetingAsksNothing(v: Server, x: Sys)
    requires Inv(v, x) && Greeting(x.loop.rx.phase)
    ensures x.loop.send != RefreshSent
  {
  }

  /** Early bytes that complete a header while the client waits for its first update kill it. */
  lemma EarlyDies(v: Server, x: Sys, n: nat)
    requires Inv(v, x) && Accepts(v) && v.early >= 4 && HasTurn(x, n) && x.loop.rx.phase == WaitUpdate
    requires x.delivered + n >= GreetingEnd(v) + 4
    ensures var y := Do(v, x, ClientTurn(n, NoKey));
            y.loop.rx.phase == Dead && y.loop.send == x.loop.send && y.out == x.out
  {
    hide InStep, OutputAt, Allowed, Work, Do, TurnCall, Next;
    TurnDoes(v, x, n, NoKey);
    TurnWork(v, x, n, NoKey);
    EarlyBuffer(v, x, n);
    EarlyCall(x.loop.rx, TurnBuffer(v, x, n), x.loop.send);
    assert TurnCall(v, x, n) == Call(x.loop.rx, TurnBuffer(v, x, n), x.loop.send) by {
      TurnCallIs(v, x, n);
    }
    SilentWhenOver(x.loop.send, x.loop.key);
    assert x.out + [] == x.out;
  }

  lemma TurnCallIs(v: Server, x: Sys, n: nat)
    requires |x.loop.held| <= VNC_BUFFER_MAX && x.delivered + n <= |v.stream|
    ensures TurnCall(v, x, n) == Call(x.loop.rx, TurnBuffer(v, x, n), x.loop.send)
  {
  }

  lemma EarlyCall(s: Rx, b: seq<byte>, send: SendState)
    requires s.phase == WaitUpdate && |b| >= 4 && b[0] != 0
    ensures Call(s, b, send) == CallEnd(s.(phase := Dead), send, b, Rejected)
  {
  }

  lemma EarlyBuffer(v: Server, x: Sys, n: nat)
    requires Inv(v, x) && Accepts(v) && v.early >= 4 && HasTurn(x, n) && x.loop.rx.phase == WaitUpdate
    requires x.delivered + n >= GreetingEnd(v) + 4
    ensures |TurnBuffer(v, x, n)| >= 4 && TurnBuffer(v, x, n)[0] != 0
  {
    hide InStep, OutputAt, Allowed;
    var k := TurnTakes(v, x, n);
    SliceTake(v.stream, x.delivered, x.delivered + n, k);
    FollowsMore(v, x.loop.rx, x.loop.held, x.delivered, x.delivered + k);
    assert TurnBuffer(v, x, n) == v.stream[GreetingEnd(v)..x.delivered + k];
  }

  lemma OneMessageATurn(v: Server, x: Sys, a: Action)
    requires Inv(v, x)
    ensures |Do(v, x, a).out| <= |x.out| + 1
  {
    hide Inv, Iterate, Work;
    InvBounds(v, x);
  }

  lemma OutputCount(v: Server, x: Sys)
    requires Inv(v, x)
    ensures |x.out| >= Count(v, x.loop.send)
    ensures x.loop.send != RefreshSent ==> |x.out| == Count(v, x.loop.send)
    ensures Greeting(x.loop.rx.phase) ==> SendsLeft(x.loop.send) >= 3
    ensures x.loop.rx.phase == WaitUpdate ==> GreetingEnd(v) <= x.delivered
  {
    hide Script, Settled, Allowed;
    ScriptLength(v);
  }

  /** A server that sends four early bytes as soon as it may is not even sent the encodings. */
  lemma EarlyRound(v: Server, x: Sys)
    requires Inv(v, x) && Accepts(v) && v.early >= 4 && SendsLeft(x.loop.send) >= 2
    ensures SendsLeft(Round(v, x).loop.send) >= 2
  {
    hide Inv, Do, Served, Allowed;
    var z := Served(v, x);
    var a := ClientTurn(z.emitted - z.delivered, NoKey);
    ServedAll(v, x);
    InvBounds(v, z);
    OutputCount(v, z);
    ActionKeeps(v, z, a);
    OutputCount(v, Do(v, z, a));
    OneMessageATurn(v, z, a);
    if Over(z.loop.rx.phase) {
      ActionSilent(v, z, a);
    } else if z.loop.rx.phase == WaitUpdate {
      EarlySent(v, z);
      EarlyDies(v, z, a.n);
    } else {
      NotYetAsking(v, z);
    }
  }

  lemma NotYetAsking(v: Server, z: Sys)
    requires Inv(v, z) && z.loop.send != RefreshSent && !Over(z.loop.rx.phase) && z.loop.rx.phase != WaitUpdate
    ensures Greeting(z.loop.rx.phase)
  {
  }

  lemma EarlySent(v: Server, z: Sys)
    requires Inv(v, z) && Accepts(v) && z.loop.rx.phase == WaitUpdate && z.loop.send != RefreshSent
    ensures z.fate == Running && Allowed(v, SizeAt(v, z.loop.send)) == GreetingEnd(v) + v.early
  {
  }

  lemma {:induction false} EarlyRounds(v: Server, x: Sys, n: nat)
    requires Inv(v, x) && Accepts(v) && v.early >= 4 && SendsLeft(x.loop.send) >= 2
    ensures Inv(v, Rounds(v, x, n)) && SendsLeft(Rounds(v, x, n).loop.send) >= 2
    decreases n
  {
    hide Inv, Round;
    if n > 0 {
      RoundKeeps(v, x);
      EarlyRound(v, x);
      EarlyRounds(v, Round(v, x), n - 1);
    }
  }

  // ----- Exactly when it succeeds -----

  function RoundTurn(v: Server, x: Sys): Action
    requires Inv(v, x)
  {
    ClientTurn(Served(v, x).emitted - Served(v, x).delivered, NoKey)
  }

  /** A round is a run of three actions. */
  function RoundActions(v: Server, x: Sys): seq<Action>
    requires Inv(v, x)
  {
    [Receive(OutSize(x.out))] + ([Emit(Allowed(v, ServedOnce(v, x).received))] + [RoundTurn(v, x)])
  }

  function RoundsActions(v: Server, x: Sys, n: nat): seq<Action>
    requires Inv(v, x)
    decreases n
  {
    if n == 0 then []
    else
      RoundKeeps(v, x);
      RoundActions(v, x) + RoundsActions(v, Round(v, x), n - 1)
  }

  lemma {:induction false} ExecuteMore(v: Server, x: Sys, a: seq<Action>, b: seq<Action>)
    requires Inv(v, x)
    ensures Inv(v, Execute(v, x, a))
    ensures Execute(v, x, a + b) == Execute(v, Execute(v, x, a), b)
    decreases |a|
  {
    hide Inv, Do;
    InvBounds(v, x);
    if a == [] {
      assert a + b == b;
    } else {
      assert (a + b)[1..] == a[1..] + b;
      ActionKeeps(v, x, a[0]);
      ExecuteMore(v, Do(v, x, a[0]), a[1..], b);
    }
  }

  lemma ExecuteOne(v: Server, x: Sys, a: Action)
    requires Inv(v, x)
    ensures |x.loop.held| <= VNC_BUFFER_MAX && x.emitted <= |v.stream|
    ensures Inv(v, Do(v, x, a)) && Execute(v, x, [a]) == Do(v, x, a)
  {
    hide Inv, Do;
    InvBounds(v, x);
    ActionKeeps(v, x, a);
    DropPrefix([a], []);
    assert [a] + [] == [a];
  }

  lemma ExecuteThree(v: Server, x: Sys, a: Action, b: Action, c: Action, y: Sys, z: Sys)
    requires Inv(v, x) && |x.loop.held| <= VNC_BUFFER_MAX && x.emitted <= |v.stream| && y == Do(v, x, a)
    requires Inv(v, y) && |y.loop.held| <= VNC_BUFFER_MAX && y.emitted <= |v.stream| && z == Do(v, y, b)
    requires Inv(v, z) && |z.loop.held| <= VNC_BUFFER_MAX && z.emitted <= |v.stream|
    ensures Execute(v, x, [a] + ([b] + [c])) == Do(v, z, c)
  {
    hide Inv, Do, Execute;
    ExecuteOne(v, x, a);
    ExecuteOne(v, y, b);
    ExecuteOne(v, z, c);
    ExecuteMore(v, x, [a], [b] + [c]);
    ExecuteMore(v, y, [b], [c]);
  }

  lemma ServedBy(v: Server, x: Sys)
    requires Inv(v, x)
    ensures |x.loop.held| <= VNC_BUFFER_MAX && x.emitted <= |v.stream|
    ensures var y := ServedOnce(v, x);
            y == Do(v, x, Receive(OutSize(x.out))) && Served(v, x) == Do(v, y, Emit(Allowed(v, y.received)))
  {
    hide Inv, Do;
    InvBounds(v, x);
  }

  lemma RoundIsRun(v: Server, x: Sys)
    requires Inv(v, x)
    ensures Execute(v, x, RoundActions(v, x)) == Round(v, x)
  {
    hide Inv, Do, Execute, Served, ServedOnce, OutSize, Allowed, RoundTurn;
    var y, z, c := ServedOnce(v, x), Served(v, x), RoundTurn(v, x);
    ServedBy(v, x);
    InvBounds(v, z);
    ExecuteThree(v, x, Receive(OutSize(x.out)), Emit(Allowed(v, y.received)), c, y, z);
    assert Do(v, z, c) == Round(v, x) by {
      RoundEnds(v, x);
    }
  }

  lemma RoundEnds(v: Server, x: Sys)
    requires Inv(v, x)
    ensures |Served(v, x).loop.held| <= VNC_BUFFER_MAX && Served(v, x).emitted <= |v.stream|
    ensures Do(v, Served(v, x), RoundTurn(v, x)) == Round(v, x)
  {
    hide Inv, Do, Served;
    InvBounds(v, Served(v, x));
  }

  lemma {:induction false} RoundsAreRuns(v: Server, x: Sys, n: nat)
    requires Inv(v, x)
    ensures Execute(v, x, RoundsActions(v, x, n)) == Rounds(v, x, n)
    decreases n
  {
    hide Inv, Round, RoundActions, Execute;
    if n == 0 {
      NoActions(v, x);
    } else {
      RoundKeeps(v, x);
      RoundIsRun(v, x);
      RoundsAreRuns(v, Round(v, x), n - 1);
      ExecuteMore(v, x, RoundActions(v, x), RoundsActions(v, Round(v, x), n - 1));
    }
  }

  lemma NoActions(v: Server, x: Sys)
    requires Inv(v, x)
    ensures Execute(v, x, []) == x
  {
  }

  /** Something that can still happen leads to the full refresh request. */
  ghost predicate CanAsk(v: Server, x: Sys)
    requires Inv(v, x)
  {
    exists more: seq<Action> :: FullRefresh in Execute(v, x, more).out
  }

  /** What a server has to be for the client to get to its full refresh request: it accepts the
      client, its name fits the buffer, and it sends fewer than four bytes before the request. */
  predicate Suits(v: Server)
  {
    Accepts(v) && v.name <= 200 && v.early < 4
  }

  /** A run behind which no request can come any more: rounds in which the early bytes arrive as soon
      as they may, or none if the server refuses or its name is longer than the buffer. */
  function StuckRun(v: Server, l: Loop): seq<Action>
    requires ValidServer(v) && Fresh(l)
  {
    StartInv(v, l);
    if Accepts(v) && v.name <= VNC_BUFFER_MAX then RoundsActions(v, Start(l), Distance(v, Start(l))) else []
  }

  lemma RefusedRuns(v: Server, x: Sys, actions: seq<Action>)
    requires Inv(v, x) && !Accepts(v)
    ensures FullRefresh !in Execute(v, x, actions).out
  {
    hide Inv, Execute;
    ExecuteKeeps(v, x, actions);
    Asked(v, Execute(v, x, actions));
  }

  lemma LongNameRuns(v: Server, x: Sys, actions: seq<Action>)
    requires Inv(v, x) && Accepts(v) && v.name > VNC_BUFFER_MAX && Greeting(x.loop.rx.phase)
    ensures FullRefresh !in Execute(v, x, actions).out
  {
    hide Inv, Execute;
    ExecuteKeeps(v, x, actions);
    LongNameNeverAsks(v, x, actions);
    Asked(v, Execute(v, x, actions));
  }

  lemma EarlyRuns(v: Server, x: Sys, n: nat, more: seq<Action>)
    requires Inv(v, x) && Accepts(v) && v.early >= 4 && v.name <= VNC_BUFFER_MAX
    requires SendsLeft(x.loop.send) >= 2 && Distance(v, x) <= n
    ensures FullRefresh !in Execute(v, x, RoundsActions(v, x, n) + more).out
  {
    hide Inv, Execute, Rounds, RoundsActions, Over, Distance;
    RoundsAreRuns(v, x, n);
    ExecuteMore(v, x, RoundsActions(v, x, n), more);
    AlwaysDecides(v, x, n);
    EarlyRounds(v, x, n);
    var y := Rounds(v, x, n);
    SilentOnceOver(v, y, more);
    Asked(v, y);
  }

  /** Behind that run nothing that can happen leads to the request. */
  lemma UnsuitedNeverAsks(v: Server, l: Loop, more: seq<Action>)
    requires ValidServer(v) && Fresh(l) && !Suits(v)
    ensures Inv(v, Start(l)) && FullRefresh !in Execute(v, Start(l), StuckRun(v, l) + more).out
  {
    hide Inv, Execute, RoundsActions, Distance;
    StartInv(v, l);
    assert [] + more == more;
    if !Accepts(v) {
      RefusedRuns(v, Start(l), more);
    } else if v.name > VNC_BUFFER_MAX {
      LongNameRuns(v, Start(l), more);
    } else {
      EarlyRuns(v, Start(l), Distance(v, Start(l)), more);
    }
  }

  /** Every run can be continued to the full refresh request if and only if the server suits. */
  lemma RefreshExactly(v: Server, l: Loop)
    requires ValidServer(v) && Fresh(l)
    ensures Inv(v, Start(l)) && forall actions :: Inv(v, Execute(v, Start(l), actions))
    ensures (forall actions :: CanAsk(v, Execute(v, Start(l), actions))) <==> Suits(v)
  {
    hide Inv, Execute, Rounds, RoundsActions, StuckRun, Distance, Opening;
    StartInv(v, l);
    forall actions ensures Inv(v, Execute(v, Start(l), actions)) {
      ExecuteKeeps(v, Start(l), actions);
    }
    if Suits(v) {
      forall actions ensures CanAsk(v, Execute(v, Start(l), actions)) {
        var x := Execute(v, Start(l), actions);
        AlwaysReachesRefresh(v, l, actions);
        RoundsAreRuns(v, x, Distance(v, x));
        assert FullRefresh in Execute(v, x, RoundsActions(v, x, Distance(v, x))).out;
      }
    } else {
      var x := Execute(v, Start(l), StuckRun(v, l));
      forall more: seq<Action> ensures FullRefresh !in Execute(v, x, more).out {
        ExecuteMore(v, Start(l), StuckRun(v, l), more);
        UnsuitedNeverAsks(v, l, more);
      }
      assert !CanAsk(v, Execute(v, Start(l), StuckRun(v, l)));
      assert !(forall actions :: CanAsk(v, Execute(v, Start(l), actions)));
    }
  }

  /** A cut text of one letter, sent while the client is still announcing its encodings: the client
      gives up, and the full refresh is never requested. */
  lemma EarlyCutText(l: Loop)
    requires l.rx.phase == WaitUpdate && l.held == [] && l.send == PixelFormatSent
    ensures var t := Iterate(l, Ready([3, 0, 0, 0, 0, 0, 0, 1, 65]), NoKey);
            t.Turn? && t.next.rx.phase == Dead && t.next.send == PixelFormatSent && t.sent == None
  {
  }
}
