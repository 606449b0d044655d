/** What the client says over whole runs, any number of connections long: which turns send a message,
    when it is a key event and for which button. */
module KeyEvents {
  import opened Bytes
  import opened Receiver
  import opened Sender
  import opened MainLoop

  /** What a turn meets: the connection, and what the buttons report. */
  datatype Moment = Moment(arrival: Arrival, pressed: Key)

  predicate Turns(l: Loop, m: Moment, said: Option<Message>, next: Loop)
  {
    && |l.held| <= VNC_BUFFER_MAX
    && var t := Iterate(l, m.arrival, m.pressed);
    t.Turn? && t.next == next && t.sent == said
  }

  /** The loops before, between and behind the turns of a run, and what each turn says. */
  predicate Trace(loops: seq<Loop>, moments: seq<Moment>, said: seq<Option<Message>>)
  {
    && |loops| == |moments| + 1 && |said| == |moments|
    && forall i :: 0 <= i < |moments| ==> Turns(loops[i], moments[i], said[i], loops[i + 1])
  }

  predicate PowerOn(l: Loop)
  {
    l.rx.phase == NotConnected && l.send == SendInit && l.key == NoKey
  }

  predicate IsKeyEvent(m: Option<Message>)
  {
    m.Some? && m.value.KeyPress?
  }

  /** The loop does not look at the buttons in a turn that finds the connection closed. */
  predicate Pressed(m: Moment)
  {
    m.arrival.Ready? && m.pressed != NoKey
  }

  /** The full request went out in turn k, and the connection has been up since. */
  predicate AskedAt(moments: seq<Moment>, said: seq<Option<Message>>, i: nat, k: nat)
    requires |said| == |moments| && i < |moments|
  {
    k < i && said[k] == Some(FullRefresh) && forall j :: k < j <= i ==> moments[j].arrival.Ready?
  }

  ghost predicate Asked(moments: seq<Moment>, said: seq<Option<Message>>, i: nat)
    requires |said| == |moments| && i < |moments|
  {
    exists k: nat :: AskedAt(moments, said, i, k)
  }

  /** The press of turn j is the last one, and no key event has gone out since. */
  predicate Owed(moments: seq<Moment>, said: seq<Option<Message>>, i: nat, j: nat)
    requires |said| == |moments| && i < |moments|
  {
    && j <= i && Pressed(moments[j])
    && (forall k :: j < k <= i ==> !Pressed(moments[k]))
    && (forall k :: j <= k < i ==> !IsKeyEvent(said[k]))
  }

  // ----- One turn -----

  /** The send state counts on the full request only once the greeting is over. */
  predicate Sane(l: Loop)
  {
    l.send == RefreshSent ==> l.rx.phase.Order() > WaitServerName.Order() || Over(l.rx.phase)
  }

  lemma StepStaysConnected(s: Rx, b: seq<byte>)
    requires s.phase.Order() > WaitServerName.Order()
    ensures var o := Step(s, b);
            o.Move? || o.Pause? || o.Wait? || o.Reject? ==>
              o.next.phase.Order() > WaitServerName.Order() || (o.Reject? && o.next.phase == Dead)
  {
    if s.phase == ProcessingUpdate {
      InsideUpdate(s, b);
    }
  }

  lemma {:induction false} CallStaysConnected(s: Rx, b: seq<byte>, send: SendState)
    requires s.phase.Order() > WaitServerName.Order() || Over(s.phase)
    ensures var e := Call(s, b, send);
            e.send == send && (e.st.phase.Order() > WaitServerName.Order() || Over(e.st.phase))
    decreases |b|, Rank(s)
  {
    hide Step, Rank;
    if Over(s.phase) {
      StepFails(s, b);
    } else {
      StepStaysConnected(s, b);
      match Step(s, b)
      case Move(t, used) => CallStaysConnected(t, b[used..], send);
      case _ =>
    }
  }

  lemma {:induction false} CallNeverAsks(s: Rx, b: seq<byte>, send: SendState)
    requires send != RefreshSent
    ensures Call(s, b, send).send != RefreshSent
    decreases |b|, Rank(s)
  {
    hide Step, Rank;
    match Step(s, b)
    case Move(t, used) => CallNeverAsks(t, b[used..], SendAfter(s, t, send));
    case _ =>
  }

  lemma OneTurn(l: Loop, m: Moment, said: Option<Message>, next: Loop)
    requires Sane(l) && Turns(l, m, said, next)
    ensures Sane(next)
    ensures m.arrival.Disconnect? ==> said.None? && next.send == SendInit && next.key == l.key
    ensures var key := if Pressed(m) then m.pressed else l.key;
            && (m.arrival.Ready? && l.send == RefreshSent ==>
                  && next.send == RefreshSent
                  && (said.Some? <==> next.rx.phase == ConnectedRefresh)
                  && (said.Some? ==> said.value == if key == NoKey then PartialRefresh else KeyPress(key))
                  && next.key == if said.Some? then NoKey else key)
            && (m.arrival.Ready? && l.send != RefreshSent ==>
                  && (said.Some? ==> !said.value.KeyPress? && !said.value.PartialRefresh?)
                  && (next.send == RefreshSent <==> said == Some(FullRefresh))
                  && next.key == key)
  {
    hide Call;
    if m.arrival.Ready? {
      var b := l.held + m.arrival.data[..Taken(l, m.arrival.data)];
      if l.send == RefreshSent {
        CallStaysConnected(l.rx, b, l.send);
      } else {
        CallNeverAsks(l.rx, b, l.send);
      }
    }
  }

  // ----- Whole runs -----

  /** Behind the first i turns: the press of turn j is the last one, and no key event has gone out
      since. */
  predicate Held(moments: seq<Moment>, said: seq<Option<Message>>, i: nat, j: nat)
    requires |said| == |moments| && i <= |moments|
  {
    && j < i && Pressed(moments[j])
    && (forall k :: j < k < i ==> !Pressed(moments[k]))
    && (forall k :: j <= k < i ==> !IsKeyEvent(said[k]))
  }

  /** And the full request of turn k went out on the connection that is still up. */
  predicate Requested(moments: seq<Moment>, said: seq<Option<Message>>, i: nat, k: nat)
    requires |said| == |moments| && i <= |moments|
  {
    k < i && said[k] == Some(FullRefresh) && forall j :: k < j < i ==> moments[j].arrival.Ready?
  }

  ghost predicate KeyKnown(l: Loop, moments: seq<Moment>, said: seq<Option<Message>>, i: nat)
    requires |said| == |moments| && i <= |moments|
  {
    if l.key == NoKey then forall j: nat :: !Held(moments, said, i, j)
    else exists j: nat :: j < i && Held(moments, said, i, j) && moments[j].pressed == l.key
  }

  ghost predicate SendKnown(l: Loop, moments: seq<Moment>, said: seq<Option<Message>>, i: nat)
    requires |said| == |moments| && i <= |moments|
  {
    Sane(l) && (l.send == RefreshSent <==> exists k: nat :: Requested(moments, said, i, k))
  }

  lemma HeldNext(moments: seq<Moment>, said: seq<Option<Message>>, i: nat, j: nat)
    requires |said| == |moments| && i < |moments|
    ensures Held(moments, said, i + 1, j) <==>
            !IsKeyEvent(said[i]) &&
            if Pressed(moments[i]) then j == i else Held(moments, said, i, j)
  {
  }

  lemma RequestedNext(moments: seq<Moment>, said: seq<Option<Message>>, i: nat, k: nat)
    requires |said| == |moments| && i < |moments|
    ensures Requested(moments, said, i + 1, k) <==>
            if k == i then said[i] == Some(FullRefresh)
            else Requested(moments, said, i, k) && moments[i].arrival.Ready?
    ensures Requested(moments, said, i, k) ==> k < i
  {
  }

  lemma KeyKnownNext(loops: seq<Loop>, moments: seq<Moment>, said: seq<Option<Message>>, i: nat)
    requires Trace(loops, moments, said) && i < |moments| && Sane(loops[i])
    requires KeyKnown(loops[i], moments, said, i)
    ensures KeyKnown(loops[i + 1], moments, said, i + 1)
  {
    hide Turns, Held;
    OneTurn(loops[i], moments[i], said[i], loops[i + 1]);
    var n := i + 1;
    if loops[n].key == NoKey {
      forall j: nat
        ensures !Held(moments, said, n, j)
      {
        HeldNext(moments, said, i, j);
      }
    } else if Pressed(moments[i]) {
      HeldNext(moments, said, i, i);
    } else {
      var j: nat :| j < i && Held(moments, said, i, j) && moments[j].pressed == loops[i].key;
      HeldNext(moments, said, i, j);
    }
  }

  lemma SendKnownNext(loops: seq<Loop>, moments: seq<Moment>, said: seq<Option<Message>>, i: nat)
    requires Trace(loops, moments, said) && i < |moments|
    requires SendKnown(loops[i], moments, said, i)
    ensures SendKnown(loops[i + 1], moments, said, i + 1)
  {
    hide Turns, Requested;
    OneTurn(loops[i], moments[i], said[i], loops[i + 1]);
    var n := i + 1;
    if loops[n].send != RefreshSent {
      forall k: nat
        ensures !Requested(moments, said, n, k)
      {
        RequestedNext(moments, said, i, k);
      }
    } else if said[i] == Some(FullRefresh) {
      RequestedNext(moments, said, i, i);
    } else {
      var k: nat :| Requested(moments, said, i, k);
      RequestedNext(moments, said, i, k);
    }
  }

  lemma {:induction false} AlwaysKnown(loops: seq<Loop>, moments: seq<Moment>, said: seq<Option<Message>>, i: nat)
    requires Trace(loops, moments, said) && PowerOn(loops[0]) && i <= |moments|
    ensures KeyKnown(loops[i], moments, said, i) && SendKnown(loops[i], moments, said, i)
  {
    hide Turns;
    if i > 0 {
      AlwaysKnown(loops, moments, said, i - 1);
      KeyKnownNext(loops, moments, said, i - 1);
      SendKnownNext(loops, moments, said, i - 1);
    }
  }

  /** Once the full request is out a turn says something exactly when it leaves the receiver right
      behind an update. It is a key event if and only if a button was pressed since the last one, and
      then for the button pressed last; otherwise it is a request for what has changed. Before the
      full request it is neither. */
  lemma SaidExactly(loops: seq<Loop>, moments: seq<Moment>, said: seq<Option<Message>>, i: nat)
    requires Trace(loops, moments, said) && PowerOn(loops[0]) && i < |moments|
    ensures Asked(moments, said, i) ==>
      && (said[i].Some? <==> loops[i + 1].rx.phase == ConnectedRefresh)
      && (said[i].Some? && (exists j: nat :: Owed(moments, said, i, j)) ==> said[i].value.KeyPress?)
      && (said[i].Some? && !(exists j: nat :: Owed(moments, said, i, j)) ==> said[i].value == PartialRefresh)
      && (forall j: nat :: Owed(moments, said, i, j) && said[i].Some? ==> said[i].value.key == moments[j].pressed)
    ensures !Asked(moments, said, i) ==> !IsKeyEvent(said[i]) && said[i] != Some(PartialRefresh)
  {
    AlwaysKnown(loops, moments, said, i);
    AskedIs(loops, moments, said, i);
    hide Turns, Held, Owed, Asked, Requested, Sane;
    OneTurn(loops[i], moments[i], said[i], loops[i + 1]);
    if Pressed(moments[i]) {
      OwedIs(moments, said, i, i);
    } else if loops[i].key != NoKey {
      var j: nat :| j < i && Held(moments, said, i, j) && moments[j].pressed == loops[i].key;
      OwedIs(moments, said, i, j);
    } else {
      forall j: nat
        ensures !Owed(moments, said, i, j)
      {
        OwedIs(moments, said, i, j);
      }
    }
  }

  /** So what a server reads is the letter of the button pressed last, as a key that goes down, or a
      request for what has changed on the whole screen. */
  lemma ReadExactly(loops: seq<Loop>, moments: seq<Moment>, said: seq<Option<Message>>, i: nat)
    requires Trace(loops, moments, said) && PowerOn(loops[0]) && i < |moments|
    requires Asked(moments, said, i) && said[i].Some?
    ensures var r := ReadMessage(MessageBytes(said[i].value));
            && r.Some? && r.value.used == |MessageBytes(said[i].value)|
            && (forall j: nat :: Owed(moments, said, i, j) ==>
                  r.value.message ==
                  KeyEvent(true, match moments[j].pressed case KeyA => 0x72 case KeyB => 0x61 case _ => 0x62))
            && (!(exists j: nat :: Owed(moments, said, i, j)) ==>
                  r.value.message == UpdateRequest(true, 0, 0, 128, 160))
  {
    SaidExactly(loops, moments, said, i);
    hide Trace, Asked, ReadMessage, MessageBytes;
    if exists j: nat :: Owed(moments, said, i, j) {
      var j: nat :| Owed(moments, said, i, j);
      ReadsAlone(KeyPress(moments[j].pressed));
      assert said[i].value == KeyPress(moments[j].pressed);
      OwedIs(moments, said, i, j);
    } else {
      ReadsAlone(PartialRefresh);
    }
  }

  lemma OwedIs(moments: seq<Moment>, said: seq<Option<Message>>, i: nat, j: nat)
    requires |said| == |moments| && i < |moments|
    ensures Owed(moments, said, i, j) <==> if Pressed(moments[i]) then j == i else Held(moments, said, i, j)
    ensures Owed(moments, said, i, j) ==> forall k: nat :: Owed(moments, said, i, k) ==> k == j
  {
  }

  lemma AskedIs(loops: seq<Loop>, moments: seq<Moment>, said: seq<Option<Message>>, i: nat)
    requires |loops| == |moments| + 1 && |said| == |moments| && i < |moments|
    requires SendKnown(loops[i], moments, said, i)
    ensures Asked(moments, said, i) <==> moments[i].arrival.Ready? && loops[i].send == RefreshSent
  {
    if moments[i].arrival.Ready? && loops[i].send == RefreshSent {
      var k: nat :| Requested(moments, said, i, k);
      assert AskedAt(moments, said, i, k);
    }
    if Asked(moments, said, i) {
      var k: nat :| AskedAt(moments, said, i, k);
      assert Requested(moments, said, i, k);
    }
  }

  // ----- Presses and key events -----

  function PressesIn(moments: seq<Moment>): nat
  {
    if moments == [] then 0
    else PressesIn(moments[..|moments| - 1]) + if Pressed(moments[|moments| - 1]) then 1 else 0
  }

  function KeyEventsIn(said: seq<Option<Message>>): nat
  {
    if said == [] then 0
    else KeyEventsIn(said[..|said| - 1]) + if IsKeyEvent(said[|said| - 1]) then 1 else 0
  }

  /** No press is sent twice: two key events are for different presses, the later for the later. */
  lemma SentOnce(loops: seq<Loop>, moments: seq<Moment>, said: seq<Option<Message>>, i: nat, j: nat)
    requires Trace(loops, moments, said) && PowerOn(loops[0]) && i < j < |moments|
    requires IsKeyEvent(said[i]) && IsKeyEvent(said[j])
    ensures exists p: nat, q: nat :: Owed(moments, said, i, p) && Owed(moments, said, j, q) && p <= i < q
  {
    hide Turns, Asked;
    SaidExactly(loops, moments, said, i);
    SaidExactly(loops, moments, said, j);
    var p: nat :| Owed(moments, said, i, p);
    var q: nat :| Owed(moments, said, j, q);
  }

  /** So at any moment there have been at least as many presses as key events, and one more if a
      button is still to be sent. */
  lemma {:induction false} PressesCover(loops: seq<Loop>, moments: seq<Moment>, said: seq<Option<Message>>, i: nat)
    requires Trace(loops, moments, said) && PowerOn(loops[0]) && i <= |moments|
    ensures KeyEventsIn(said[..i]) + (if loops[i].key != NoKey then 1 else 0) <= PressesIn(moments[..i])
  {
    hide Turns;
    if i > 0 {
      PressesCover(loops, moments, said, i - 1);
      AlwaysKnown(loops, moments, said, i - 1);
      assert said[..i][..i - 1] == said[..i - 1] && moments[..i][..i - 1] == moments[..i - 1];
      OneTurn(loops[i - 1], moments[i - 1], said[i - 1], loops[i]);
    }
  }

  /** Without presses every message behind the full request is a request for what has changed. */
  lemma ButtonsUntouched(loops: seq<Loop>, moments: seq<Moment>, said: seq<Option<Message>>, i: nat)
    requires Trace(loops, moments, said) && PowerOn(loops[0]) && i < |moments|
    requires forall j :: 0 <= j < |moments| ==> !Pressed(moments[j])
    requires Asked(moments, said, i)
    ensures said[i] == if loops[i + 1].rx.phase == ConnectedRefresh then Some(PartialRefresh) else None
  {
    hide Turns, Asked;
    SaidExactly(loops, moments, said, i);
  }
}
