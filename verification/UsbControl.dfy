/** Control transfers of the software USB driver and the test device on top of it.

    Setup, Out, Build and Take are the four things that can happen to the driver's state: a SETUP
    or OUT packet is processed, a packet is built for the idle transmitter, the host takes it.
    One call of usbPoll is a packet processed, if one came in, and then a build. */
module UsbControl {
  import opened Bytes

  const DATA0: bv8 := 0xc3
  const DATA1: bv8 := 0x4b
  const BUFFER_SIZE: nat := 230

  const RQ_ECHO: byte := 0
  const RQ_SET_STATUS: byte := 1
  const RQ_GET_STATUS: byte := 2
  const RQ_TEST_READ: byte := 3
  const RQ_TEST_WRITE: byte := 4

  datatype Packet = Packet(token: bv8, data: seq<byte>)

  /** The transmit side: the last data token, the packet waiting for the host if the transmitter
      is busy, and what remains of the reply; None when there is no reply to build from. */
  datatype Transmit = Transmit(token: bv8, packet: Option<seq<byte>>, msg: Option<seq<byte>>)

  datatype Device = Device(tx: Transmit, userWrite: bool, buffer: seq<byte>,
                           position: nat, remaining: nat, led: bool)

  datatype Event = Setup(request: seq<byte>) | Out(data: seq<byte>) | Build | Take

  predicate Valid(d: Device)
  {
    && |d.buffer| == BUFFER_SIZE
    && d.position + d.remaining <= BUFFER_SIZE
    && (d.userWrite && d.tx.msg.Some? ==> d.tx.msg.value == [])
  }

  function Toggle(token: bv8): bv8
  {
    token ^ DATA0 ^ DATA1
  }

  // ----- SETUP and OUT packets -----

  /** A request the application answers: not of standard type; a test write goes to the device. */
  predicate Custom(rq: seq<byte>)
    requires |rq| == 8
  {
    rq[0] / 32 % 4 != 0 && (rq[1] == RQ_TEST_WRITE ==> rq[0] < 128)
  }

  /** The reply length is a byte, cut to the low byte of wLength when the high byte is zero. */
  function Limited(reply: seq<byte>, rq: seq<byte>): seq<byte>
    requires |rq| == 8
  {
    if rq[7] == 0 && |reply| > rq[6] then reply[..rq[6]] else reply
  }

  /** How much of a test write is accepted: the low byte of wLength, at most the buffer. */
  function Accepted(length: word): (n: nat)
    ensures n <= BUFFER_SIZE
  {
    Min(length % 256, BUFFER_SIZE)
  }

  /** What a request is answered with, before the cut. */
  function Reply(led: bool, buffer: seq<byte>, rq: seq<byte>): seq<byte>
    requires |rq| == 8
  {
    if rq[1] == RQ_ECHO then rq[2..6]
    else if rq[1] == RQ_GET_STATUS then [if led then 1 else 0]
    else if rq[1] == RQ_TEST_READ then buffer
    else []
  }

  function SetupStep(d: Device, rq: seq<byte>): (e: Device)
    requires Valid(d) && |rq| == 8 && Custom(rq)
    ensures Valid(e)
  {
    var writing := rq[1] == RQ_TEST_WRITE;
    Device(Transmit(DATA0, None, if writing then None else Some(Limited(Reply(d.led, d.buffer, rq), rq))),
           writing,
           d.buffer,
           if writing || rq[1] == RQ_TEST_READ then 0 else d.position,
           if writing then Accepted(Word(rq[7], rq[6])) else d.remaining,
           if rq[1] == RQ_SET_STATUS then rq[2] % 2 == 1 else d.led)
  }

  /** The buffer with the first k bytes of the data written at an offset. */
  function Spliced(buffer: seq<byte>, at: nat, data: seq<byte>, k: nat): (r: seq<byte>)
    requires at + k <= |buffer| && k <= |data|
    ensures |r| == |buffer|
  {
    buffer[..at] + data[..k] + buffer[at + k..]
  }

  /** A packet of a test write: as much of it as is still wanted goes to the buffer, and once
      nothing more is wanted the transfer is answered by an empty packet. */
  function OutStep(d: Device, data: seq<byte>): (e: Device)
    requires Valid(d)
    ensures Valid(e)
  {
    if !d.userWrite then d
    else
      var k := Min(|data|, d.remaining);
      d.(buffer := Spliced(d.buffer, d.position, data, k),
         position := d.position + k,
         remaining := d.remaining - k,
         tx := if k == d.remaining then d.tx.(msg := Some([])) else d.tx)
  }

  /** Up to eight bytes of the reply become the next packet; a short packet ends the reply. */
  function BuildStep(t: Transmit): Transmit
  {
    if t.packet.Some? || t.msg.None? then t
    else
      var k := Min(8, |t.msg.value|);
      Transmit(Toggle(t.token), Some(t.msg.value[..k]), if k < 8 then None else Some(t.msg.value[k..]))
  }

  predicate Regular(e: Event)
  {
    e.Setup? ==> |e.request| == 8 && Custom(e.request)
  }

  function Step(d: Device, e: Event): (f: Device)
    requires Valid(d) && Regular(e)
    ensures Valid(f)
  {
    match e
    case Setup(rq) => SetupStep(d, rq)
    case Out(data) => OutStep(d, data)
    case Build => d.(tx := BuildStep(d.tx))
    case Take => d.(tx := d.tx.(packet := None))
  }

  /** What the host gets in one event. */
  function Given(d: Device, e: Event): seq<Packet>
  {
    if e.Take? && d.tx.packet.Some? then [Packet(d.tx.token, d.tx.packet.value)] else []
  }

  predicate AllRegular(events: seq<Event>)
  {
    forall i :: 0 <= i < |events| ==> Regular(events[i])
  }

  function Run(d: Device, events: seq<Event>): (f: Device)
    requires Valid(d) && AllRegular(events)
    ensures Valid(f)
    decreases |events|
  {
    if events == [] then d else Run(Step(d, events[0]), events[1..])
  }

  /** What the host gets over a run. */
  function GivenBy(d: Device, events: seq<Event>): seq<Packet>
    requires Valid(d) && AllRegular(events)
    decreases |events|
  {
    if events == [] then [] else Given(d, events[0]) + GivenBy(Step(d, events[0]), events[1..])
  }

  // ----- Replies -----

  /** The packets a reply leaves in, after a packet with the given token. */
  function Packets(token: bv8, msg: seq<byte>): seq<Packet>
    decreases |msg|
  {
    if |msg| < 8 then [Packet(Toggle(token), msg)]
    else [Packet(Toggle(token), msg[..8])] + Packets(Toggle(token), msg[8..])
  }

  function Payload(packets: seq<Packet>): seq<byte>
  {
    if packets == [] then [] else packets[0].data + Payload(packets[1..])
  }

  lemma ToggleTwice(token: bv8)
    ensures Toggle(Toggle(token)) == token && Toggle(DATA0) == DATA1 && Toggle(DATA1) == DATA0
  {
  }

  lemma {:induction false} PacketsPayload(token: bv8, msg: seq<byte>)
    ensures |Packets(token, msg)| == |msg| / 8 + 1 && Payload(Packets(token, msg)) == msg
    decreases |msg|
  {
    hide Toggle;
    var p := Packets(token, msg);
    if |msg| < 8 {
      assert Payload(p) == msg + Payload(p[1..]) == msg;
    } else {
      PacketsPayload(Toggle(token), msg[8..]);
      assert p[1..] == Packets(Toggle(token), msg[8..]);
      assert msg[..8] + msg[8..] == msg;
    }
  }

  lemma {:induction false} PacketAt(token: bv8, msg: seq<byte>, i: nat)
    requires i < |Packets(token, msg)|
    ensures var p := Packets(token, msg);
            && |p[i].data| <= 8 && (|p[i].data| == 8 <==> i < |p| - 1)
            && p[i].token == if i % 2 == 0 then Toggle(token) else token
    decreases |msg|
  {
    hide Toggle;
    if |msg| >= 8 {
      ToggleTwice(token);
      if i > 0 {
        PacketAt(Toggle(token), msg[8..], i - 1);
      } else {
        PacketsPayload(Toggle(token), msg[8..]);
      }
    }
  }

  /** A reply of m bytes leaves as m/8 full packets and a short one, with alternating tokens, and
      the payloads are the reply. */
  lemma PacketsShape(token: bv8, msg: seq<byte>)
    ensures var p := Packets(token, msg);
            && |p| == |msg| / 8 + 1
            && Payload(p) == msg
            && (forall i :: 0 <= i < |p| ==> |p[i].data| <= 8 && (|p[i].data| == 8 <==> i < |p| - 1))
            && (forall i :: 0 <= i < |p| ==> p[i].token == if i % 2 == 0 then Toggle(token) else token)
  {
    hide *;
    PacketsPayload(token, msg);
    var p := Packets(token, msg);
    forall i | 0 <= i < |p|
      ensures |p[i].data| <= 8 && (|p[i].data| == 8 <==> i < |p| - 1)
      ensures p[i].token == if i % 2 == 0 then Toggle(token) else token
    {
      PacketAt(token, msg, i);
    }
  }

  /** What the host has yet to get: the waiting packet and those the reply will make. */
  function Offer(t: Transmit): seq<Packet>
  {
    (if t.packet.Some? then [Packet(t.token, t.packet.value)] else []) +
    (if t.msg.Some? then Packets(t.token, t.msg.value) else [])
  }

  lemma BuildKeepsOffer(t: Transmit)
    ensures Offer(BuildStep(t)) == Offer(t)
  {
    if t.packet.None? && t.msg.Some? {
      var m := t.msg.value;
      if |m| < 8 {
        assert m[..|m|] == m;
      }
    }
  }

  lemma TakeOffer(d: Device)
    requires Valid(d)
    ensures Given(d, Take) + Offer(Step(d, Take).tx) == Offer(d.tx)
  {
    hide Packets;
  }

  /** While a reply goes out nothing but SETUP disturbs it. */
  predicate Replying(d: Device, events: seq<Event>)
  {
    !d.userWrite && forall i :: 0 <= i < |events| ==> !events[i].Setup?
  }

  /** Whatever the order of polls and of the host's requests, no packet of the reply is lost,
      repeated or reordered. */
  lemma {:induction false} ReplyConserved(d: Device, events: seq<Event>)
    requires Valid(d) && Replying(d, events)
    ensures AllRegular(events) && GivenBy(d, events) + Offer(Run(d, events).tx) == Offer(d.tx)
    ensures Run(d, events).buffer == d.buffer
    decreases |events|
  {
    hide Offer, BuildStep;
    if events != [] {
      var e := Step(d, events[0]);
      ReplyConserved(e, events[1..]);
      Regroup([], Given(d, events[0]), GivenBy(e, events[1..]), Offer(Run(e, events[1..]).tx));
      match events[0] {
        case Take => TakeOffer(d);
        case Build => BuildKeepsOffer(d.tx);
        case _ =>
      }
    }
  }

  /** Polls and host requests by turns. */
  function Rounds(n: nat): seq<Event>
  {
    if n == 0 then [] else [Build, Take] + Rounds(n - 1)
  }

  /** After as many rounds as there are packets, the host has the whole reply. */
  lemma {:induction false} ReplyComplete(d: Device, n: nat)
    requires Valid(d) && !d.userWrite && |Offer(d.tx)| <= n
    ensures AllRegular(Rounds(n)) && GivenBy(d, Rounds(n)) == Offer(d.tx)
    decreases n
  {
    hide Packets, Toggle;
    if n > 0 {
      var e := Step(d, Build);
      var f := Step(e, Take);
      BuildKeepsOffer(d.tx);
      TakeOffer(e);
      NothingToBuild(d.tx);
      ReplyComplete(f, n - 1);
      var r := Rounds(n);
      assert r[0] == Build && r[1..][0] == Take && r[1..][1..] == Rounds(n - 1);
      assert GivenBy(d, r) == Given(d, Build) + (Given(e, Take) + GivenBy(f, Rounds(n - 1)));
    }
  }

  lemma NothingToBuild(t: Transmit)
    ensures BuildStep(t).packet.None? <==> Offer(t) == []
  {
    if t.msg.Some? {
      PacketsShape(t.token, t.msg.value);
    }
  }

  // ----- Writing -----

  predicate Writing(events: seq<Event>)
  {
    forall i :: 0 <= i < |events| ==> !events[i].Setup?
  }

  /** The data the host sends over a run. */
  function Sent(events: seq<Event>): seq<byte>
  {
    if events == [] then []
    else (if events[0].Out? then events[0].data else []) + Sent(events[1..])
  }

  predicate AnySent(events: seq<Event>)
  {
    exists i :: 0 <= i < |events| && events[i].Out?
  }

  function Stored(d: Device, data: seq<byte>): seq<byte>
    requires Valid(d)
  {
    Spliced(d.buffer, d.position, data, Min(|data|, d.remaining))
  }

  lemma StoredTwice(d: Device, a: seq<byte>, b: seq<byte>)
    requires Valid(d) && d.userWrite
    ensures Stored(OutStep(d, a), b) == Stored(d, a + b)
  {
    var k := Min(|a|, d.remaining);
    var e := OutStep(d, a);
    var m := Min(|b|, e.remaining);
    assert e.buffer[..e.position] == d.buffer[..d.position] + a[..k];
    assert e.buffer[e.position + m..] == d.buffer[d.position + k + m..];
    assert (a + b)[..k + m] == a[..k] + b[..m];
  }

  lemma StoredNone(d: Device)
    requires Valid(d)
    ensures Stored(d, []) == d.buffer
  {
  }

  lemma StoredFrame(d: Device, t: Transmit, data: seq<byte>)
    requires Valid(d) && Valid(d.(tx := t))
    ensures Stored(d.(tx := t), data) == Stored(d, data)
  {
  }

  /** However a test write is cut into packets, and however polls and requests interleave, the
      accepted part of the data ends up in the buffer and nothing else changes there. */
  lemma {:induction false} WriteStores(d: Device, events: seq<Event>)
    requires Valid(d) && d.userWrite && Writing(events)
    ensures AllRegular(events) && Run(d, events).buffer == Stored(d, Sent(events))
    decreases |events|
  {
    hide Stored;
    if events == [] {
      StoredNone(d);
    } else {
      var e := Step(d, events[0]);
      WriteStores(e, events[1..]);
      if events[0].Out? {
        StoredTwice(d, events[0].data, Sent(events[1..]));
      } else {
        assert [] + Sent(events[1..]) == Sent(events[1..]);
        StoredFrame(d, e.tx, Sent(events[1..]));
      }
    }
  }

  /** Everything the host gets or is offered over a run. */
  function Shown(d: Device, events: seq<Event>): seq<Packet>
    requires Valid(d) && AllRegular(events)
  {
    GivenBy(d, events) + Offer(Run(d, events).tx)
  }

  lemma ShownStep(d: Device, events: seq<Event>)
    requires Valid(d) && AllRegular(events) && events != []
    ensures Shown(d, events) == Given(d, events[0]) + Shown(Step(d, events[0]), events[1..])
  {
    hide Offer;
  }

  lemma OutKeepsOffer(d: Device, data: seq<byte>)
    requires Valid(d)
    ensures Offer(d.tx) <= Offer(OutStep(d, data).tx)
  {
  }

  /** What is offered during a write is what the host gets first. */
  lemma {:induction false} OfferedFirst(d: Device, events: seq<Event>)
    requires Valid(d) && Writing(events)
    ensures AllRegular(events) && Offer(d.tx) <= Shown(d, events)
    decreases |events|
  {
    hide Offer, BuildStep, OutStep, Shown;
    if events == [] {
      ShownNone(d);
    } else {
      var e := Step(d, events[0]);
      OfferedFirst(e, events[1..]);
      ShownStep(d, events);
      var rest := Shown(e, events[1..]);
      match events[0] {
        case Take =>
          TakeOffer(d);
        case Build => BuildKeepsOffer(d.tx);
        case Out(data) => OutKeepsOffer(d, data);
      }
    }
  }

  lemma ShownNone(d: Device)
    requires Valid(d)
    ensures Shown(d, []) == Offer(d.tx)
  {
    hide Offer;
  }

  /** A test write that has just been set up. */
  predicate Opened(d: Device)
  {
    d.userWrite && d.tx == Transmit(DATA0, None, None)
  }

  /** The status stage: a test write is answered exactly when some packet has come in and the
      packets hold all that is accepted; the answer is an empty DATA1 packet. A write of no bytes
      has no packets, so it is never answered. */
  lemma {:induction false} StatusStage(d: Device, events: seq<Event>)
    requires Valid(d) && Opened(d) && Writing(events)
    ensures AllRegular(events)
    ensures Shown(d, events) != [] <==> AnySent(events) && |Sent(events)| >= d.remaining
    ensures Shown(d, events) != [] ==> Shown(d, events)[0] == Packet(DATA1, [])
    decreases |events|
  {
    hide Shown;
    if events == [] {
      ShownNone(d);
    } else {
      var e := Step(d, events[0]);
      var rest := events[1..];
      ShownStep(d, events);
      if events[0].Out? {
        var data := events[0].data;
        if |data| >= d.remaining {
          OfferedFirst(e, rest);
          assert Offer(e.tx) == [Packet(DATA1, [])];
        } else {
          StatusStage(e, rest);
          SentNothing(rest);
        }
      } else {
        StatusStage(e, rest);
        if AnySent(rest) {
          AnySentLater(events);
        }
      }
    }
  }

  lemma AnySentLater(events: seq<Event>)
    requires events != [] && AnySent(events[1..])
    ensures AnySent(events)
  {
    var i :| 0 <= i < |events[1..]| && events[1..][i].Out?;
    assert events[i + 1].Out?;
  }

  lemma {:induction false} SentNothing(events: seq<Event>)
    ensures Sent(events) != [] ==> AnySent(events)
    decreases |events|
  {
    if events != [] {
      SentNothing(events[1..]);
      if events[0].Out? {
        assert AnySent(events);
      } else if AnySent(events[1..]) {
        AnySentLater(events);
      }
    }
  }

  // ----- Write, then read -----

  predicate TestRequest(rq: seq<byte>, request: byte, length: word)
  {
    |rq| == 8 && Custom(rq) && rq[1] == request && Word(rq[7], rq[6]) == length
  }

  /** A test read returns the buffer, cut to the length asked for. */
  lemma ReadBack(d: Device, read: seq<byte>, length: word, n: nat)
    requires Valid(d) && TestRequest(read, RQ_TEST_READ, length) && n > 30
    ensures AllRegular(Rounds(n))
    ensures Payload(GivenBy(SetupStep(d, read), Rounds(n))) ==
            if length < BUFFER_SIZE then d.buffer[..length] else d.buffer
  {
    hide Rounds, GivenBy, Payload, Packets, AllRegular;
    var reply := Limited(d.buffer, read);
    var f := SetupStep(d, read);
    assert f.tx == Transmit(DATA0, None, Some(reply));
    assert Offer(f.tx) == [] + Packets(DATA0, reply) == Packets(DATA0, reply);
    PacketsShape(DATA0, reply);
    ReplyComplete(f, n);
  }

  lemma StoredPrefix(d: Device, data: seq<byte>)
    requires Valid(d) && d.position == 0 && d.remaining == |data|
    ensures Stored(d, data)[..|data|] == data
  {
  }

  /** Writing data and reading as many bytes back gives the data exactly when it fits the buffer,
      however the write is cut into packets and whatever else happens between the packets. */
  lemma WriteThenRead(d: Device, data: seq<byte>, write: seq<byte>, packets: seq<Event>, read: seq<byte>, n: nat)
    requires Valid(d) && |data| < 0x1_0000
    requires TestRequest(write, RQ_TEST_WRITE, |data|) && TestRequest(read, RQ_TEST_READ, |data|)
    requires Writing(packets) && Sent(packets) == data && n > 30
    ensures AllRegular(packets) && AllRegular(Rounds(n))
    ensures var back := Run(SetupStep(d, write), packets);
            Payload(GivenBy(SetupStep(back, read), Rounds(n))) == data <==> |data| <= BUFFER_SIZE
  {
    hide Rounds, GivenBy, Payload, Run, AllRegular, Writing, Sent, Stored;
    var e := SetupStep(d, write);
    assert e.userWrite && e.position == 0 && e.remaining == Accepted(|data|);
    WriteStores(e, packets);
    var back := Run(e, packets);
    ReadBack(back, read, |data|, n);
    if |data| <= BUFFER_SIZE {
      StoredPrefix(e, data);
      assert back.buffer[..|back.buffer|] == back.buffer;
    }
  }

  // ----- Behind a SETUP -----

  /** The token of the next packet the host gets. */
  function FirstToken(t: Transmit): bv8
  {
    if t.packet.Some? then t.token else Toggle(t.token)
  }

  predicate Alternating(packets: seq<Packet>, first: bv8)
  {
    forall i :: 0 <= i < |packets| ==> packets[i].token == if i % 2 == 0 then first else Toggle(first)
  }

  lemma AlternatingMore(p: Packet, packets: seq<Packet>)
    requires Alternating(packets, Toggle(p.token))
    ensures Alternating([p] + packets, p.token)
  {
    ToggleTwice(p.token);
    hide Toggle;
    var all := [p] + packets;
    forall i | 0 <= i < |all|
      ensures all[i].token == if i % 2 == 0 then p.token else Toggle(p.token)
    {
      if i > 0 {
        assert all[i] == packets[i - 1];
      }
    }
  }

  /** Without another SETUP the packets the host gets have alternating tokens, whatever happens. */
  lemma {:induction false} TokensAlternate(d: Device, events: seq<Event>)
    requires Valid(d) && Writing(events)
    ensures AllRegular(events) && Alternating(GivenBy(d, events), FirstToken(d.tx))
    decreases |events|
  {
    hide Toggle, Alternating, OutStep;
    if events == [] {
      NoneAlternate(FirstToken(d.tx));
    } else {
      var e := Step(d, events[0]);
      TokensAlternate(e, events[1..]);
      StepToken(d, events[0]);
      var rest := GivenBy(e, events[1..]);
      if events[0].Take? && d.tx.packet.Some? {
        AlternatingMore(Packet(d.tx.token, d.tx.packet.value), rest);
      } else {
        assert [] + rest == rest;
      }
    }
  }

  lemma NoneAlternate(first: bv8)
    ensures Alternating([], first)
  {
  }

  lemma StepToken(d: Device, e: Event)
    requires Valid(d) && !e.Setup?
    ensures FirstToken(Step(d, e).tx) ==
            if e.Take? && d.tx.packet.Some? then Toggle(FirstToken(d.tx)) else FirstToken(d.tx)
  {
    hide Toggle;
  }

  /** Behind every request, in every state of the device, the first packet the host gets is a DATA1
      packet, the second a DATA0 packet, and so on. */
  lemma SetupTokens(d: Device, rq: seq<byte>, events: seq<Event>)
    requires Valid(d) && |rq| == 8 && Custom(rq) && Writing(events)
    ensures AllRegular(events)
    ensures var g := GivenBy(SetupStep(d, rq), events);
            forall i :: 0 <= i < |g| ==> g[i].token == if i % 2 == 0 then 0x4B else 0xC3
  {
    var e := SetupStep(d, rq);
    TokensAlternate(e, events);
    assert FirstToken(e.tx) == 0x4B && Toggle(0x4B) == 0xC3;
  }

  /** A test write opens its transfer at the beginning of the buffer, for as many bytes as the low
      byte of wLength says, at most 230. */
  lemma SetupOpens(d: Device, rq: seq<byte>)
    requires Valid(d) && |rq| == 8 && Custom(rq) && rq[1] == 4
    ensures var e := SetupStep(d, rq);
            && Opened(e) && e.position == 0 && e.buffer == d.buffer && e.led == d.led
            && e.remaining == if rq[6] > 230 then 230 else rq[6]
  {
  }

  /** The whole test write: the data of its packets, as far as it is accepted, replaces the beginning
      of the buffer, and the host is answered, by an empty DATA1 packet, exactly when some packet has
      come and they hold all that is accepted. */
  lemma WriteBehindSetup(d: Device, rq: seq<byte>, events: seq<Event>)
    requires Valid(d) && |rq| == 8 && Custom(rq) && rq[1] == 4 && Writing(events)
    ensures AllRegular(events)
    ensures var e := SetupStep(d, rq);
            var data := Sent(events);
            var accepted := if rq[6] > 230 then 230 else rq[6];
            var k := if |data| > accepted then accepted else |data|;
            && Run(e, events).buffer == data[..k] + d.buffer[k..]
            && (Shown(e, events) != [] <==> AnySent(events) && |data| >= accepted)
            && (Shown(e, events) != [] ==> Shown(e, events)[0] == Packet(0x4B, []))
  {
    hide Shown, Run, GivenBy, Sent, AnySent, Writing, AllRegular, SetupStep;
    SetupOpens(d, rq);
    var e := SetupStep(d, rq);
    WriteStores(e, events);
    StatusStage(e, events);
    assert d.buffer[..0] == [];
  }

  /** What a request other than a test write is answered with, in bytes: an echo its four parameter
      bytes, a status request one byte that says if the LED is on, a test read the buffer, any other
      nothing; cut to wLength if that has no high byte. Only a set status request changes the LED. */
  lemma ReplyBytes(d: Device, rq: seq<byte>, n: nat)
    requires Valid(d) && |rq| == 8 && Custom(rq) && rq[1] != 4 && n > 30
    ensures AllRegular(Rounds(n))
    ensures var full := match rq[1]
                        case 0 => [rq[2], rq[3], rq[4], rq[5]]
                        case 2 => [if d.led then 1 else 0]
                        case 3 => d.buffer
                        case _ => [];
            Payload(GivenBy(SetupStep(d, rq), Rounds(n))) ==
            if rq[7] == 0 && rq[6] < |full| then full[..rq[6]] else full
    ensures rq[1] != 1 ==> SetupStep(d, rq).led == d.led
  {
    hide Rounds, GivenBy, Payload, Packets, AllRegular;
    var reply := Limited(Reply(d.led, d.buffer, rq), rq);
    var e := SetupStep(d, rq);
    assert rq[2..6] == [rq[2], rq[3], rq[4], rq[5]];
    assert Offer(e.tx) == [] + Packets(DATA0, reply) == Packets(DATA0, reply);
    PacketsShape(DATA0, reply);
    ReplyComplete(e, n);
  }

  /** Nothing but a request changes the LED. */
  lemma {:induction false} LedStays(d: Device, events: seq<Event>)
    requires Valid(d) && Writing(events)
    ensures AllRegular(events) && Run(d, events).led == d.led
    decreases |events|
  {
    if events != [] {
      LedStays(Step(d, events[0]), events[1..]);
    }
  }

  /** So the LED reads back as it was set. */
  lemma LedReadsBack(d: Device, put: seq<byte>, events: seq<Event>, get: seq<byte>, n: nat)
    requires Valid(d) && |put| == 8 && Custom(put) && put[1] == 1 && Writing(events)
    requires |get| == 8 && Custom(get) && get[1] == 2 && (get[6] != 0 || get[7] != 0) && n > 30
    ensures AllRegular(events) && AllRegular(Rounds(n))
    ensures var e := Run(SetupStep(d, put), events);
            Payload(GivenBy(SetupStep(e, get), Rounds(n))) == [put[2] % 2]
  {
    hide Rounds, GivenBy, Payload, Run, AllRegular, Writing;
    LedStays(SetupStep(d, put), events);
    ReplyBytes(Run(SetupStep(d, put), events), get, n);
  }

  lemma RunBuild(d: Device)
    requires Valid(d)
    ensures AllRegular([Build]) && Run(d, [Build]) == Step(d, Build)
  {
    hide Step;
    assert [Build][1..] == [];
  }

  lemma RunThenBuild(d: Device, e: Event)
    requires Valid(d) && Regular(e)
    ensures AllRegular([e, Build]) && Run(d, [e, Build]) == Step(Step(d, e), Build)
  {
    hide Step, Valid;
    var events := [e, Build];
    RunBuild(Step(d, e));
    assert events[1..] == [Build];
  }

  // ----- The driver -----

  const NAK: byte := 0x5a
  const NO_MSG: byte := 255

  /** usbdrv.c's statics and those of the test device. usbTxBuf is a token and eight data bytes;
      usbMsgPtr is an array and an offset into it. */
  class UsbDevice {
    var txToken: bv8
    const txData: array<byte>
    var txLen: byte
    var msgPtr: array<byte>
    var msgOffset: nat
    var msgLen: byte
    var userWrite: bool
    const readWriteBuffer: array<byte>
    const dataBuffer: array<byte>
    var currentPosition: byte
    var bytesRemaining: byte
    var led: bool

    /** Bit 4 of the length tells a handshake token from a packet length. */
    static predicate Idle(txLen: byte)
    {
      txLen / 16 % 2 == 1
    }

    ghost predicate Formed()
      reads this, txData, msgPtr, readWriteBuffer, dataBuffer
    {
      && txData.Length == 8 && readWriteBuffer.Length == BUFFER_SIZE && dataBuffer.Length == 4
      && txData != readWriteBuffer && txData != dataBuffer && dataBuffer != readWriteBuffer
      && (msgPtr == readWriteBuffer || msgPtr == dataBuffer)
      && (txLen == NAK || 4 <= txLen <= 12)
      && msgOffset <= msgPtr.Length && (msgLen != NO_MSG ==> msgOffset + msgLen <= msgPtr.Length)
      && currentPosition + bytesRemaining <= BUFFER_SIZE
      && (userWrite ==> msgLen == NO_MSG || msgLen == 0)
    }

    /** What is left of the reply. */
    ghost function Message(): Option<seq<byte>>
      requires msgLen != NO_MSG ==> msgOffset + msgLen <= msgPtr.Length
      reads this`msgPtr, this`msgOffset, this`msgLen, msgPtr
    {
      if msgLen == NO_MSG then None else Some(msgPtr[..][msgOffset..msgOffset + msgLen])
    }

    /** The packet the transmitter is busy with. */
    ghost function Waiting(): Option<seq<byte>>
      requires txData.Length == 8 && (txLen == NAK || 4 <= txLen <= 12)
      reads this`txLen, txData
    {
      if Idle(txLen) then None else Some(txData[..][..txLen - 4])
    }

    ghost function Tx(): Transmit
      requires Formed()
      reads this, txData, msgPtr, readWriteBuffer, dataBuffer
    {
      Transmit(txToken, Waiting(), Message())
    }

    ghost function Abs(): (d: Device)
      requires Formed()
      reads this, txData, msgPtr, readWriteBuffer, dataBuffer
      ensures Valid(d)
    {
      Device(Tx(), userWrite, readWriteBuffer[..], currentPosition, bytesRemaining, led)
    }

    /** What the C runtime leaves before the first request. */
    constructor ()
      ensures Formed() && fresh(txData) && fresh(readWriteBuffer) && fresh(dataBuffer)
      ensures Abs().tx.packet == None && Abs().tx.msg == None
    {
      txToken, txLen := 0, NAK;
      txData := new byte[8](_ => 0);
      readWriteBuffer := new byte[BUFFER_SIZE](_ => 0);
      dataBuffer := new byte[4](_ => 0);
      new;
      msgPtr, msgOffset, msgLen := dataBuffer, 0, NO_MSG;
      userWrite, currentPosition, bytesRemaining, led := false, 0, 0, false;
    }

    /** usbFunctionSetup: the reply length, NO_MSG to have usbFunctionWrite called. */
    method FunctionSetup(rq: seq<byte>) returns (len: byte)
      requires Formed() && |rq| == 8
      modifies this`msgPtr, this`msgOffset, this`currentPosition, this`bytesRemaining, this`led, dataBuffer
      ensures dataBuffer.Length == 4 && (msgPtr == readWriteBuffer || msgPtr == dataBuffer)
      ensures len == NO_MSG <==> rq[1] == RQ_TEST_WRITE
      ensures msgOffset <= msgPtr.Length && (len != NO_MSG ==> msgOffset + len <= msgPtr.Length)
      ensures len != NO_MSG ==> msgPtr[..][msgOffset..msgOffset + len] == Reply(old(led), readWriteBuffer[..], rq)
      ensures led == if rq[1] == RQ_SET_STATUS then rq[2] % 2 == 1 else old(led)
      ensures currentPosition == if rq[1] == RQ_TEST_READ || rq[1] == RQ_TEST_WRITE then 0 else old(currentPosition)
      ensures bytesRemaining == if rq[1] == RQ_TEST_WRITE then Accepted(Word(rq[7], rq[6])) else old(bytesRemaining)
    {
      if rq[1] == RQ_ECHO {
        dataBuffer[0] := rq[2];
        dataBuffer[1] := rq[3];
        dataBuffer[2] := rq[4];
        dataBuffer[3] := rq[5];
        msgPtr, msgOffset := dataBuffer, 0;
        return 4;
      } else if rq[1] == RQ_SET_STATUS {
        led := rq[2] % 2 == 1;
      } else if rq[1] == RQ_GET_STATUS {
        dataBuffer[0] := if led then 1 else 0;
        msgPtr, msgOffset := dataBuffer, 0;
        return 1;
      } else if rq[1] == RQ_TEST_READ {
        currentPosition := 0;
        msgPtr, msgOffset := readWriteBuffer, 0;
        return BUFFER_SIZE;
      } else if rq[1] == RQ_TEST_WRITE {
        currentPosition := 0;
        bytesRemaining := Word(rq[7], rq[6]) % 256;
        if bytesRemaining > BUFFER_SIZE {
          bytesRemaining := BUFFER_SIZE;
        }
        return NO_MSG;
      }
      return 0;
    }

    /** usbFunctionWrite. */
    method FunctionWrite(data: seq<byte>, length: byte) returns (last: bool)
      requires Formed() && length == |data|
      modifies this`currentPosition, this`bytesRemaining, readWriteBuffer
      ensures readWriteBuffer.Length == BUFFER_SIZE
      ensures var k := Min(|data|, old(bytesRemaining));
              && currentPosition == old(currentPosition) + k
              && bytesRemaining == old(bytesRemaining) - k
              && readWriteBuffer[..] == Spliced(old(readWriteBuffer[..]), old(currentPosition), data, k)
      ensures last <==> bytesRemaining == 0
    {
      var len := length;
      if len > bytesRemaining {
        len := bytesRemaining;
      }
      bytesRemaining := bytesRemaining - len;
      ghost var start := currentPosition;
      ghost var was := readWriteBuffer[..];
      var i := 0;
      while i < len
        invariant 0 <= i <= len && currentPosition == start + i && bytesRemaining == old(bytesRemaining) - len
        invariant forall j :: 0 <= j < BUFFER_SIZE ==>
          readWriteBuffer[j] == if start <= j < start + i then data[j - start] else was[j]
      {
        readWriteBuffer[currentPosition] := data[i];
        currentPosition := currentPosition + 1;
        i := i + 1;
      }
      assert readWriteBuffer[..] == was[..start] + data[..len] + was[start + len..];
      return bytesRemaining == 0;
    }

    /** The tail of usbProcessRx on SETUP: the reply is cut to wLength. */
    method StartReply(rq: seq<byte>, length: byte)
      requires |rq| == 8 && length != NO_MSG && msgOffset + length <= msgPtr.Length
      modifies this`msgLen
      ensures msgLen <= length && Message() == Some(Limited(msgPtr[..][msgOffset..msgOffset + length], rq))
    {
      var replyLen := length;
      ghost var full := msgPtr[..][msgOffset..msgOffset + length];
      if rq[7] == 0 && replyLen > rq[6] {
        replyLen := rq[6];
        assert full[..rq[6]] == msgPtr[..][msgOffset..msgOffset + rq[6]];
      }
      msgLen := replyLen;
    }

    /** usbProcessRx on a SETUP packet. */
    method ProcessSetup(rq: seq<byte>)
      requires Formed() && (|rq| == 8 ==> Custom(rq))
      modifies this, dataBuffer
      ensures Formed()
      ensures Abs() == if |rq| == 8 then SetupStep(old(Abs()), rq) else old(Abs())
    {
      hide Reply, Accepted, Limited;
      if |rq| != 8 {
        return;
      }
      txToken := DATA0;
      txLen := NAK;
      userWrite := false;
      msgLen := NO_MSG;
      var replyLen := FunctionSetup(rq);
      assert readWriteBuffer[..] == old(readWriteBuffer[..]);
      if replyLen == NO_MSG {
        userWrite := true;
        msgLen := NO_MSG;
      } else {
        hide Message;
        StartReply(rq, replyLen);
      }
    }

    lemma MessageWriting()
      requires Formed() && userWrite
      ensures Message() == if msgLen == NO_MSG then None else Some([])
    {
      if msgLen == 0 {
        assert msgPtr[..][msgOffset..msgOffset + 0] == [];
      }
    }

    /** usbProcessRx on an OUT packet. */
    method ProcessOut(data: seq<byte>)
      requires Formed() && |data| <= 8
      modifies this`currentPosition, this`bytesRemaining, this`msgLen, readWriteBuffer
      ensures Formed() && Abs() == OutStep(old(Abs()), data)
    {
      hide Message, Waiting, Spliced;
      if userWrite {
        MessageWriting();
        var last := FunctionWrite(data, |data|);
        if last {
          msgLen := 0;
        }
        MessageWriting();
      }
    }

    /** usbBuildTxBlock. */
    method BuildTxBlock()
      requires Formed() && Idle(txLen) && msgLen != NO_MSG
      modifies this`txToken, this`txLen, this`msgOffset, this`msgLen, txData
      ensures Formed() && Abs() == old(Abs()).(tx := BuildStep(old(Abs()).tx))
    {
      var wantLen := msgLen;
      if wantLen > 8 {
        wantLen := 8;
      }
      ghost var all := msgPtr[..];
      ghost var m := all[msgOffset..msgOffset + msgLen];
      SliceTake(all, msgOffset, msgOffset + msgLen, wantLen);
      SliceDrop(all, msgOffset, msgOffset + msgLen, wantLen);
      msgLen := msgLen - wantLen;
      txToken := Toggle(txToken);
      CopyToTransmit(wantLen);
      assert msgPtr[..] == all;
      if wantLen + 4 < 12 {
        msgLen := NO_MSG;
      }
      txLen := wantLen + 4;
      assert Waiting() == Some(m[..wantLen]);
      assert Message() == if wantLen < 8 then None else Some(m[wantLen..]);
    }

    /** usbDeviceRead, always from RAM. */
    method CopyToTransmit(len: byte)
      requires txData.Length == 8 && len <= 8 && msgPtr != txData && msgOffset + len <= msgPtr.Length
      modifies this`msgOffset, txData
      ensures msgOffset == old(msgOffset) + len
      ensures txData[..][..len] == msgPtr[..][old(msgOffset)..msgOffset]
    {
      var i := 0;
      while i < len
        invariant 0 <= i <= len && msgOffset == old(msgOffset) + i
        invariant forall j :: 0 <= j < i ==> txData[j] == msgPtr[old(msgOffset) + j]
      {
        txData[i] := msgPtr[msgOffset];
        msgOffset := msgOffset + 1;
        i := i + 1;
      }
    }

    /** usbPoll without the bus-reset check: a received packet, if any, then a build. */
    method Poll(received: Option<Event>)
      requires Formed()
      requires received.Some? ==> Regular(received.value) && (received.value.Setup? || received.value.Out?)
      requires received.Some? && received.value.Out? ==> |received.value.data| <= 8
      modifies this, txData, readWriteBuffer, dataBuffer
      ensures Formed()
      ensures var events := if received.Some? then [received.value, Build] else [Build];
              AllRegular(events) && Abs() == Run(old(Abs()), events)
    {
      hide SetupStep, OutStep, BuildStep;
      ghost var d := Abs();
      if received.Some? {
        RunThenBuild(d, received.value);
        match received.value {
          case Setup(rq) => ProcessSetup(rq);
          case Out(data) => ProcessOut(data);
          case _ =>
        }
        assert Abs() == Step(d, received.value);
      } else {
        RunBuild(d);
      }
      if Idle(txLen) && msgLen != NO_MSG {
        BuildTxBlock();
      } else {
        NothingPending();
      }
    }

    lemma NothingPending()
      requires Formed() && (!Idle(txLen) || msgLen == NO_MSG)
      ensures Step(Abs(), Build) == Abs()
    {
    }

    /** The interrupt layer sends the waiting packet to the host. */
    method SendToHost() returns (given: seq<Packet>)
      requires Formed()
      modifies this`txLen
      ensures Formed() && given == Given(old(Abs()), Take) && Abs() == Step(old(Abs()), Take)
    {
      given := [];
      if !Idle(txLen) {
        given := [Packet(txToken, txData[..][..txLen - 4])];
        txLen := NAK;
      }
    }
  }
}
