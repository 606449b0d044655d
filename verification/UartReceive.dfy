/** The receive ring of the UART, one statement at a time.

    The handler publishes the new head before it stores the byte, and BuffUart_Receive publishes
    the new tail before it reads the slot. Both are harmless as long as at most seven bytes are
    unread, or eight while one of them is being taken out; one more and the ring loses bytes. */
module UartReceive {
  import opened Bytes

  const SIZE: nat := 8

  /** Where BuffUart_Receive stands: waiting, about to publish the tail, about to read the slot. */
  datatype Pc = Poll | PublishTail | Fetch

  datatype Uart = Uart(head: nat, tail: nat, ring: seq<byte>, pc: Pc, tmptail: nat,
                       received: seq<byte>, returned: seq<byte>)

  datatype Action = Arrive(data: byte) | Caller

  function Next(i: nat): nat
  {
    if i + 1 == SIZE then 0 else i + 1
  }

  predicate Shaped(u: Uart)
  {
    |u.ring| == SIZE && u.head < SIZE && u.tail < SIZE && u.tmptail < SIZE
  }

  function Step(u: Uart, a: Action): (v: Uart)
    requires Shaped(u)
    ensures Shaped(v)
  {
    match a
    case Arrive(data) =>
      var tmphead := Next(u.head);
      u.(head := tmphead, ring := u.ring[tmphead := data], received := u.received + [data])
    case Caller =>
      match u.pc
      case Poll => if u.head == u.tail then u else u.(tmptail := Next(u.tail), pc := PublishTail)
      case PublishTail => u.(tail := u.tmptail, pc := Fetch)
      case Fetch => u.(returned := u.returned + [u.ring[u.tmptail]], pc := Poll)
  }

  /** BuffUart_DataInReceiveBuffer. */
  predicate DataInReceiveBuffer(u: Uart)
  {
    u.head != u.tail
  }

  /** Bytes received and not yet returned, the one being fetched included. */
  function Unread(u: Uart): int
  {
    |u.received| - |u.returned|
  }

  /** The slot of the k-th byte ever received, counting from one. */
  function SlotOf(k: nat): nat
  {
    k % SIZE
  }

  predicate Inv(u: Uart)
  {
    && Shaped(u)
    && u.returned <= u.received
    && u.head == SlotOf(|u.received|)
    && u.tail == SlotOf(|u.returned| + if u.pc == Fetch then 1 else 0)
    && (u.pc != Poll ==> Unread(u) > 0 && u.tmptail == SlotOf(|u.returned| + 1))
    && forall k {:trigger u.received[k]} :: |u.returned| <= k < |u.received| ==> u.ring[SlotOf(k + 1)] == u.received[k]
  }

  /** At most seven bytes unread, or eight while one of them is being taken out. */
  predicate Roomy(u: Uart)
  {
    Unread(u) <= if u.pc == Poll then 7 else 8
  }

  lemma NextSlot(k: nat)
    ensures Next(SlotOf(k)) == SlotOf(k + 1)
  {
  }

  lemma SlotsDiffer(i: nat, j: nat)
    requires i < j < i + SIZE
    ensures SlotOf(i) != SlotOf(j)
  {
  }

  lemma SlotTurn(k: nat)
    ensures SlotOf(k + SIZE) == SlotOf(k)
  {
  }

  lemma ArriveKeeps(u: Uart, data: byte)
    requires Inv(u) && Roomy(Step(u, Arrive(data)))
    ensures Inv(Step(u, Arrive(data)))
  {
    var v := Step(u, Arrive(data));
    NextSlot(|u.received|);
    forall k | |v.returned| <= k < |v.received|
      ensures v.ring[SlotOf(k + 1)] == v.received[k]
    {
      if k < |u.received| {
        SlotsDiffer(k + 1, |u.received| + 1);
      }
    }
  }

  lemma CallerKeeps(u: Uart)
    requires Inv(u) && Roomy(u)
    ensures Inv(Step(u, Caller))
  {
    NextSlot(|u.returned|);
    if u.pc == Poll && u.head != u.tail {
      assert Unread(u) > 0;
    }
    if u.pc == Fetch {
      assert u.received[|u.returned|] == u.ring[SlotOf(|u.returned| + 1)];
      assert u.received[..|u.returned| + 1] == u.received[..|u.returned|] + [u.received[|u.returned|]];
    }
  }

  /** Between two calls, the ring looks non-empty exactly when a byte is unread. */
  lemma NonEmptyMeansData(u: Uart)
    requires Inv(u) && Roomy(u) && u.pc == Poll
    ensures DataInReceiveBuffer(u) <==> Unread(u) > 0
  {
    if |u.returned| < |u.received| {
      SlotsDiffer(|u.returned|, |u.received|);
    }
  }

  function Run(u: Uart, actions: seq<Action>): (v: Uart)
    requires Shaped(u)
    ensures Shaped(v)
    decreases |actions|
  {
    if actions == [] then u else Run(Step(u, actions[0]), actions[1..])
  }

  /** The ring is never overfull along the run. */
  predicate AlwaysRoomy(u: Uart, actions: seq<Action>)
    requires Shaped(u)
    decreases |actions|
  {
    Roomy(u) && (actions == [] || AlwaysRoomy(Step(u, actions[0]), actions[1..]))
  }

  lemma {:induction false} RunKeeps(u: Uart, actions: seq<Action>)
    requires Inv(u) && AlwaysRoomy(u, actions)
    ensures Inv(Run(u, actions))
    decreases |actions|
  {
    if actions != [] {
      var v := Step(u, actions[0]);
      assert Roomy(v);
      match actions[0] {
        case Arrive(data) => ArriveKeeps(u, data);
        case Caller => CallerKeeps(u);
      }
      RunKeeps(v, actions[1..]);
    }
  }

  function Setup(): Uart
  {
    Uart(0, 0, seq(SIZE, _ => 0), Poll, 0, [], [])
  }

  /** On every interleaving that never overfills the ring, what is returned is what was received,
      in order and without loss, and the ring looks empty between two calls only when all of it
      has been returned. */
  lemma InOrder(actions: seq<Action>)
    requires AlwaysRoomy(Setup(), actions)
    ensures var u := Run(Setup(), actions);
            u.returned <= u.received && (u.pc == Poll && !DataInReceiveBuffer(u) ==> u.returned == u.received)
  {
    RunKeeps(Setup(), actions);
    RoomyAtEnd(Setup(), actions);
    var u := Run(Setup(), actions);
    if u.pc == Poll {
      NonEmptyMeansData(u);
    }
  }

  lemma {:induction false} RoomyAtEnd(u: Uart, actions: seq<Action>)
    requires Shaped(u) && AlwaysRoomy(u, actions)
    ensures Roomy(Run(u, actions))
    decreases |actions|
  {
    if actions != [] {
      RoomyAtEnd(Step(u, actions[0]), actions[1..]);
    }
  }

  /** The bound is exact. During a fetch, a ninth unread byte is returned in place of the first. */
  lemma NinthOverwrites(u: Uart, data: byte)
    requires Inv(u) && Unread(u) == 8 && u.pc == Fetch
    ensures var v := Step(Step(u, Arrive(data)), Caller);
            v.returned == u.returned + [data] && (v.returned <= v.received <==> data == u.received[|u.returned|])
  {
    var n := |u.returned|;
    var v := Step(Step(u, Arrive(data)), Caller);
    NextSlot(|u.received|);
    SlotTurn(n + 1);
    hide SlotOf, Next;
    assert |u.received| + 1 == n + 1 + SIZE;
    assert v.returned == u.returned + [data];
    assert v.received[n] == u.received[n];
    assert v.returned <= v.received ==> v.returned[n] == v.received[n];
    if data == u.received[n] {
      assert v.received[..n + 1] == u.received[..n] + [data];
    }
  }

  /** And between two calls an eighth makes the ring look empty, with eight bytes unread. */
  lemma EighthHides(u: Uart, data: byte)
    requires Inv(u) && Unread(u) == 7 && u.pc == Poll
    ensures var v := Step(u, Arrive(data));
            Unread(v) == 8 && !DataInReceiveBuffer(v) && Step(v, Caller) == v
  {
    NextSlot(|u.received|);
    assert |u.received| + 1 == |u.returned| + SIZE;
  }

  // ----- Progress -----

  function CallersIn(actions: seq<Action>): nat
  {
    if actions == [] then 0 else (if actions[0].Caller? then 1 else 0) + CallersIn(actions[1..])
  }

  /** The statements a call still needs, once there is a byte for it. */
  function StepsLeft(u: Uart): nat
  {
    match u.pc
    case Poll => 3
    case PublishTail => 2
    case Fetch => 1
  }

  lemma {:induction false} ArrivalsOnly(u: Uart, actions: seq<Action>)
    requires Shaped(u) && CallersIn(actions) == 0
    ensures var v := Run(u, actions); v.returned == u.returned && v.pc == u.pc && u.received <= v.received
    decreases |actions|
  {
    hide Shaped;
    if actions != [] {
      ArrivalsOnly(Step(u, actions[0]), actions[1..]);
    }
  }

  lemma CallerMoves(u: Uart)
    requires Inv(u) && Roomy(u) && Unread(u) > 0
    ensures var v := Step(u, Caller);
            if StepsLeft(u) == 1 then v.pc == Poll && v.returned == u.returned + [u.received[|u.returned|]]
            else StepsLeft(v) == StepsLeft(u) - 1 && v.returned == u.returned && v.received == u.received
  {
    if u.pc == Poll {
      NonEmptyMeansData(u);
    } else if u.pc == Fetch {
      assert u.received[|u.returned|] == u.ring[SlotOf(|u.returned| + 1)];
    }
  }

  lemma {:induction false} CallEnds(u: Uart, actions: seq<Action>)
    requires Inv(u) && AlwaysRoomy(u, actions) && Unread(u) > 0 && CallersIn(actions) == StepsLeft(u)
    ensures var v := Run(u, actions); v.pc == Poll && v.returned == u.returned + [u.received[|u.returned|]]
    decreases |actions|
  {
    hide Inv, Step, AlwaysRoomy;
    InvShape(u, actions);
    var v := Step(u, actions[0]);
    if actions[0].Caller? {
      CallerMoves(u);
      CallerKeeps(u);
      if StepsLeft(u) == 1 {
        ArrivalsOnly(v, actions[1..]);
      } else {
        CallEnds(v, actions[1..]);
      }
    } else {
      ArriveKeeps(u, actions[0].data);
      ArriveAppends(u, actions[0].data);
      CallEnds(v, actions[1..]);
    }
  }

  lemma InvShape(u: Uart, actions: seq<Action>)
    requires Inv(u) && AlwaysRoomy(u, actions)
    ensures Shaped(u) && Roomy(u)
    ensures actions != [] ==> Roomy(Step(u, actions[0])) && AlwaysRoomy(Step(u, actions[0]), actions[1..])
  {
  }

  lemma ArriveAppends(u: Uart, data: byte)
    requires Shaped(u)
    ensures var v := Step(u, Arrive(data));
            v.received == u.received + [data] && v.returned == u.returned && v.pc == u.pc
  {
  }

  /** Wherever a run that has never overfilled the ring stands: if a byte is unread between two
      calls, three statements of the next call return the oldest such byte, whatever arrives
      between them. */
  lemma ReturnsOldest(before: seq<Action>, actions: seq<Action>)
    requires AlwaysRoomy(Setup(), before)
    requires var u := Run(Setup(), before);
             u.pc == Poll && |u.returned| < |u.received| && AlwaysRoomy(u, actions) && CallersIn(actions) == 3
    ensures var u := Run(Setup(), before);
            var v := Run(u, actions);
            v.pc == Poll && v.returned == u.returned + [u.received[|u.returned|]]
  {
    RunKeeps(Setup(), before);
    CallEnds(Run(Setup(), before), actions);
  }

  /** The caller alone. */
  function Alone(n: nat): seq<Action>
  {
    if n == 0 then [] else [Caller] + Alone(n - 1)
  }

  /** How many statements return all that has been received. */
  function WorkLeft(u: Uart): int
  {
    if Unread(u) > 0 then 3 * (Unread(u) - 1) + StepsLeft(u) else 0
  }

  lemma CallerWorks(u: Uart)
    requires Inv(u) && Roomy(u)
    ensures var v := Step(u, Caller);
            Inv(v) && Roomy(v) && v.received == u.received && WorkLeft(v) <= Max0(WorkLeft(u) - 1)
  {
    CallerKeeps(u);
    if Unread(u) > 0 {
      CallerMoves(u);
    } else {
      NonEmptyMeansData(u);
    }
  }

  function Max0(n: int): nat
  {
    if n < 0 then 0 else n
  }

  lemma {:induction false} AloneReturns(u: Uart, n: nat)
    requires Inv(u) && Roomy(u) && WorkLeft(u) <= n
    ensures var v := Run(u, Alone(n)); v.received == u.received == v.returned
    decreases n
  {
    hide Inv, Step;
    InvReturned(u);
    if n > 0 {
      CallerWorks(u);
      assert Alone(n)[0] == Caller && Alone(n)[1..] == Alone(n - 1);
      AloneReturns(Step(u, Caller), n - 1);
    }
  }

  lemma InvReturned(u: Uart)
    requires Inv(u)
    ensures Shaped(u) && u.returned <= u.received
  {
  }

  /** And left alone the caller returns all that has come: three statements a byte are enough. */
  lemma ReturnsAll(before: seq<Action>, n: nat)
    requires AlwaysRoomy(Setup(), before)
    requires var u := Run(Setup(), before); 3 * (|u.received| - |u.returned|) <= n
    ensures var u := Run(Setup(), before);
            var v := Run(u, Alone(n));
            v.returned == v.received == u.received
  {
    RunKeeps(Setup(), before);
    RoomyAtEnd(Setup(), before);
    AloneReturns(Run(Setup(), before), n);
  }
}
