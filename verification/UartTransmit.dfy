/** The transmit ring of the interrupt-driven UART, one statement at a time.

    BuffUart_Transmit is cut where an interrupt can fall between two of its statements, including
    inside the read-modify-write of UCSR1B; the data-register-empty handler runs whole, whenever
    UDRIE1 is set. */
module UartTransmit {
  import opened Bytes

  const SIZE: nat := 32

  /** Where BuffUart_Transmit stands. Idle: between two calls. */
  datatype Pc = Idle | Wait | Store | Publish | ReadMask | WriteMask

  /** head, tail, ring and udrie are the shared statics and the interrupt enable bit; data and
      tmphead belong to the call in progress; todo is what the caller still has to transmit, and
      udr every byte ever written to UDR1. */
  datatype Uart = Uart(head: nat, tail: nat, ring: seq<byte>, udrie: bool,
                       pc: Pc, data: byte, tmphead: nat, todo: seq<byte>, udr: seq<byte>)

  datatype Actor = Caller | Interrupt

  function Next(i: nat): nat
  {
    (i + 1) % SIZE
  }

  predicate Shaped(u: Uart)
  {
    |u.ring| == SIZE && u.head < SIZE && u.tail < SIZE && u.tmphead < SIZE
  }

  function Step(u: Uart, a: Actor): (v: Uart)
    requires Shaped(u)
    ensures Shaped(v)
  {
    match a
    case Interrupt =>
      if !u.udrie then u
      else if u.head != u.tail then
        u.(tail := Next(u.tail), udr := u.udr + [u.ring[Next(u.tail)]])
      else
        u.(udrie := false)
    case Caller =>
      match u.pc
      case Idle =>
        if u.todo == [] then u
        else u.(data := u.todo[0], todo := u.todo[1..], tmphead := Next(u.head), pc := Wait)
      case Wait => if u.tmphead == u.tail then u else u.(pc := Store)
      case Store => u.(ring := u.ring[u.tmphead := u.data], pc := Publish)
      case Publish => u.(head := u.tmphead, pc := ReadMask)
      case ReadMask => u.(pc := WriteMask)
      case WriteMask => u.(udrie := true, pc := Idle)
  }

  /** How many bytes are queued. */
  function Count(u: Uart): nat
    requires Shaped(u)
  {
    if u.head >= u.tail then u.head - u.tail else u.head + SIZE - u.tail
  }

  /** The slot of the k-th queued byte. */
  function Slot(u: Uart, k: nat): nat
    requires u.tail < SIZE && k < SIZE
  {
    if u.tail + 1 + k < SIZE then u.tail + 1 + k else u.tail + 1 + k - SIZE
  }

  function Queued(u: Uart): (q: seq<byte>)
    requires Shaped(u)
    ensures |q| == Count(u) < SIZE
  {
    seq(Count(u), k requires 0 <= k < Count(u) => u.ring[Slot(u, k)])
  }

  /** The byte of a call that has not been published yet. */
  function InHand(u: Uart): seq<byte>
  {
    if u.pc == Wait || u.pc == Store || u.pc == Publish then [u.data] else []
  }

  /** Every byte is in exactly one place, in order, and a filled ring has its interrupt enabled
      except between publishing and enabling. */
  predicate Inv(u: Uart, input: seq<byte>)
  {
    && Shaped(u)
    && u.udr + Queued(u) + InHand(u) + u.todo == input
    && (InHand(u) != [] ==> u.tmphead == Next(u.head))
    && (u.pc == Store || u.pc == Publish ==> u.tmphead != u.tail)
    && (u.pc == Publish ==> u.ring[u.tmphead] == u.data)
    && (u.pc != ReadMask && u.pc != WriteMask && u.head != u.tail ==> u.udrie)
  }

  /** After BuffUart_Setup. */
  function Setup(input: seq<byte>): Uart
  {
    Uart(0, 0, seq(SIZE, _ => 0), false, Idle, 0, 0, input, [])
  }

  lemma SetupInv(input: seq<byte>)
    ensures Inv(Setup(input), input)
  {
    assert Queued(Setup(input)) == [];
  }

  lemma QueuedFrame(u: Uart, v: Uart)
    requires Shaped(u) && Shaped(v) && v.head == u.head && v.tail == u.tail && v.ring == u.ring
    ensures Queued(v) == Queued(u)
  {
  }

  lemma SendQueue(u: Uart)
    requires Shaped(u) && u.udrie && u.head != u.tail
    ensures var v := Step(u, Interrupt);
            Queued(u) == [u.ring[Next(u.tail)]] + Queued(v) && Count(v) == Count(u) - 1
  {
  }

  lemma StoreQueue(u: Uart)
    requires Shaped(u) && u.pc == Store && u.tmphead == Next(u.head) != u.tail
    ensures Queued(Step(u, Caller)) == Queued(u)
  {
  }

  lemma PublishQueue(u: Uart)
    requires Shaped(u) && u.pc == Publish && u.tmphead == Next(u.head) != u.tail && u.ring[u.tmphead] == u.data
    ensures var v := Step(u, Caller);
            Queued(v) == Queued(u) + [u.data] && Count(v) == Count(u) + 1
  {
  }

  lemma InterruptKeeps(u: Uart, input: seq<byte>)
    requires Inv(u, input)
    ensures Inv(Step(u, Interrupt), input)
  {
    hide Queued, Count, Slot;
    var v := Step(u, Interrupt);
    if u.udrie && u.head != u.tail {
      SendQueue(u);
      var c := u.ring[Next(u.tail)];
      assert v.udr + Queued(v) == u.udr + Queued(u) by {
        Regroup([], u.udr, [c], Queued(v));
      }
    } else {
      QueuedFrame(u, v);
    }
  }

  lemma CallerKeeps(u: Uart, input: seq<byte>)
    requires Inv(u, input)
    ensures Inv(Step(u, Caller), input)
  {
    hide Queued, Count, Slot;
    var v := Step(u, Caller);
    match u.pc {
      case Idle =>
        QueuedFrame(u, v);
        if u.todo != [] {
          assert u.todo == [u.todo[0]] + u.todo[1..];
          Regroup([], u.udr + Queued(u), [u.todo[0]], u.todo[1..]);
          assert u.udr + Queued(u) + [] == u.udr + Queued(u);
        }
      case Store => StoreQueue(u);
      case Publish =>
        PublishQueue(u);
        Regroup([], u.udr, Queued(u), [u.data]);
        assert v.udr + Queued(v) + [] == v.udr + Queued(v);
      case _ => QueuedFrame(u, v);
    }
  }

  /** Any statement of the caller and any interrupt keep the invariant. */
  lemma StepKeeps(u: Uart, input: seq<byte>, a: Actor)
    requires Inv(u, input)
    ensures Inv(Step(u, a), input)
  {
    hide *;
    match a
    case Caller => CallerKeeps(u, input);
    case Interrupt => InterruptKeeps(u, input);
  }

  /** What one interrupt does: on an empty ring it turns itself off, and otherwise it sends the oldest
      byte and leaves the others. */
  lemma InterruptSends(u: Uart)
    requires Shaped(u)
    ensures var v := Step(u, Interrupt);
            var q := Queued(u);
            && (!u.udrie ==> v == u)
            && (u.udrie && q == [] ==> v == u.(udrie := false))
            && (u.udrie && q != [] ==> v.udrie && v.udr == u.udr + [q[0]] && Queued(v) == q[1..] && v.todo == u.todo)
  {
    if u.udrie && u.head != u.tail {
      SendQueue(u);
    } else if u.head == u.tail {
      EmptyQueue(u);
    }
  }

  /** The caller waits for room exactly when 31 bytes are queued. */
  lemma WaitsWhenFull(u: Uart, input: seq<byte>)
    requires Inv(u, input) && u.pc == Wait
    ensures Step(u, Caller) == u <==> |Queued(u)| == 31
    ensures Step(u, Caller) != u ==> Step(u, Caller).pc == Store
  {
  }

  /** The statements of one call. */
  function Call(u: Uart): (v: Uart)
    requires Shaped(u)
  {
    Step(Step(Step(Step(Step(Step(u, Caller), Caller), Caller), Caller), Caller), Caller)
  }

  /** A call that finds room and is not interrupted queues the next byte behind the others and leaves
      the interrupt on. */
  lemma CallQueues(u: Uart)
    requires Shaped(u) && u.pc == Idle && u.todo != [] && |Queued(u)| < 31
    ensures var v := Call(u);
            && v.pc == Idle && v.udrie && v.udr == u.udr && v.todo == u.todo[1..]
            && Shaped(v) && Queued(v) == Queued(u) + [u.todo[0]]
  {
    var a := Step(u, Caller);
    var b := Step(a, Caller);
    var c := Step(b, Caller);
    var d := Step(c, Caller);
    QueuedFrame(u, a);
    QueuedFrame(a, b);
    StoreQueue(b);
    PublishQueue(c);
    QueuedFrame(d, Call(u));
  }

  // ----- All interleavings -----

  function Run(u: Uart, schedule: seq<Actor>): (v: Uart)
    requires Shaped(u)
    ensures Shaped(v)
    decreases |schedule|
  {
    if schedule == [] then u else Run(Step(u, schedule[0]), schedule[1..])
  }

  lemma {:induction false} RunKeeps(u: Uart, input: seq<byte>, schedule: seq<Actor>)
    requires Inv(u, input)
    ensures Inv(Run(u, schedule), input)
    decreases |schedule|
  {
    hide Inv;
    if schedule != [] {
      ShapedInv(u, input);
      StepKeeps(u, input, schedule[0]);
      RunKeeps(Step(u, schedule[0]), input, schedule[1..]);
    }
  }

  lemma ShapedInv(u: Uart, input: seq<byte>)
    requires Inv(u, input)
    ensures Shaped(u)
  {
  }

  /** In every interleaving the bytes written to UDR1 are the first bytes transmitted, each once
      and in order, at most 31 are queued, and no wakeup is lost. */
  lemma InOrderOnce(input: seq<byte>, schedule: seq<Actor>)
    ensures var u := Run(Setup(input), schedule);
            && u.udr <= input
            && u.udr + Queued(u) + InHand(u) + u.todo == input
            && Count(u) <= 31
            && (u.head != u.tail ==> u.udrie || u.pc == ReadMask || u.pc == WriteMask)
  {
    SetupInv(input);
    RunKeeps(Setup(input), input, schedule);
    var u := Run(Setup(input), schedule);
    assert input[..|u.udr|] == u.udr;
  }

  // ----- Everything gets out -----

  /** A bound on the actions that can still change anything. */
  function Work(u: Uart): nat
    requires Shaped(u)
  {
    20 * |u.todo| + 2 * Count(u) + (if u.udrie then 1 else 0) +
    match u.pc
    case Idle => 0
    case Wait => 12
    case Store => 10
    case Publish => 8
    case ReadMask => 4
    case WriteMask => 2
  }

  /** An action of the schedule either changes nothing, because the caller spins on a full ring or
      has no more bytes or the interrupt is off, or uses up work. */
  lemma StepWorks(u: Uart, input: seq<byte>, a: Actor)
    requires Inv(u, input)
    ensures Step(u, a) == u || Work(Step(u, a)) < Work(u)
  {
    if a == Interrupt && u.udrie && u.head != u.tail {
      SendQueue(u);
    } else if a == Caller && u.pc == Publish {
      PublishQueue(u);
    }
  }

  /** No deadlock: while a byte is not out, the caller or the interrupt can do something. */
  lemma SomeoneCanMove(u: Uart, input: seq<byte>)
    requires Inv(u, input) && u.udr != input
    ensures Step(u, Caller) != u || (u.udrie && u.head != u.tail)
  {
    assert u.udr + [] + [] + [] == u.udr;
    if Step(u, Caller) == u && u.pc == Idle && u.head == u.tail {
      EmptyQueue(u);
    }
  }

  lemma EmptyQueue(u: Uart)
    requires Shaped(u) && u.head == u.tail
    ensures Queued(u) == []
  {
  }

  /** Caller and interrupt by turns. */
  function Turns(n: nat): seq<Actor>
  {
    if n == 0 then [] else [Caller, Interrupt] + Turns(n - 1)
  }

  /** From any reachable state, alternating turns bring every byte out. */
  lemma {:induction false} AllGetOut(u: Uart, input: seq<byte>, n: nat)
    requires Inv(u, input) && Work(u) <= n
    ensures Run(u, Turns(n)).udr == input
    decreases n
  {
    hide Inv, Work;
    ShapedInv(u, input);
    if n == 0 {
      NoWorkLeft(u, input);
    } else {
      var v := Step(u, Caller);
      var w := Step(v, Interrupt);
      StepKeeps(u, input, Caller);
      StepKeeps(v, input, Interrupt);
      StepWorks(u, input, Caller);
      StepWorks(v, input, Interrupt);
      ShapedInv(v, input);
      var t := Turns(n);
      assert t[1..][1..] == Turns(n - 1);
      assert Run(u, t) == Run(w, Turns(n - 1));
      if w == u {
        StillMeansOut(u, input);
        StaysOut(u, input, n);
      } else {
        AllGetOut(w, input, n - 1);
      }
    }
  }

  lemma NoWorkLeft(u: Uart, input: seq<byte>)
    requires Inv(u, input) && Work(u) == 0
    ensures u.udr == input
  {
    assert Queued(u) == [];
  }

  lemma StillMeansOut(u: Uart, input: seq<byte>)
    requires Inv(u, input) && Step(Step(u, Caller), Interrupt) == u
    ensures u.udr == input && Step(u, Caller) == u && Step(u, Interrupt) == u
  {
    var v := Step(u, Caller);
    StepKeeps(u, input, Caller);
    StepWorks(u, input, Caller);
    StepWorks(v, input, Interrupt);
    if u.udr != input {
      SomeoneCanMove(u, input);
    }
  }

  lemma {:induction false} StaysOut(u: Uart, input: seq<byte>, n: nat)
    requires Shaped(u) && Step(u, Caller) == u && Step(u, Interrupt) == u
    ensures Run(u, Turns(n)) == u
    decreases n
  {
    hide Step;
    if n > 0 {
      var t := Turns(n);
      assert t[0] == Caller && t[1..][0] == Interrupt && t[1..][1..] == Turns(n - 1);
      StaysOut(u, input, n - 1);
    }
  }
}
