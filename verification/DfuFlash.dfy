/** The DFU bootloader's way from a packet stream to paged flash and back. */
module DfuFlash {
  import opened Bytes

  const PAGE: nat := 256
  const FLASH_SIZE: nat := 0x2_0000
  const ENDPOINT_SIZE: nat := 32
  const FILLER: nat := 26
  const SUFFIX: nat := 16

  const PROG_START: byte := 1
  const DISP_DATA: byte := 3
  const CHANGE_BASE_ADDR: byte := 6

  // ----- The packet stream -----

  /** The OUT endpoint: what is left of the packet in its bank and the packets still to come. */
  datatype Pipe = Pipe(bank: seq<byte>, packets: seq<seq<byte>>)

  function Concat(packets: seq<seq<byte>>): seq<byte>
  {
    if packets == [] then [] else packets[0] + Concat(packets[1..])
  }

  function Stream(p: Pipe): seq<byte>
  {
    p.bank + Concat(p.packets)
  }

  /** No packet is empty and no word is cut by the end of a packet that is not the last: so it is in
      every control transfer, whose packets are full but for the last. */
  predicate WordPackets(p: Pipe)
  {
    && (p.packets != [] ==> |p.bank| % 2 == 0)
    && forall i :: 0 <= i < |p.packets| ==>
         |p.packets[i]| > 0 && (i < |p.packets| - 1 ==> |p.packets[i]| % 2 == 0)
  }

  // ----- Words from the endpoint -----

  /** The next packet, if the bank is empty and one comes. */
  function Fetched(p: Pipe): Pipe
  {
    if p.bank == [] && p.packets != [] then Pipe(p.packets[0], p.packets[1..]) else p
  }

  /** A word takes what is left of the bank, which may be less than two bytes. */
  function WithoutWord(p: Pipe): Pipe
  {
    p.(bank := if |p.bank| < 2 then [] else p.bank[2..])
  }

  /** The words that packets deliver. Half a word at the end of a packet is completed by a byte that
      is not in it, and an empty packet is read as a word of two such bytes. */
  function WordsAhead(packets: seq<seq<byte>>): nat
  {
    if packets == [] then 0
    else (if packets[0] == [] then 1 else (|packets[0]| + 1) / 2) + WordsAhead(packets[1..])
  }

  function WordsIn(p: Pipe): nat
  {
    (|p.bank| + 1) / 2 + WordsAhead(p.packets)
  }

  function AfterWords(p: Pipe, k: nat): Pipe
  {
    if k == 0 then p else WithoutWord(Fetched(AfterWords(p, k - 1)))
  }

  /** The word that Endpoint_Read_16_LE takes from a bank, as far as the bank decides it. */
  predicate Takes(bank: seq<byte>, lo: byte, hi: byte)
  {
    (|bank| > 0 ==> lo == bank[0]) && (|bank| > 1 ==> hi == bank[1])
  }

  /** b is what the endpoint may deliver, word by word. */
  predicate Delivers(p: Pipe, b: seq<byte>)
    decreases |b|
  {
    b == [] ||
    (|b| >= 2 &&
     var q := AfterWords(p, |b| / 2 - 1);
     && WordsIn(q) > 0 && Takes(Fetched(q).bank, b[|b| - 2], b[|b| - 1])
     && Delivers(p, b[..|b| - 2]))
  }

  lemma WordTaken(p: Pipe)
    ensures WordsIn(p) > 0 <==> p.bank != [] || p.packets != []
    ensures WordsIn(p) > 0 ==> WordsIn(WithoutWord(Fetched(p))) == WordsIn(p) - 1
  {
  }

  lemma {:induction false} WordsLeft(p: Pipe, k: nat)
    requires k <= WordsIn(p)
    ensures WordsIn(AfterWords(p, k)) == WordsIn(p) - k
    decreases k
  {
    hide WordsIn;
    if k > 0 {
      WordsLeft(p, k - 1);
      WordTaken(AfterWords(p, k - 1));
    }
  }

  lemma DeliversMore(p: Pipe, b: seq<byte>, lo: byte, hi: byte)
    requires Delivers(p, b) && |b| % 2 == 0
    requires WordsIn(AfterWords(p, |b| / 2)) > 0 && Takes(Fetched(AfterWords(p, |b| / 2)).bank, lo, hi)
    ensures Delivers(p, b + [lo, hi])
    ensures AfterWords(p, |b + [lo, hi]| / 2) == WithoutWord(Fetched(AfterWords(p, |b| / 2)))
  {
    hide AfterWords, WordsIn, Takes;
    var c := b + [lo, hi];
    assert c[..|c| - 2] == b;
    AfterOne(p, |b| / 2);
  }

  lemma AfterOne(p: Pipe, k: nat)
    ensures AfterWords(p, k + 1) == WithoutWord(Fetched(AfterWords(p, k)))
  {
  }

  lemma StreamFetched(p: Pipe)
    requires WordPackets(p)
    ensures WordPackets(Fetched(p)) && Stream(Fetched(p)) == Stream(p)
    ensures Stream(p) != [] ==> Fetched(p).bank != [] && WordsIn(p) > 0
  {
    if p.bank == [] && p.packets != [] {
      assert [] + Concat(p.packets) == Concat(p.packets);
      var q := Fetched(p);
      forall i | 0 <= i < |q.packets|
        ensures q.packets[i] == p.packets[i + 1]
      {
      }
    }
  }

  lemma WordOfBank(q: Pipe)
    requires WordPackets(q) && q.bank != []
    ensures q.bank[0] == Stream(q)[0] && (|Stream(q)| > 1 ==> |q.bank| > 1 && q.bank[1] == Stream(q)[1])
    ensures WordPackets(WithoutWord(q))
    ensures Stream(WithoutWord(q)) == if |Stream(q)| > 1 then Stream(q)[2..] else []
  {
    if q.packets == [] {
      assert q.bank + [] == q.bank;
    } else {
      assert (q.bank + Concat(q.packets))[2..] == q.bank[2..] + Concat(q.packets);
    }
  }

  lemma WordOfStream(p: Pipe)
    requires WordPackets(p) && Stream(p) != []
    ensures var q := Fetched(p);
            && WordsIn(p) > 0 && q.bank != [] && q.bank[0] == Stream(p)[0]
            && (|Stream(p)| > 1 ==> |q.bank| > 1 && q.bank[1] == Stream(p)[1])
            && WordPackets(WithoutWord(q))
            && Stream(WithoutWord(q)) == if |Stream(p)| > 1 then Stream(p)[2..] else []
  {
    hide Stream, WordPackets, WordsIn, WithoutWord, Fetched;
    StreamFetched(p);
    WordOfBank(Fetched(p));
  }

  lemma {:induction false} StreamAfter(p: Pipe, k: nat)
    requires WordPackets(p) && 2 * k <= |Stream(p)|
    ensures var q := AfterWords(p, k); WordPackets(q) && Stream(q) == Stream(p)[2 * k..]
    decreases k
  {
    hide Stream, WordPackets, WordsIn;
    if k > 0 {
      StreamAfter(p, k - 1);
      WordOfStream(AfterWords(p, k - 1));
      DropTwice(Stream(p), 2 * (k - 1), 2);
    }
  }

  /** From packets that cut no word what is delivered is the stream. */
  lemma {:induction false} DeliversStream(p: Pipe, b: seq<byte>)
    requires WordPackets(p) && Delivers(p, b) && |b| <= |Stream(p)|
    ensures b == Stream(p)[..|b|]
    decreases |b|
  {
    hide Stream, WordPackets, WordsIn, AfterWords, Fetched, WithoutWord;
    if b != [] {
      var n := |b| - 2;
      var a, q := Stream(p), AfterWords(p, |b| / 2 - 1);
      DeliversStream(p, b[..n]);
      DeliversEven(p, b);
      StreamAfter(p, |b| / 2 - 1);
      assert Stream(q) == a[n..] && a[n..][0] == a[n] && a[n..][1] == a[n + 1];
      WordOfStream(q);
      LastTwo(a, b, n);
    }
  }

  lemma LastTwo(a: seq<byte>, b: seq<byte>, n: nat)
    requires |b| == n + 2 <= |a| && b[..n] == a[..n] && b[n] == a[n] && b[n + 1] == a[n + 1]
    ensures b == a[..n + 2]
  {
    assert b == b[..n] + [b[n], b[n + 1]] && a[..n + 2] == a[..n] + [a[n], a[n + 1]];
  }

  lemma {:induction false} DeliversEven(p: Pipe, b: seq<byte>)
    requires Delivers(p, b)
    ensures |b| % 2 == 0
    decreases |b|
  {
    if b != [] {
      DeliversEven(p, b[..|b| - 2]);
    }
  }

  lemma {:induction false} WordsInStream(p: Pipe)
    requires WordPackets(p)
    ensures WordsIn(p) == (|Stream(p)| + 1) / 2
    decreases |p.packets|
  {
    if p.packets != [] {
      WordsInStream(Pipe(p.packets[0], p.packets[1..]));
    }
  }

  /** DiscardFillerBytes: fetching the next packet uses up one of the bytes to discard. It gives
      up when no packet comes. */
  function Discard(p: Pipe, n: nat): Pipe
    decreases n
  {
    if n == 0 then p
    else if p.bank != [] then Discard(p.(bank := p.bank[1..]), n - 1)
    else if p.packets != [] then Discard(Pipe(p.packets[0], p.packets[1..]), n - 1)
    else p
  }

  /** Within one packet exactly the asked number of bytes is discarded. */
  lemma {:induction false} DiscardInPacket(p: Pipe, n: nat)
    requires n <= |p.bank|
    ensures Discard(p, n) == p.(bank := p.bank[n..])
    decreases n
  {
    if n > 0 {
      DiscardInPacket(p.(bank := p.bank[1..]), n - 1);
      assert p.bank[1..][n - 1..] == p.bank[n..];
    }
  }

  /** Across packets fewer are: one less for every packet fetched. */
  lemma {:induction false} DiscardedBytes(p: Pipe, n: nat)
    requires n <= |Stream(p)|
    ensures var q := Discard(p, n);
            && |q.packets| <= |p.packets|
            && |Stream(q)| == |Stream(p)| - n + (|p.packets| - |q.packets|)
            && q.packets == p.packets[|p.packets| - |q.packets|..]
    decreases n
  {
    if n > 0 {
      if p.bank != [] {
        DiscardedBytes(p.(bank := p.bank[1..]), n - 1);
      } else {
        DiscardedBytes(Pipe(p.packets[0], p.packets[1..]), n - 1);
      }
    }
  }

  // ----- Flash -----

  /** Bitwise and: writing a page can only clear bits. */
  function And(a: nat, b: nat): (r: nat)
    ensures r <= b
    decreases a
  {
    if a == 0 then 0 else 2 * And(a / 2, b / 2) + if a % 2 == 1 && b % 2 == 1 then 1 else 0
  }

  /** The number with k ones in binary. */
  function Ones(k: nat): nat
  {
    if k == 0 then 0 else 2 * Ones(k - 1) + 1
  }

  lemma {:induction false} AndOnes(k: nat, b: nat)
    requires b <= Ones(k)
    ensures And(Ones(k), b) == b
  {
    if k > 0 {
      AndOnes(k - 1, b / 2);
    }
  }

  /** Bit k, from the lowest. */
  predicate Bit(n: nat, k: nat)
  {
    if k == 0 then n % 2 == 1 else Bit(n / 2, k - 1)
  }

  /** A bit that is clear stays clear, and the data clears more. */
  lemma {:induction false} AndBits(a: nat, b: nat, k: nat)
    ensures Bit(And(a, b), k) <==> Bit(a, k) && Bit(b, k)
    decreases k
  {
    if k > 0 && a > 0 {
      AndBits(a / 2, b / 2, k - 1);
      assert And(a, b) / 2 == And(a / 2, b / 2);
    } else if a == 0 {
      NoBits(k);
    }
  }

  lemma {:induction false} NoBits(k: nat)
    ensures !Bit(0, k)
    decreases k
  {
    if k > 0 {
      NoBits(k - 1);
    }
  }

  /** Only an erased byte takes any value. */
  lemma AndErased(b: byte)
    ensures And(0xFF, b) == b
  {
    assert Ones(4) == 15;
    assert Ones(8) == 0xFF;
    AndOnes(8, b);
  }

  /** How many pages a write of n bytes erases; the first page is erased even when nothing is
      written. */
  function PagesFor(n: nat): nat
  {
    if n == 0 then 1 else (n + PAGE - 1) / PAGE
  }

  /** Where in its page the first word goes: the page buffer holds words. */
  function FirstOffset(base: nat): (e: nat)
    ensures e < PAGE && e % 2 == 0
  {
    base % PAGE / 2 * 2
  }

  /** Which byte of the data the address gets. Pages are counted from the first word, so that the
      words that pass the end of a page go to its beginning. */
  function SourceOf(base: nat, i: nat): (k: nat)
    requires base / PAGE <= i / PAGE
  {
    (i / PAGE - base / PAGE) * PAGE + (i % PAGE + PAGE - FirstOffset(base)) % PAGE
  }

  /** The page of the address is one that a write of n bytes at base erases. */
  predicate PageTouched(base: nat, n: nat, i: nat)
  {
    base / PAGE <= i / PAGE < base / PAGE + PagesFor(n)
  }

  function ProgrammedByte(base: nat, data: seq<byte>, i: nat): byte
    requires base / PAGE <= i / PAGE
  {
    if SourceOf(base, i) < |data| then data[SourceOf(base, i)] else 0xFF
  }

  /** The flash after programming: on the pages erased the data, in their places, and erased bytes;
      every other page as it was. */
  function Programmed(flash: seq<byte>, base: nat, data: seq<byte>): (r: seq<byte>)
    ensures |r| == |flash|
  {
    seq(|flash|, i requires 0 <= i < |flash| =>
      if PageTouched(base, |data|, i) then ProgrammedByte(base, data, i) else flash[i])
  }

  lemma ProgrammedAt(flash: seq<byte>, base: nat, data: seq<byte>, i: nat)
    requires i < |flash|
    ensures Programmed(flash, base, data)[i] ==
            if PageTouched(base, |data|, i) then ProgrammedByte(base, data, i) else flash[i]
  {
  }

  /** How many words a request for the given addresses moves: the byte count has 16 bits, so that
      of all 64K is zero, and the last byte of an odd number is dropped. */
  function Words(start: word, end: word): nat
  {
    Add16(Sub16(end, start), 1) / 2
  }

  function Address(page: byte, start: word): nat
  {
    page * 0x1_0000 + start
  }

  lemma AddressIs(page: byte, start: word)
    ensures Address(page, start) == 0x1_0000 * page + start
  {
  }

  lemma InFlash(page: byte, start: word, end: word)
    requires page < 2 && start <= end
    ensures Address(page, start) + 2 * Words(start, end) <= FLASH_SIZE
  {
  }

  /** Programming a range of a 64K bank changes nothing in the other bank, nor in the pages before
      that of the start address. */
  lemma InBank(flash: seq<byte>, page: byte, start: word, end: word, data: seq<byte>, i: nat)
    requires |flash| == 0x2_0000 && page < 2 && start <= end && i < |flash|
    requires |data| <= end - start + 1
    requires Programmed(flash, 0x1_0000 * page + start, data)[i] != flash[i]
    ensures i / 0x1_0000 == page && start / 256 <= i % 0x1_0000 / 256
  {
    var base := 0x1_0000 * page + start;
    hide SourceOf;
    ProgrammedAt(flash, base, data, i);
    assert base / PAGE == 256 * page + start / 256;
    assert PagesFor(|data|) <= 256 - start / 256;
  }

  /** Only addresses of one 64K bank are different, none before the page of the start address. */
  predicate ChangedOnlyIn(was: seq<byte>, now: seq<byte>, bank: byte, start: word)
    requires |was| == |now|
  {
    forall i :: 0 <= i < |was| && now[i] != was[i] ==> i / 0x1_0000 == bank && start / 256 <= i % 0x1_0000 / 256
  }

  lemma ChangedInBank(was: seq<byte>, page: byte, start: word, end: word, data: seq<byte>, now: seq<byte>)
    requires |was| == 0x2_0000 && page < 2 && start <= end && |data| <= 2 * Words(start, end)
    requires now == Programmed(was, 0x1_0000 * page + start, data)
    ensures |now| == |was| && ChangedOnlyIn(was, now, page, start)
  {
    hide Programmed;
    forall i | 0 <= i < |was| && now[i] != was[i]
      ensures i / 0x1_0000 == page && start / 256 <= i % 0x1_0000 / 256
    {
      InBank(was, page, start, end, data, i);
    }
  }

  /** And what lands is byte by byte behind the start address of the bank. */
  lemma PlacedAt(flash: seq<byte>, page: byte, start: word, data: seq<byte>, k: nat)
    requires |flash| == 0x2_0000 && page < 2 && k < |data| && start + |data| <= 0x1_0000
    requires start % 2 == 0 && (start % 256 == 0 || start % 256 + |data| <= 256)
    ensures Programmed(flash, 0x1_0000 * page + start, data)[0x1_0000 * page + start + k] == data[k]
  {
    var base := 0x1_0000 * page + start;
    assert base % 256 == start % 256;
    hide PageTouched, SourceOf, Programmed;
    LandsAt(base, |data|, k);
    ProgrammedAt(flash, base, data, base + k);
  }

  lemma AndErasedAll()
    ensures forall b: byte :: And(0xFF, b) == b
  {
    forall b: byte
      ensures And(0xFF, b) == b
    {
      AndErased(b);
    }
  }

  /** The words of n bytes at base go where they are meant to. */
  predicate Lands(base: nat, n: nat)
  {
    n == 0 || (base % 2 == 0 && (base % 256 == 0 || base % 256 + n <= 256))
  }

  lemma LandsAt(base: nat, n: nat, k: nat)
    requires k < n && Lands(base, n)
    ensures PageTouched(base, n, base + k) && SourceOf(base, base + k) == k
  {
  }

  lemma Misses(base: nat, n: nat) returns (k: nat)
    requires !Lands(base, n)
    ensures k < n && (PageTouched(base, n, base + k) ==> SourceOf(base, base + k) != k)
  {
    if base % 2 == 1 {
      k := 0;
    } else {
      k := PAGE - base % PAGE;
    }
  }

  /** Every data of a length reads back if and only if the length and the place fit a page, or the
      place is the beginning of one. */
  lemma ReadsBackExactly(flash: seq<byte>, base: nat, n: nat)
    requires base + n <= |flash|
    ensures (forall data: seq<byte> :: |data| == n ==> Programmed(flash, base, data)[base..base + n] == data) <==>
            Lands(base, n)
  {
    hide PageTouched, SourceOf, Programmed;
    if Lands(base, n) {
      forall data: seq<byte> | |data| == n
        ensures Programmed(flash, base, data)[base..base + n] == data
      {
        LandingReadsBack(flash, base, data);
      }
    } else {
      var k := Misses(base, n);
      var zeros: seq<byte> := seq(n, _ => 0);
      var one := zeros[k := 1];
      ProgrammedAt(flash, base, zeros, base + k);
      ProgrammedAt(flash, base, one, base + k);
      assert Programmed(flash, base, zeros)[base + k] == Programmed(flash, base, one)[base + k];
      assert Programmed(flash, base, zeros)[base..base + n][k] == Programmed(flash, base, zeros)[base + k];
      assert Programmed(flash, base, one)[base..base + n][k] == Programmed(flash, base, one)[base + k];
      assert zeros[k] != one[k];
    }
  }

  lemma LandingReadsBack(flash: seq<byte>, base: nat, data: seq<byte>)
    requires base + |data| <= |flash| && Lands(base, |data|)
    ensures Programmed(flash, base, data)[base..base + |data|] == data
  {
    hide PageTouched, SourceOf, Programmed;
    var r := Programmed(flash, base, data);
    forall k | 0 <= k < |data|
      ensures r[base..base + |data|][k] == data[k]
    {
      LandsAt(base, |data|, k);
      ProgrammedAt(flash, base, data, base + k);
    }
  }

  /** No page that is not erased changes. */
  lemma OtherPagesStay(flash: seq<byte>, base: nat, data: seq<byte>, i: nat)
    requires i < |flash| && !PageTouched(base, |data|, i)
    ensures Programmed(flash, base, data)[i] == flash[i]
  {
  }

  lemma EmptyConcat()
    ensures Concat([]) + [] == []
  {
  }

  lemma {:induction false} ConcatSnoc(packets: seq<seq<byte>>, last: seq<byte>)
    ensures Concat(packets + [last]) == Concat(packets) + last
    decreases |packets|
  {
    if packets == [] {
      assert Concat([last]) == last + [];
    } else {
      ConcatSnoc(packets[1..], last);
      assert (packets + [last])[1..] == packets[1..] + [last];
      Regroup([], packets[0], Concat(packets[1..]), last);
    }
  }

  /** A DNLOAD request that programs flash: its first packet begins with the command. */
  predicate ProgramRequest(length: word, packets: seq<seq<byte>>, start: word, end: word)
  {
    && packets != [] && length == |Concat(packets)|
    && |packets[0]| >= 6
    && packets[0][0] == 1 && packets[0][1] == 0 && packets[0][2..6] == BigEndian(start) + BigEndian(end)
  }

  /** Where the firmware in such a request begins: behind the filler, and behind the bytes that
      align it to the endpoint. */
  function Firmware(packets: seq<seq<byte>>, start: word): Pipe
    requires packets != [] && |packets[0]| >= 6
  {
    Discard(Discard(Pipe(packets[0][6..], packets[1..]), FILLER), start % ENDPOINT_SIZE)
  }

  lemma Parameters(packet: seq<byte>, start: word, end: word)
    requires |packet| >= 6 && packet[2..6] == BigEndian(start) + BigEndian(end)
    ensures Word(packet[2], packet[3]) == start && Word(packet[4], packet[5]) == end
  {
    hide BigEndian;
    assert packet[2..6][0] == packet[2] && packet[2..6][1] == packet[3];
    assert packet[2..6][2] == packet[4] && packet[2..6][3] == packet[5];
  }

  /** A DNLOAD request that asks for flash to be shown. */
  predicate DisplayRequest(length: word, packets: seq<seq<byte>>, start: word, end: word)
  {
    && length == 6 && |packets| == 1 && |packets[0]| == 6
    && packets[0][0] == 3 && packets[0][1] == 0 && packets[0][2..6] == BigEndian(start) + BigEndian(end)
  }

  /** A DNLOAD request that selects a 64K bank, the last of its four bytes. */
  predicate SelectRequest(length: word, packets: seq<seq<byte>>)
  {
    && length == 4 && |packets| == 1 && |packets[0]| == 4
    && packets[0][0] == 6 && packets[0][1] == 3 && packets[0][2] == 0
  }

  /** All the whole words of the range are moved unless it is all of a 64K bank, of which none is. */
  lemma WordsExact(start: word, end: word)
    requires start <= end
    ensures 2 * Words(start, end) == (end - start + 1) / 2 * 2 <==> end - start + 1 < 0x1_0000
    ensures end - start + 1 == 0x1_0000 ==> Words(start, end) == 0
  {
  }

  /** With a full first packet and a start that needs no alignment the firmware begins in the second
      packet. */
  lemma FirmwareInSecond(packets: seq<seq<byte>>, start: word)
    requires packets != [] && |packets[0]| == 32 && start % 32 == 0
    ensures Firmware(packets, start) == Pipe([], packets[1..])
  {
    DiscardInPacket(Pipe(packets[0][6..], packets[1..]), FILLER);
  }

  lemma FetchCounts(packets: seq<seq<byte>>, k: nat)
    requires packets != [] && 0 < k <= |packets[0]|
    ensures Stream(Discard(Pipe([], packets), k)) == Concat(packets)[k - 1..]
  {
    hide Concat;
    DiscardInPacket(Pipe(packets[0], packets[1..]), k - 1);
    ConcatFirst(packets);
    assert (packets[0] + Concat(packets[1..]))[k - 1..] == packets[0][k - 1..] + Concat(packets[1..]);
  }

  lemma ConcatFirst(packets: seq<seq<byte>>)
    requires packets != []
    ensures Concat(packets) == packets[0] + Concat(packets[1..])
  {
  }

  /** Any other start shifts it: of the bytes that align it one is left, because fetching the second
      packet counts as one of them. */
  lemma AlignmentLeavesOne(packets: seq<seq<byte>>, start: word)
    requires |packets| > 1 && |packets[0]| == 32 && start % 32 != 0
    requires |packets[1]| >= start % 32
    ensures Stream(Firmware(packets, start)) == Concat(packets[1..])[start % 32 - 1..]
  {
    hide Concat, Stream, Discard;
    DiscardInPacket(Pipe(packets[0][6..], packets[1..]), FILLER);
    assert packets[0][6..][FILLER..] == [];
    assert packets[1..][0] == packets[1];
    FetchCounts(packets[1..], start % ENDPOINT_SIZE);
  }

  /** What is then delivered is the payload but for an odd last byte. */
  lemma PayloadDelivered(payload: seq<byte>, suffix: seq<byte>, packets: seq<seq<byte>>, start: word, end: word,
                         input: seq<byte>)
    requires start <= end && |payload| == end - start + 1 < 0x1_0000
    requires packets != [] && |packets[0]| == 32 && start % 32 == 0
    requires WordPackets(Pipe([], packets[1..])) && Concat(packets[1..]) == payload + suffix
    requires Delivers(Firmware(packets, start), input) && |input| == 2 * Words(start, end)
    ensures input == payload[..|payload| / 2 * 2]
  {
    hide Delivers, WordPackets, Firmware, Concat;
    FirmwareInSecond(packets, start);
    WordsExact(start, end);
    var p := Pipe([], packets[1..]);
    assert Stream(p) == payload + suffix by {
      assert [] + Concat(packets[1..]) == Concat(packets[1..]);
    }
    DeliversStream(p, input);
    assert (payload + suffix)[..|input|] == payload[..|input|];
  }

  /** And of a request that long enough words are delivered. */
  lemma PayloadFits(payload: seq<byte>, suffix: seq<byte>, packets: seq<seq<byte>>, start: word, end: word)
    requires start <= end && |payload| == end - start + 1 < 0x1_0000
    requires packets != [] && |packets[0]| == 32 && start % 32 == 0
    requires WordPackets(Pipe([], packets[1..])) && Concat(packets[1..]) == payload + suffix
    ensures Words(start, end) <= WordsIn(Firmware(packets, start))
  {
    hide WordPackets, Firmware, WordsIn;
    FirmwareInSecond(packets, start);
    WordsExact(start, end);
    WordsInStream(Pipe([], packets[1..]));
  }

  // ----- The bootloader -----

  datatype State = Idle | DnloadIdle | UploadIdle

  /** A little-endian word as it passes through the endpoint. */
  datatype Pair = Pair(lo: byte, hi: byte)

  /** The bootloader's statics, the control endpoint in both directions, the flash and the page
      buffer of the self-programming hardware. */
  class Bootloader {
    var state: State
    var command: byte
    var data: seq<byte>
    var dataSize: word
    var flash64KBPage: byte
    var startAddr: word
    var endAddr: word

    var out: Pipe
    var bankIn: seq<byte>
    var sent: seq<seq<byte>>

    const flash: array<byte>
    const pageBuffer: array<byte>

    ghost predicate Valid()
      reads this, pageBuffer
    {
      && flash.Length == FLASH_SIZE && pageBuffer.Length == PAGE && flash != pageBuffer
      && |data| == 5
      && forall j :: 0 <= j < PAGE ==> pageBuffer[j] == 0xFF
    }

    // ----- Self-programming -----

    /** boot_page_erase: the page the address is in. */
    method PageErase(address: nat)
      requires flash.Length == FLASH_SIZE && address < FLASH_SIZE
      modifies flash
      ensures var p := address / PAGE * PAGE;
              forall i :: 0 <= i < FLASH_SIZE ==> flash[i] == if p <= i < p + PAGE then 0xFF else old(flash[i])
    {
      var p := address / PAGE * PAGE;
      var i := 0;
      while i < PAGE
        invariant 0 <= i <= PAGE
        invariant forall k :: 0 <= k < FLASH_SIZE ==> flash[k] == if p <= k < p + i then 0xFF else old(flash[k])
      {
        flash[p + i] := 0xFF;
        i := i + 1;
      }
    }

    /** boot_page_fill: a word of the page buffer, which ignores the lowest bit of the address. */
    method PageFill(address: nat, w: Pair)
      requires pageBuffer.Length == PAGE
      modifies pageBuffer
      ensures var j := FirstOffset(address);
              && j + 1 < PAGE
              && pageBuffer[j] == w.lo && pageBuffer[j + 1] == w.hi
              && forall k :: 0 <= k < PAGE && k != j && k != j + 1 ==> pageBuffer[k] == old(pageBuffer[k])
    {
      var j := FirstOffset(address);
      pageBuffer[j] := w.lo;
      pageBuffer[j + 1] := w.hi;
    }

    /** boot_page_write: the page buffer is written to the page and is left erased. */
    method PageWrite(address: nat)
      requires flash.Length == FLASH_SIZE && address < FLASH_SIZE
      requires pageBuffer.Length == PAGE && flash != pageBuffer
      modifies flash, pageBuffer
      ensures var p := address / PAGE * PAGE;
              forall i :: 0 <= i < FLASH_SIZE ==>
                flash[i] == if p <= i < p + PAGE then And(old(flash[i]), old(pageBuffer[i - p])) else old(flash[i])
      ensures forall j :: 0 <= j < PAGE ==> pageBuffer[j] == 0xFF
    {
      var p := address / PAGE * PAGE;
      var i := 0;
      while i < PAGE
        invariant 0 <= i <= PAGE
        invariant forall k :: 0 <= k < FLASH_SIZE ==>
          flash[k] == if p <= k < p + i then And(old(flash[k]), old(pageBuffer[k - p])) else old(flash[k])
        invariant forall j :: 0 <= j < PAGE ==> pageBuffer[j] == if j < i then 0xFF else old(pageBuffer[j])
      {
        flash[p + i] := And(flash[p + i], pageBuffer[i]);
        pageBuffer[i] := 0xFF;
        i := i + 1;
      }
    }

    // ----- The endpoint -----

    /** Endpoint_ClearOUT and the wait for the next packet; false when none comes. */
    method NextPacket() returns (ok: bool)
      modifies this`out
      ensures ok <==> old(out).packets != []
      ensures ok ==> out == Pipe(old(out).packets[0], old(out).packets[1..])
      ensures !ok ==> out == old(out)
    {
      if out.packets == [] {
        return false;
      }
      out := Pipe(out.packets[0], out.packets[1..]);
      return true;
    }

    method DiscardFillerBytes(numberOfBytes: byte)
      modifies this`out
      ensures out == Discard(old(out), numberOfBytes)
    {
      var n := numberOfBytes;
      while n > 0
        invariant Discard(out, n) == Discard(old(out), numberOfBytes)
      {
        n := n - 1;
        if out.bank == [] {
          var ok := NextPacket();
          if !ok {
            return;
          }
        } else {
          out := out.(bank := out.bank[1..]);
        }
      }
    }

    /** Endpoint_Read_16_LE, fetching the next packet first if the bank is empty. A byte that is not
        in the bank may be anything. */
    method ReadWord() returns (ok: bool, w: Pair)
      modifies this`out
      ensures ok <==> WordsIn(old(out)) > 0
      ensures ok ==> Takes(Fetched(old(out)).bank, w.lo, w.hi) && out == WithoutWord(Fetched(old(out)))
      ensures !ok ==> out == old(out)
    {
      w := Pair(0, 0);
      WordTaken(out);
      if out.bank == [] {
        ok := NextPacket();
        if !ok {
          return;
        }
      }
      ok := true;
      var lo: byte, hi: byte := *, *;
      if |out.bank| > 0 {
        lo := out.bank[0];
      }
      if |out.bank| > 1 {
        hi := out.bank[1];
      }
      w := Pair(lo, hi);
      out := out.(bank := if |out.bank| < 2 then [] else out.bank[2..]);
    }

    // ----- Programming -----

    /** c pages of the data are written, the next one is erased and its share of the data, the last
        w words, is in the page buffer; the rest of the flash is as it was. */
    ghost predicate InPage(was: seq<byte>, base: nat, done: seq<byte>, c: nat, w: nat)
      reads flash, pageBuffer
    {
      && flash.Length == FLASH_SIZE == |was| && pageBuffer.Length == PAGE && flash != pageBuffer
      && 2 * w <= PAGE && |done| == c * PAGE + 2 * w && base / PAGE + c < FLASH_SIZE / PAGE
      && (forall i :: 0 <= i < FLASH_SIZE ==>
            flash[i] == if base / PAGE <= i / PAGE < base / PAGE + c then ProgrammedByte(base, done, i)
                        else if i / PAGE == base / PAGE + c then 0xFF
                        else was[i])
      && (forall j :: 0 <= j < PAGE ==> pageBuffer[j] == BufferByte(base, done, c, j))
    }

    method FillWord(ghost was: seq<byte>, ghost base: nat, ghost done: seq<byte>, ghost c: nat, ghost w: nat,
                    address: nat, word: Pair)
      requires InPage(was, base, done, c, w) && 2 * w < PAGE && address == base + |done|
      modifies pageBuffer
      ensures InPage(was, base, done + [word.lo, word.hi], c, w + 1)
    {
      hide ProgrammedByte, FirstOffset, BufferByte;
      ghost var more := done + [word.lo, word.hi];
      PageFill(address, word);
      forall j | 0 <= j < PAGE
        ensures pageBuffer[j] == BufferByte(base, more, c, j)
      {
        BufferMore(base, done, c, w, word.lo, word.hi, j);
      }
      forall i | 0 <= i < FLASH_SIZE && base / PAGE <= i / PAGE < base / PAGE + c
        ensures ProgrammedByte(base, more, i) == ProgrammedByte(base, done, i)
      {
        EarlierPage(base, done, more, c, i);
      }
    }

    method CommitPage(ghost was: seq<byte>, ghost base: nat, ghost done: seq<byte>, pageStart: nat, ghost c: nat,
                      ghost w: nat)
      requires InPage(was, base, done, c, w) && w > 0 && pageStart == base + c * PAGE
      modifies flash, pageBuffer
      ensures flash[..] == Programmed(was, base, done)
      ensures forall j :: 0 <= j < PAGE ==> pageBuffer[j] == 0xFF
    {
      hide Programmed, And, ProgrammedByte, BufferByte, PageTouched;
      AndErasedAll();
      PagesOf(base, c, w);
      PageWrite(pageStart);
      ghost var r := Programmed(was, base, done);
      forall i | 0 <= i < FLASH_SIZE
        ensures flash[..][i] == r[i]
      {
        ProgrammedAt(was, base, done, i);
        TouchedBy(base, c, w, i);
        if i / PAGE == base / PAGE + c {
          BufferIsPage(base, done, c, i);
        }
      }
    }

    method NextPage(ghost was: seq<byte>, ghost base: nat, ghost done: seq<byte>, ghost c: nat, address: nat)
      requires flash.Length == FLASH_SIZE == |was| && pageBuffer.Length == PAGE && flash != pageBuffer
      requires |done| == (c + 1) * PAGE && address == base + |done| < FLASH_SIZE
      requires flash[..] == Programmed(was, base, done)
      requires forall j :: 0 <= j < PAGE ==> pageBuffer[j] == 0xFF
      modifies flash
      ensures InPage(was, base, done, c + 1, 0)
    {
      hide Programmed, ProgrammedByte, BufferByte, PageTouched;
      ghost var before := flash[..];
      assert forall i :: 0 <= i < FLASH_SIZE ==> flash[i] == before[i];
      PagesOf(base, c + 1, 0);
      PageErase(address);
      forall i | 0 <= i < FLASH_SIZE
        ensures flash[i] == if base / PAGE <= i / PAGE < base / PAGE + (c + 1) then ProgrammedByte(base, done, i)
                            else if i / PAGE == base / PAGE + (c + 1) then 0xFF
                            else was[i]
      {
        ProgrammedAt(was, base, done, i);
        TouchedBy(base, c, PAGE / 2, i);
      }
      forall j | 0 <= j < PAGE
        ensures pageBuffer[j] == BufferByte(base, done, c + 1, j)
      {
        BufferEmpty(base, done, c + 1, j);
      }
    }

    lemma NothingProgrammed(was: seq<byte>, base: nat)
      requires InPage(was, base, [], 0, 0)
      ensures flash[..] == Programmed(was, base, [])
    {
      var r := Programmed(was, base, []);
      forall i | 0 <= i < FLASH_SIZE
        ensures flash[..][i] == r[i]
      {
        assert flash[i] == if i / PAGE == base / PAGE then 0xFF else was[i];
        ProgrammedAt(was, base, [], i);
      }
    }

    /** A full page, and the last one, is committed; the next one, if any, is erased. */
    method EndWord(ghost was: seq<byte>, ghost base: nat, ghost done: seq<byte>, ghost c: nat, page: nat, w: nat,
                   address: nat, remaining: nat)
      returns (pageStart: nat, wordsInPage: nat, ghost next: nat)
      requires InPage(was, base, done, c, w) && w > 0 && page == base + c * PAGE && address == base + |done|
      requires remaining > 0 ==> address < FLASH_SIZE
      modifies flash, pageBuffer
      ensures remaining > 0 ==>
        InPage(was, base, done, next, wordsInPage) && 2 * wordsInPage < PAGE && pageStart == base + next * PAGE
      ensures remaining == 0 ==>
        flash[..] == Programmed(was, base, done) && forall j :: 0 <= j < pageBuffer.Length ==> pageBuffer[j] == 0xFF
    {
      hide Programmed, ProgrammedByte, BufferByte, And;
      pageStart := page;
      wordsInPage := w;
      next := c;
      if wordsInPage == PAGE / 2 || remaining == 0 {
        CommitPage(was, base, done, pageStart, c, wordsInPage);
        if remaining > 0 {
          NextPage(was, base, done, c, address);
          pageStart := address;
          wordsInPage := 0;
          next := c + 1;
        }
      }
    }

    /** The firmware part of DNLOAD: the words go to flash page by page. */
    method Program(ghost was: seq<byte>) returns (ok: bool, ghost input: seq<byte>)
      requires Valid() && flash64KBPage < 2 && startAddr <= endAddr
      requires InPage(was, Address(flash64KBPage, startAddr), [], 0, 0)
      modifies this`out, this`startAddr, flash, pageBuffer
      ensures var base := Address(flash64KBPage, old(startAddr)); var n := Words(old(startAddr), endAddr);
              && (ok <==> n <= WordsIn(old(out)))
              && (ok ==> out == AfterWords(old(out), n))
              && (ok ==> Valid() && startAddr == endAddr && |input| == 2 * n && Delivers(old(out), input) &&
                         flash[..] == Programmed(was, base, input))
    {
      hide InPage, Programmed, WordsIn, Words, Address, Takes, Delivers, AfterWords, Fetched, WithoutWord;
      InFlash(flash64KBPage, startAddr, endAddr);
      ghost var base := Address(flash64KBPage, startAddr);
      ghost var n, p := Words(startAddr, endAddr), out;
      var wordsRemaining: nat := Words(startAddr, endAddr);
      var current := Address(flash64KBPage, startAddr);
      var pageStart: nat := current;
      var wordsInPage: nat := 0;
      ghost var c: nat := 0;
      input := [];
      DeliversNothing(p);
      if wordsRemaining == 0 {
        NothingProgrammed(was, base);
      }
      while wordsRemaining > 0
        invariant Delivers(p, input) && |input| == 2 * (n - wordsRemaining) && wordsRemaining <= n
        invariant out == AfterWords(p, n - wordsRemaining) && WordsIn(p) >= n - wordsRemaining
        invariant current == base + |input|
        invariant wordsRemaining > 0 ==>
          InPage(was, base, input, c, wordsInPage) && 2 * wordsInPage < PAGE && pageStart == base + c * PAGE
        invariant wordsRemaining == 0 ==> Valid() && flash[..] == Programmed(was, base, input)
      {
        WordsLeft(p, n - wordsRemaining);
        var w;
        ok, w := ReadWord();
        if !ok {
          return;
        }
        wordsRemaining := wordsRemaining - 1;
        FillWord(was, base, input, c, wordsInPage, current, w);
        DeliversMore(p, input, w.lo, w.hi);
        input := input + [w.lo, w.hi];
        wordsInPage := wordsInPage + 1;
        current := current + 2;
        pageStart, wordsInPage, c := EndWord(was, base, input, c, pageStart, wordsInPage, current, wordsRemaining);
      }
      ok := true;
      startAddr := endAddr;
    }

    // ----- Commands -----

    method LoadStartEndAddresses()
      requires |data| == 5
      modifies this`startAddr, this`endAddr
      ensures startAddr == Word(data[1], data[2]) && endAddr == Word(data[3], data[4])
    {
      startAddr := Word(data[1], data[2]);
      endAddr := Word(data[3], data[4]);
    }

    method ProcessMemProgCommand()
      requires Valid() && data[0] == 0 && flash64KBPage < 2
      modifies this`startAddr, this`endAddr, this`state, flash
      ensures startAddr == Word(data[1], data[2]) && endAddr == Word(data[3], data[4]) && state == DnloadIdle
      ensures InPage(old(flash[..]), Address(flash64KBPage, startAddr), [], 0, 0)
    {
      LoadStartEndAddresses();
      PageErase(Address(flash64KBPage, startAddr));
      state := DnloadIdle;
    }

    method ProcessMemReadCommand()
      requires Valid() && data[0] == 0
      modifies this`startAddr, this`endAddr, this`state
      ensures startAddr == Word(data[1], data[2]) && endAddr == Word(data[3], data[4]) && state == UploadIdle
    {
      LoadStartEndAddresses();
      state := UploadIdle;
    }

    /** The command byte and up to five parameters, as far as the first packet holds them. */
    method ReceiveCommand()
      requires |data| == 5 && out.bank != []
      modifies this`command, this`data, this`dataSize, this`out
      ensures var k := if |old(out).bank| < 6 then |old(out).bank| - 1 else 5;
              && command == old(out).bank[0]
              && data == old(out).bank[1..1 + k] + old(data)[k..]
              && dataSize == Sub16(old(dataSize), 1 + k)
              && out == old(out).(bank := old(out).bank[1 + k..])
    {
      hide Sub16;
      ghost var b, was := out.bank, data;
      command := out.bank[0];
      out := out.(bank := out.bank[1..]);
      dataSize := Sub16(dataSize, 1);
      var i := 0;
      while i < 5 && out.bank != []
        invariant 0 <= i <= 5 && |b| > i && |data| == 5 && command == b[0]
        invariant forall j :: 0 <= j < 5 ==> data[j] == if j < i then b[1 + j] else was[j]
        invariant dataSize == Sub16(old(dataSize), 1 + i)
        invariant out.bank == b[1 + i..] && out.packets == old(out).packets
      {
        DropTwice(b, 1 + i, 1);
        SubTwice(old(dataSize), 1 + i, 1);
        data := data[i := out.bank[0]];
        out := out.(bank := out.bank[1..]);
        dataSize := Sub16(dataSize, 1);
        i := i + 1;
      }
      assert data == b[1..1 + i] + was[i..];
    }

    // ----- DNLOAD and UPLOAD -----

    /** ProcessBootloaderCommand for the flash commands. */
    method ProcessBootloaderCommand()
      requires Valid() && (command == PROG_START ==> flash64KBPage < 2)
      requires command == PROG_START || command == DISP_DATA ==> data[0] == 0
      requires command == PROG_START || command == DISP_DATA || command == CHANGE_BASE_ADDR
      modifies this`startAddr, this`endAddr, this`state, this`flash64KBPage, flash
      ensures command != CHANGE_BASE_ADDR ==> startAddr == Word(data[1], data[2]) && endAddr == Word(data[3], data[4])
      ensures command == PROG_START ==> state == DnloadIdle && flash64KBPage == old(flash64KBPage)
      ensures command == PROG_START ==> InPage(old(flash[..]), Address(flash64KBPage, startAddr), [], 0, 0)
      ensures command == DISP_DATA ==>
                state == UploadIdle && flash64KBPage == old(flash64KBPage) && flash[..] == old(flash[..])
      ensures command == CHANGE_BASE_ADDR ==>
        && startAddr == old(startAddr) && endAddr == old(endAddr) && state == old(state) && flash[..] == old(flash[..])
        && flash64KBPage == if data[0] == 3 && data[1] == 0 then data[2] else old(flash64KBPage)
    {
      if command == PROG_START {
        ProcessMemProgCommand();
      } else if command == DISP_DATA {
        ProcessMemReadCommand();
      } else {
        if data[0] == 3 && data[1] == 0 {
          flash64KBPage := data[2];
        }
      }
    }

    /** The firmware in a DNLOAD request, after the command: filler, words, suffix. */
    method ReceiveFirmware(ghost was: seq<byte>) returns (ok: bool, ghost input: seq<byte>)
      requires Valid() && flash64KBPage < 2 && startAddr <= endAddr
      requires InPage(was, Address(flash64KBPage, startAddr), [], 0, 0)
      modifies this`out, this`startAddr, flash, pageBuffer
      ensures var p := Discard(Discard(old(out), FILLER), old(startAddr) % ENDPOINT_SIZE);
              var n := Words(old(startAddr), endAddr);
              && (ok <==> n <= WordsIn(p))
              && (ok ==> out == Discard(AfterWords(p, n), SUFFIX))
              && (ok ==> Valid() && startAddr == endAddr && |input| == 2 * n && Delivers(p, input) &&
                         flash[..] == Programmed(was, Address(flash64KBPage, old(startAddr)), input))
    {
      hide Words, Address, Programmed, Concat, InPage, Discard, Delivers, WordsIn;
      DiscardFillerBytes(FILLER);
      DiscardFillerBytes(startAddr % ENDPOINT_SIZE);
      ok, input := Program(was);
      if ok {
        DiscardFillerBytes(SUFFIX);
      }
    }

    /** The DNLOAD request; false when the host goes away in the middle of it. */
    method Download(length: word, packets: seq<seq<byte>>, ghost start: word, ghost end: word)
      returns (ok: bool, ghost input: seq<byte>)
      requires Valid()
      requires length == 0 || ProgramRequest(length, packets, start, end) ||
               DisplayRequest(length, packets, start, end) || SelectRequest(length, packets)
      requires length > 0 && ProgramRequest(length, packets, start, end) ==> start <= end && flash64KBPage < 2
      modifies this, flash, pageBuffer
      ensures flash64KBPage ==
              if length > 0 && SelectRequest(length, packets) then packets[0][3] else old(flash64KBPage)
      ensures length == 0 ==>
        ok && Valid() && flash[..] == old(flash[..]) && state == if old(state) == DnloadIdle then Idle else old(state)
      ensures length == 6 && ProgramRequest(length, packets, start, end) ==>
        ok && Valid() && state == Idle && flash[..] == Programmed(old(flash[..]), 0x1_0000 * flash64KBPage + start, [])
      ensures length > 6 && ProgramRequest(length, packets, start, end) ==>
        var p := Firmware(packets, start); var n := Words(start, end);
        && (ok <==> n <= WordsIn(p))
        && (ok ==> out == Discard(AfterWords(p, n), 16))
        && (ok ==> Valid() && state == DnloadIdle && startAddr == endAddr == end &&
                   |input| == 2 * n && Delivers(p, input) &&
                   flash[..] == Programmed(old(flash[..]), 0x1_0000 * flash64KBPage + start, input))
      ensures length > 0 && ok && ProgramRequest(length, packets, start, end) ==>
        ChangedOnlyIn(old(flash[..]), flash[..], flash64KBPage, start)
      ensures length > 0 && DisplayRequest(length, packets, start, end) ==>
        ok && Valid() && flash[..] == old(flash[..]) && state == UploadIdle && data[0] == 0 &&
        startAddr == start && endAddr == end
      ensures length > 0 && SelectRequest(length, packets) ==>
        ok && Valid() && flash[..] == old(flash[..]) && state == if old(state) == DnloadIdle then Idle else old(state)
    {
      hide Words, Programmed, InPage, Address, Delivers, WordsIn, Discard, ChangedOnlyIn, AfterWords;
      ok := true;
      input := [];
      dataSize := length;
      ghost var was := flash[..];
      AddressIs(flash64KBPage, start);
      if dataSize > 0 {
        out := Pipe(packets[0], packets[1..]);
        if !SelectRequest(length, packets) {
          Parameters(packets[0], start, end);
        }
        ReceiveCommand();
        ProcessBootloaderCommand();
      }
      if state == DnloadIdle {
        if dataSize == 0 {
          if length > 0 && ProgramRequest(length, packets, start, end) {
            NothingProgrammed(was, Address(flash64KBPage, startAddr));
          }
          state := Idle;
        } else {
          ok, input := ReceiveFirmware(was);
        }
        if length > 0 && ok && ProgramRequest(length, packets, start, end) {
          ChangedInBank(was, flash64KBPage, start, end, input, flash[..]);
        }
      }
    }

    /** Endpoint_Write_16_LE, sending the packet first if the bank is full. */
    method WriteWord(w: Pair)
      requires |bankIn| <= ENDPOINT_SIZE && |bankIn| % 2 == 0
      requires forall i :: 0 <= i < |sent| ==> |sent[i]| == ENDPOINT_SIZE
      modifies this`sent, this`bankIn
      ensures |bankIn| <= ENDPOINT_SIZE && |bankIn| % 2 == 0
      ensures forall i :: 0 <= i < |sent| ==> |sent[i]| == ENDPOINT_SIZE
      ensures Concat(sent) + bankIn == (Concat(old(sent)) + old(bankIn)) + [w.lo, w.hi]
    {
      hide Concat;
      if |bankIn| == ENDPOINT_SIZE {
        ConcatSnoc(sent, bankIn);
        sent, bankIn := sent + [bankIn], [w.lo, w.hi];
      } else {
        Regroup([], Concat(sent), bankIn, [w.lo, w.hi]);
        bankIn := bankIn + [w.lo, w.hi];
      }
    }

    lemma FlashSnoc(base: nat, current: nat)
      requires base <= current && current + 2 <= flash.Length
      ensures flash[base..current + 2] == flash[base..current] + [flash[current], flash[current + 1]]
    {
    }

    /** The UPLOAD request after a display command: the words of the range, in full packets but
        for the last. */
    method Upload()
      requires Valid() && state == UploadIdle && flash64KBPage < 2 && startAddr <= endAddr
      modifies this`sent, this`bankIn, this`startAddr, this`state
      ensures Valid() && state == Idle && startAddr == endAddr
      ensures var base := 0x1_0000 * flash64KBPage + old(startAddr);
              Concat(sent) == flash[base..base + 2 * Words(old(startAddr), endAddr)]
      ensures sent != [] && |sent[|sent| - 1]| <= 32
      ensures forall i :: 0 <= i < |sent| - 1 ==> |sent[i]| == 32
    {
      EmptyConcat();
      hide Concat, Words, Address;
      InFlash(flash64KBPage, startAddr, endAddr);
      AddressIs(flash64KBPage, startAddr);
      var wordsRemaining: nat := Words(startAddr, endAddr);
      var current := Address(flash64KBPage, startAddr);
      ghost var base := current;
      ghost var n := 2 * wordsRemaining;
      sent, bankIn := [], [];
      while wordsRemaining > 0
        invariant current + 2 * wordsRemaining == base + n && base <= current
        invariant |bankIn| <= ENDPOINT_SIZE && |bankIn| % 2 == 0
        invariant forall i :: 0 <= i < |sent| ==> |sent[i]| == ENDPOINT_SIZE
        invariant Concat(sent) + bankIn == flash[base..current]
      {
        wordsRemaining := wordsRemaining - 1;
        WriteWord(Pair(flash[current], flash[current + 1]));
        FlashSnoc(base, current);
        current := current + 2;
      }
      ConcatSnoc(sent, bankIn);
      sent := sent + [bankIn];
      startAddr := endAddr;
      state := Idle;
    }

    // ----- Round trip -----

    /** Selecting a 64K bank, programming a range of it and uploading it gives what the flash then
        holds there. */
    method ProgramThenUpload(select: seq<seq<byte>>, packets: seq<seq<byte>>, display: seq<seq<byte>>, start: word,
                             end: word)
      returns (back: seq<byte>, ghost input: seq<byte>)
      requires Valid() && start <= end
      requires SelectRequest(4, select) && select[0][3] < 2
      requires 6 < |Concat(packets)| < 0x1_0000 && ProgramRequest(|Concat(packets)|, packets, start, end)
      requires Words(start, end) <= WordsIn(Firmware(packets, start))
      requires DisplayRequest(6, display, start, end)
      modifies this, flash, pageBuffer
      ensures Valid() && flash64KBPage == select[0][3]
      ensures |input| == 2 * Words(start, end) && Delivers(Firmware(packets, start), input)
      ensures var base := 0x1_0000 * select[0][3] + start;
              flash[..] == Programmed(old(flash[..]), base, input) && back == flash[..][base..base + |input|]
    {
      hide Programmed, Address, Concat, Words, WordsIn, Delivers, Firmware;
      var ok;
      ghost var more;
      ok, more := Download(4, select, start, end);
      InFlash(flash64KBPage, start, end);
      AddressIs(flash64KBPage, start);
      ok, input := Download(|Concat(packets)|, packets, start, end);
      ok, more := Download(6, display, start, end);
      Upload();
      back := Concat(sent);
    }
  }

  /** What comes back: with a full first packet, a start that needs no alignment and packets that cut
      no word, the payload, if it lands where it is meant to and its length is even. The last byte of
      an odd one is dropped. */
  lemma RoundTrip(was: seq<byte>, base: nat, payload: seq<byte>, suffix: seq<byte>, packets: seq<seq<byte>>,
                  start: word, end: word, input: seq<byte>)
    requires start <= end && |payload| == end - start + 1 < 0x1_0000
    requires packets != [] && |packets[0]| == 32 && start % 32 == 0
    requires WordPackets(Pipe([], packets[1..])) && Concat(packets[1..]) == payload + suffix
    requires Delivers(Firmware(packets, start), input) && |input| == 2 * Words(start, end)
    requires base + |input| <= |was| && Lands(base, |input|)
    ensures var back := Programmed(was, base, input)[base..base + |input|];
            back == payload[..|payload| / 2 * 2] && (back == payload <==> |payload| % 2 == 0)
  {
    hide Programmed, Concat, Words, Delivers, WordPackets, Firmware, Lands;
    PayloadDelivered(payload, suffix, packets, start, end, input);
    LandingReadsBack(was, base, input);
  }

  /** An odd payload with the suffix of a DFU file: all but its last byte comes back. */
  lemma OddPayload(payload: seq<byte>, suffix: seq<byte>, packets: seq<seq<byte>>, start: word, end: word)
    requires start <= end && |payload| == end - start + 1 < 0x1_0000 && |payload| % 2 == 1 && |suffix| == 16
    requires packets != [] && |packets[0]| == 32 && start % 32 == 0
    requires WordPackets(Pipe([], packets[1..])) && Concat(packets[1..]) == payload + suffix
    ensures 2 * Words(start, end) == |payload| - 1 && Words(start, end) < WordsIn(Firmware(packets, start))
  {
    hide Words, WordsIn, Firmware, WordPackets;
    FirmwareInSecond(packets, start);
    WordsExact(start, end);
    WordsInStream(Pipe([], packets[1..]));
  }

  /** The byte of the page buffer at offset j, while page c of the data is filled. */
  function BufferByte(base: nat, done: seq<byte>, c: nat, j: nat): byte
  {
    var k := c * PAGE + (j + PAGE - FirstOffset(base)) % PAGE;
    if k < |done| then done[k] else 0xFF
  }

  lemma InPageOffset(base: nat, c: nat, k: nat)
    ensures (base + (c * PAGE + k)) % PAGE == (base % PAGE + k) % PAGE
  {
    var q, o := base / PAGE, base % PAGE;
    assert base + (c * PAGE + k) == (q + c) * PAGE + (o + k);
  }

  lemma OffsetAfter(base: nat, c: nat, w: nat)
    requires 2 * w < PAGE
    ensures FirstOffset(base + (c * PAGE + 2 * w)) == (FirstOffset(base) + 2 * w) % PAGE
  {
    InPageOffset(base, c, 2 * w);
    var o := base % PAGE;
    if o + 2 * w < PAGE {
      assert (o + 2 * w) % PAGE == o + 2 * w;
    } else {
      assert (o + 2 * w) % PAGE == o + 2 * w - PAGE;
    }
  }

  lemma Rotated(j: nat, e: nat, w: nat)
    requires j < PAGE && e < PAGE && e % 2 == 0 && 2 * w < PAGE
    ensures (j + PAGE - e) % PAGE == 2 * w <==> j == (e + 2 * w) % PAGE
    ensures (j + PAGE - e) % PAGE == 2 * w + 1 <==> j == (e + 2 * w) % PAGE + 1
  {
  }

  lemma BufferMore(base: nat, done: seq<byte>, c: nat, w: nat, lo: byte, hi: byte, j: nat)
    requires 2 * w < PAGE && |done| == c * PAGE + 2 * w && j < PAGE
    ensures var e := FirstOffset(base + |done|);
            BufferByte(base, done + [lo, hi], c, j) ==
            if j == e then lo else if j == e + 1 then hi else BufferByte(base, done, c, j)
  {
    OffsetAfter(base, c, w);
    Rotated(j, FirstOffset(base), w);
    hide FirstOffset;
  }

  lemma EarlierPage(base: nat, done: seq<byte>, more: seq<byte>, c: nat, i: nat)
    requires base / PAGE <= i / PAGE < base / PAGE + c && c * PAGE <= |done| && done <= more
    ensures ProgrammedByte(base, more, i) == ProgrammedByte(base, done, i)
  {
    assert SourceOf(base, i) < c * PAGE;
  }

  lemma PagesOf(base: nat, c: nat, w: nat)
    requires 2 * w <= PAGE
    ensures (base + c * PAGE) / PAGE == base / PAGE + c
    ensures w > 0 ==> PagesFor(c * PAGE + 2 * w) == c + 1
  {
  }

  lemma TouchedBy(base: nat, c: nat, w: nat, i: nat)
    requires 0 < 2 * w <= PAGE
    ensures PageTouched(base, c * PAGE + 2 * w, i) <==> base / PAGE <= i / PAGE <= base / PAGE + c
  {
    PagesOf(base, c, w);
  }

  lemma BufferIsPage(base: nat, done: seq<byte>, c: nat, i: nat)
    requires i / PAGE == base / PAGE + c
    ensures ProgrammedByte(base, done, i) == BufferByte(base, done, c, i % PAGE)
  {
  }

  lemma BufferEmpty(base: nat, done: seq<byte>, c: nat, j: nat)
    requires |done| == c * PAGE
    ensures BufferByte(base, done, c, j) == 0xFF
  {
  }

  lemma DeliversNothing(p: Pipe)
    ensures Delivers(p, []) && AfterWords(p, 0) == p
  {
  }
}
