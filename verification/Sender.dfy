/** The sending half of the client: which message the main loop may send next. */
module Sender {
  import opened Bytes
  import Hextile
  import opened Receiver

  datatype Key = NoKey | KeyA | KeyB | KeyC

  datatype Message =
    | VersionMessage
    | AuthWord
    | ClientInit
    | PixelFormat
    | EncodingTypes
    | FullRefresh
    | PartialRefresh
    | KeyPress(key: Key)

  const VERSION_MESSAGE: seq<byte> :=
    [0x52, 0x46, 0x42, 0x20, 0x30, 0x30, 0x33, 0x2E, 0x30, 0x30, 0x33, 0x0A]

  const AUTH_WORD: seq<byte> :=
    [0x54, 0x44, 0xC7, 0x4E, 0xDE, 0xDC, 0x8C, 0xDF, 0x97, 0xB6, 0x51, 0x93, 0x04, 0xD9, 0x9E, 0x90]

  const PIXEL_FORMAT_MESSAGE: seq<byte> :=
    [0x00, 0, 0, 0, 16, 16, 0, 1, 0x00, 0x1F, 0x00, 0x3F, 0x00, 0x1F, 11, 5, 0, 0, 0, 0]

  const ENCODING_TYPE_MESSAGE: seq<byte> := [2, 0, 0, 2, 0, 0, 0, 1, 0, 0, 0, 5]

  const REFRESH_MESSAGE: seq<byte> := [0x03, 0x01, 0, 0, 0, 0, 0, 128, 0, 160]

  /** The letter the source sends for each button: 'a' asks for r, 'b' for a and 'c' for b. */
  function KeyLetter(k: Key): byte
  {
    match k
    case KeyA => 0x72
    case KeyB => 0x61
    case _ => 0x62
  }

  function MessageBytes(m: Message): seq<byte>
  {
    match m
    case VersionMessage => VERSION_MESSAGE
    case AuthWord => AUTH_WORD
    case ClientInit => [0]
    case PixelFormat => PIXEL_FORMAT_MESSAGE
    case EncodingTypes => ENCODING_TYPE_MESSAGE
    case FullRefresh => REFRESH_MESSAGE[1 := 0]
    case PartialRefresh => REFRESH_MESSAGE
    case KeyPress(k) => [0x04, 0x01, 0, 0, 0, 0, 0, KeyLetter(k)]
  }

  // ----- What a server reads -----

  /** The messages of RFC 6143, section 7.5, that the client uses. */
  datatype ClientMessage =
    | SetPixelFormat(bitsPerPixel: nat, depth: nat, bigEndian: bool, trueColour: bool,
                     redMax: nat, greenMax: nat, blueMax: nat, redShift: nat, greenShift: nat, blueShift: nat)
    | SetEncodings(encodings: seq<nat>)
    | UpdateRequest(incremental: bool, x: nat, y: nat, w: nat, h: nat)
    | KeyEvent(down: bool, key: nat)

  datatype Reading = Reading(message: ClientMessage, used: nat)

  function ReadEncodings(b: seq<byte>, i: nat, n: nat): seq<nat>
    requires i + 4 * n <= |b|
    decreases n
  {
    if n == 0 then [] else [Long(b, i)] + ReadEncodings(b, i + 4, n - 1)
  }

  /** Sections 7.5.1 to 7.5.4. */
  function ReadMessage(b: seq<byte>): (r: Option<Reading>)
    ensures r.Some? ==> 0 < r.value.used <= |b|
  {
    if |b| < 4 then None
    else if b[0] == 0 then
      if |b| < 20 then None
      else
        Some(Reading(SetPixelFormat(b[4], b[5], b[6] != 0, b[7] != 0, Word(b[8], b[9]), Word(b[10], b[11]),
                                    Word(b[12], b[13]), b[14], b[15], b[16]),
                     20))
    else if b[0] == 2 then
      var n := Word(b[2], b[3]);
      if |b| < 4 + 4 * n then None else Some(Reading(SetEncodings(ReadEncodings(b, 4, n)), 4 + 4 * n))
    else if b[0] == 3 then
      if |b| < 10 then None
      else
        Some(Reading(UpdateRequest(b[1] != 0, Word(b[2], b[3]), Word(b[4], b[5]), Word(b[6], b[7]), Word(b[8], b[9])),
                     10))
    else if b[0] == 4 then
      if |b| < 8 then None else Some(Reading(KeyEvent(b[1] != 0, Long(b, 4)), 8))
    else None
  }

  /** The messages that open a connection are bare bytes: the version, the answer to the challenge, and
      the flag that asks for the desktop alone. */
  lemma OpeningBytes(i: nat)
    ensures |MessageBytes(VersionMessage)| == 12 == |"RFB 003.003\n"|
    ensures i < 12 ==> MessageBytes(VersionMessage)[i] == "RFB 003.003\n"[i] as int
    ensures MessageBytes(AuthWord)[..8] == [0x54, 0x44, 0xC7, 0x4E, 0xDE, 0xDC, 0x8C, 0xDF]
    ensures MessageBytes(AuthWord)[8..] == [0x97, 0xB6, 0x51, 0x93, 0x04, 0xD9, 0x9E, 0x90]
    ensures MessageBytes(ClientInit) == [0]
  {
  }

  /** What the other messages mean. */
  predicate Means(m: Message, c: ClientMessage)
  {
    match m
    case PixelFormat => c == SetPixelFormat(16, 16, false, true, 31, 63, 31, 11, 5, 0)
    case EncodingTypes => c == SetEncodings([1, 5])
    case FullRefresh => c == UpdateRequest(false, 0, 0, Hextile.SCREEN_WIDTH, Hextile.SCREEN_HEIGHT)
    case PartialRefresh => c == UpdateRequest(true, 0, 0, Hextile.SCREEN_WIDTH, Hextile.SCREEN_HEIGHT)
    case KeyPress(KeyA) => c == KeyEvent(true, 'r' as nat)
    case KeyPress(KeyB) => c == KeyEvent(true, 'a' as nat)
    case KeyPress(KeyC) => c == KeyEvent(true, 'b' as nat)
    case _ => false
  }

  /** A message of the time after the opening's bare bytes. */
  predicate Typed(m: Message)
  {
    !m.VersionMessage? && !m.AuthWord? && !m.ClientInit? && m != KeyPress(NoKey)
  }

  lemma ReadsEncodings(b: seq<byte>)
    requires |b| == 12 && b[..4] == [2, 0, 0, 2]
    ensures ReadMessage(b) == Some(Reading(SetEncodings([Long(b, 4), Long(b, 8)]), 12))
  {
    assert b[..4][0] == b[0] && b[..4][2] == b[2] && b[..4][3] == b[3];
    assert ReadEncodings(b, 12, 0) == [];
    assert ReadEncodings(b, 8, 1) == [Long(b, 8)];
    assert ReadEncodings(b, 4, 2) == [Long(b, 4), Long(b, 8)];
  }

  lemma ReadsPixelFormat()
    ensures ReadMessage(PIXEL_FORMAT_MESSAGE) ==
            Some(Reading(SetPixelFormat(16, 16, false, true, 31, 63, 31, 11, 5, 0), 20))
  {
    hide ReadEncodings, Long;
  }

  lemma ReadsRequest(incremental: byte)
    ensures ReadMessage(REFRESH_MESSAGE[1 := incremental]) ==
            Some(Reading(UpdateRequest(incremental != 0, 0, 0, 128, 160), 10))
  {
    hide ReadEncodings, Long;
  }

  lemma ReadsKey(letter: byte)
    ensures ReadMessage([0x04, 0x01, 0, 0, 0, 0, 0, letter]) == Some(Reading(KeyEvent(true, letter), 8))
  {
    hide ReadEncodings;
  }

  /** The client's messages mean what they should. */
  lemma ReadsAlone(m: Message)
    requires Typed(m)
    ensures var r := ReadMessage(MessageBytes(m));
            r.Some? && Means(m, r.value.message) && r.value.used == |MessageBytes(m)|
  {
    hide ReadMessage;
    match m
    case PixelFormat => ReadsPixelFormat();
    case EncodingTypes =>
      ReadsEncodings(ENCODING_TYPE_MESSAGE);
    case FullRefresh => ReadsRequest(0);
    case PartialRefresh =>
      assert REFRESH_MESSAGE[1 := 1] == REFRESH_MESSAGE;
      ReadsRequest(1);
    case KeyPress(k) => ReadsKey(KeyLetter(k));
  }

  lemma LongLocal(a: seq<byte>, b: seq<byte>, i: nat)
    requires i + 4 <= |a|
    ensures Long(a + b, i) == Long(a, i)
  {
  }

  lemma {:induction false} EncodingsLocal(a: seq<byte>, b: seq<byte>, i: nat, n: nat)
    requires i + 4 * n <= |a|
    ensures ReadEncodings(a + b, i, n) == ReadEncodings(a, i, n)
    decreases n
  {
    hide Long;
    if n > 0 {
      LongLocal(a, b, i);
      EncodingsLocal(a, b, i + 4, n - 1);
    }
  }

  /** What follows a message does not change its meaning. */
  lemma ReadLocal(a: seq<byte>, b: seq<byte>)
    requires ReadMessage(a).Some?
    ensures ReadMessage(a + b) == ReadMessage(a)
  {
    hide ReadEncodings;
    if a[0] == 2 {
      EncodingsLocal(a, b, 4, Word(a[2], a[3]));
    }
  }

  function Wire(messages: seq<Message>): seq<byte>
  {
    if messages == [] then [] else MessageBytes(messages[0]) + Wire(messages[1..])
  }

  /** What a server makes of a stream, message after message. */
  function ReadAll(b: seq<byte>): seq<ClientMessage>
    decreases |b|
  {
    var r := ReadMessage(b);
    if r.None? then [] else [r.value.message] + ReadAll(b[r.value.used..])
  }

  lemma ReadsNothing()
    ensures ReadMessage([]).None?
  {
  }

  /** A server that reads what the client has sent one after the other gets all of it, in order and
      with its meaning. */
  lemma {:induction false} ReadsAll(messages: seq<Message>)
    requires forall i :: 0 <= i < |messages| ==> Typed(messages[i])
    ensures var r := ReadAll(Wire(messages));
            |r| == |messages| && forall i :: 0 <= i < |messages| ==> Means(messages[i], r[i])
    decreases |messages|
  {
    hide ReadMessage, MessageBytes, Means;
    if messages != [] {
      var b, rest := MessageBytes(messages[0]), Wire(messages[1..]);
      ReadsAlone(messages[0]);
      ReadLocal(b, rest);
      DropPrefix(b, rest);
      ReadsAll(messages[1..]);
    } else {
      ReadsNothing();
    }
  }

  // ----- Which message comes next -----

  /** The next message for a receive phase, if there is one. */
  function Next(send: SendState, phase: Phase, key: Key): Option<Message>
  {
    match send
    case SendInit => if phase.Order() > NotConnected.Order() then Some(VersionMessage) else None
    case VersionSent => if phase.Order() > WaitAuthWord.Order() then Some(AuthWord) else None
    case AuthWordSent => if phase.Order() > WaitAuthResponse.Order() then Some(ClientInit) else None
    case ClientInitSent => if phase.Order() > WaitServerName.Order() then Some(PixelFormat) else None
    case PixelFormatSent => if phase.Order() > WaitServerName.Order() then Some(EncodingTypes) else None
    case EncodingsSent => if phase.Order() > WaitServerName.Order() then Some(FullRefresh) else None
    case RefreshSent =>
      if phase != ConnectedRefresh then None
      else if key != NoKey then Some(KeyPress(key))
      else Some(PartialRefresh)
  }

  function AfterSending(send: SendState): SendState
  {
    match send
    case SendInit => VersionSent
    case VersionSent => AuthWordSent
    case AuthWordSent => ClientInitSent
    case ClientInitSent => PixelFormatSent
    case PixelFormatSent => EncodingsSent
    case EncodingsSent => RefreshSent
    case RefreshSent => RefreshSent
  }

  /** Nothing is ever sent after a refused authentication or an unknown message. */
  lemma SilentWhenOver(send: SendState, key: Key)
    ensures Next(send, Dead, key).None? && Next(send, AuthFailed, key).None? && Next(send, NotConnected, key).None?
  {
  }

  /** Whenever an update has just been finished, something is sent. */
  lemma SpeaksAfterUpdate(send: SendState, key: Key)
    ensures Next(send, ConnectedRefresh, key).Some?
  {
  }
}
