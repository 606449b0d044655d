# microVNC display: model and proofs

A small USB display shows a VNC server's desktop. Its firmware parses the RFB 3.3 protocol
(RFC 6143) out of a 200-byte buffer and paints a 128 x 160 SPI panel. Around it the repository keeps
a second hextile decoder that reads a rectangle from a file, the interrupt-driven UART, a software
USB driver with a write/read test device, and a DFU bootloader. This project models these in Dafny
and proves what they are for.

`dafny verify dfyconfig.toml` checks everything.

## How the model is laid out

| file | what it holds |
|---|---|
| Bytes.dfy | bytes, 16-bit words, sequence lemmas |
| Panel.dfy | the panel as the controller sees it, and the driver `SpiLcd` that emits its commands |
| Hextile.dfy | abstract tiles, the meaning RFC 6143 gives them, the tile grid, the wire encoding; no decoder |
| Receiver.dfy | the three nested parser machines as one machine of smallest steps: `Step`, `Call`, `Run` |
| Picture.dfy, Streams.dfy | what `Run` makes of an encoded tile, rectangle, update, session |
| Sender.dfy | the sending machine, and a reader of client messages after RFC 6143, section 7.5 |
| VncClient.dfy | vnc.c as a class: its statics are fields, its functions methods with their loops |
| MainLoop.dfy | the loop of main.c over the 200-byte buffer, as a function of a turn and as a class |
| KeyEvents.dfy | what the client says over whole runs: requests, key events and the presses they stand for |
| Handshake.dfy | client and server as one system with bytes in flight both ways |
| Reset.dfy | two runs against each other: after a reset, and after power-on |
| Reconnect.dfy | which sessions show no trace of the connection before, as a condition on their tiles |
| TileFile.dfy, TileDecoder.dfy | the second decoder: its function, and hextile.c with its file driver as a class |
| Agreement.dfy | the two decoders against each other, tile by tile and picture by picture |
| UartTransmit.dfy, UartReceive.dfy | the two UART rings, statement by statement, under all interleavings |
| UsbControl.dfy | control transfers, and usbdrv.c with the test device as a class |
| DfuFlash.dfy | packet stream to paged flash and back, as a class |

The chain for the main component is: the class `VncClient` does in one call exactly what `Call` says
(`ProcessVncBuffer`), a `Call` is a stretch of a `Run` (`CallInRun`), a `Run` may be split anywhere
(`RunSplit`), and a `Run` over an encoded session leaves the picture RFC 6143 defines
(`RunSession`, `RectanglePicture`). `AnySession` puts the four together for every portioning of the
stream by the main loop.

`Rx` keeps every static of the parser, stale ones included. Integer widths are those of the AVR: 16-bit
`int`, 32-bit `long`, bytes for tile extents; sums, the doubling of pixel counts and the sign extension
of the factors of raw rectangles and raw tiles wrap as in the source. The second decoder's loops compare
signed 16-bit `int`s (`Signed`): a side or a corner of 32768 or more is negative there. `Defined` says when
every sum those loops compute stays within `int`; a rectangle where one does not has no meaning in C and is
left out.

## Properties that hold only under a condition

Each of these has its exact condition as a lemma.

* A tile is drawn as soon as its last byte is there unless it announces subrectangles and has none, or is
  a raw tile smaller than the colour fields it pretends to have: the header waits for two bytes where
  the subrectangle count is one (`TileNeedsNoMore`).
* The pixel count of a raw rectangle is its area unless a side of 32768 or more is multiplied: the factors are
  sign-extended (`RawCountExact`).
* The client gets to its full refresh request, after every run, if and only if the server accepts it, the
  server's name fits the 200-byte buffer, and fewer than four bytes of other messages come between the
  server's initialisation and the request (`RefreshExactly`); against any other server there is a run behind
  which nothing that can happen leads to the request (`UnsuitedNeverAsks`). RFC 6143 (section 7.6) allows a Bell or a cut
  text there; a cut text of one letter stops the client for good (`EarlyCutText`, `SilentOnceOver`).
* After a reset a session sends the same messages and shows the same panel, turn by turn and on every
  schedule, as after power-on, if its first tile that is not raw sends a background and every tile with
  subrectangles in the foreground colour has one sent in it or before it (`SessionAfterReset`). What the panel
  shows at the end of each tile is the same after every reset if and only if no tile on the screen shows a colour that
  the session has not sent (`ResetShowsExactly`); a session that does shows the colour of the connection
  before (`StaleBackgroundShows`).
* The file decoder stores the colour of a coloured subrectangle in its foreground register, the streaming one
  does not, and the streaming one drops a tile that is not wholly on the screen, the file one paints what can
  be seen of it. From any two states they draw the same tiles if and only if at every tile they get the same of
  the two carried colours that the tile shows (`DecodersAgree`, `StaleForeground`). They leave the same visible
  picture on every panel if and only if that holds at every visible tile and no tile straddles the edge of the
  screen (`PicturesExact`, `StraddlingTile`, `BothDecoders`). It holds for every rectangle on the screen that
  sends its background in its first tile that is not raw, and its foregrounds, and these again behind coloured
  tiles (`SelfContainedSame`).
* The file driver ends if and only if the file holds whole tiles of the rectangle and nothing more, and none is
  longer than a full raw tile (`DriverExact`); on a serialised rectangle, if and only if no tile is longer than a
  full raw tile, which holds for raw ones (`RawTileFits`), and both sides are below 32768
  (`DriverOnRectangle`). Otherwise it offers the same window for ever (`StuckForGood`, `NeverStarts`).
* A one-byte pixel of the file decoder keeps its red and green, but its blue is shifted up instead of down and
  merged into green: the panel's pixel has blue in its place if and only if there is none (`ColoursGoTo`).
* The receive ring holds seven unread bytes, eight while one is being taken out; one more is lost
  (`InOrder`, `NinthOverwrites`, `EighthHides`).
* A test write reads back if and only if it has at most 230 bytes (`WriteThenRead`); one of no bytes is never
  answered (`StatusStage`).
* Programming moves whole words: the last byte of an odd payload is dropped, with the suffix of a DFU file as
  without, and a full 64K bank moves nothing (`WordsExact`, `OddPayload`). What is programmed reads back,
  whatever it is, if and only if the range begins a page or lies within one, on an even address
  (`ReadsBackExactly`): the source counts a page from the start address, so that the words past the end of a
  page go to its beginning. A start that is no multiple of the endpoint size leaves one alignment byte in
  front of the payload (`AlignmentLeavesOne`). Otherwise a payload comes back if and only if its length is even
  (`RoundTrip`).

## Model

| member | source | states |
|---|---|---|
| Panels.PartialTile | LCD Test/SpiLcd.c:270-306 | after any number of pixels of a tile, however the writes were interrupted, exactly the cells before the cursor hold their pixels and the cursor is on the next |
| Panels.WholeTile | LCD Test/SpiLcd.c:270-320 | a tile written in whatever portions changes exactly its own pixels, to its own colours |
| Panels.AddressCommand | LCD Test/SpiLcd.c:276-291 | the five transfers of an address command set one range and leave the rest of the controller alone |
| Panels.SpiLcd.WritePixel | LCD Test/SpiLcd.c:261-264 | the two bytes emitted put one pixel at the controller's cursor |
| Panels.SpiLcd.SetupTile | LCD Test/SpiLcd.c:270-295 | the eleven transfers emitted, in bytes, open the tile as the write window, wherever the panel stood |
| Panels.SpiLcd.DrawRawTile | LCD Test/SpiLcd.c:297-306 | the bytes emitted put the buffer's pixels one after the other |
| Panels.SpiLcd.DrawHextile | LCD Test/SpiLcd.c:308-320 | the bytes emitted put the top-left cells of the tile buffer in row-major order |
| Panels.TileCellAt | LCD Test/SpiLcd.c:308-320 | the pixel streamed for column i, row j is the buffer's cell (i, j) |
| Hextile.GridPartition | LCD Test/vnc.c:244-284 | each pixel of a rectangle lies in exactly one grid tile, tiles stay inside and are 1 to 16 wide and high |
| Hextile.TilePixelsAt | LCD Test/vnc.c:408-483 | pixel by pixel, a tile's pixels are the colours of section 7.7.4 of RFC 6143 |
| Hextile.CellsAreColours | LCD Test/vnc.c:452-480 | a tile buffer with the right colour in each cell streams the tile's pixels |
| Hextile.TilePicture | LCD Test/vnc.c:469-483 | a drawn tile changes exactly its own pixels, and only if it lies wholly in the window |
| Hextile.PictureOutside | LCD Test/vnc.c:244-284 | outside its rectangle a list of tiles changes nothing |
| Hextile.RectanglePicture | LCD Test/vnc.c:219-490 | a whole hextile rectangle, pixel by pixel: the section 7.7.4 colour with carried colours where the tile is wholly in the window, no change anywhere else |
| Hextile.ColourOfCell | LCD Test/vnc.c:408-463 | a cell shows the background, the foreground or neither, by whether a subrectangle covers it |
| Hextile.SamePixels | LCD Test/vnc.c:332-483 | a tile has the same pixels from two carries if and only if it gets the same of the colours that it shows |
| Hextile.TileAt | LCD Test/vnc.c:244-284 | the k-th tile of a rectangle has the shape of the k-th grid cell in row-major order |
| Hextile.GridCount | LCD Test/vnc.c:260-284 | a rectangle has as many tiles as its grid has cells |
| Hextile.PixelsOfEncoded | LCD Test/SpiLcd.c:297-306 | the pixel loop reads back, low byte first, exactly the pixels that a raw tile sends |
| Hextile.TileBytes | RFBFileTest/hextile.h:14-18 | which bit of the subencoding byte announces which field, and the order and byte order of the fields |
| Hextile.SubrectBytes | RFBFileTest/hextile.h:20-25 | a subrectangle is its colour, if there is one, then position and size as nibbles, x and width high |
| Receiver.Step | LCD Test/vnc.c:602-754 | a step that consumes nothing lowers a rank, so that no buffer keeps the machines turning for ever, whatever its bytes |
| Receiver.StepStable | LCD Test/vnc.c:219-598 | more data never changes a step that did not have to wait |
| Receiver.WaitHarmless | LCD Test/vnc.c:286-311 | waiting changes nothing that the next step reads |
| Receiver.RunSplit | LCD Test/vnc.c:757-775 | a stream may be split anywhere: the run of the whole is the run of the rest, behind what was left over, from where the first part stopped |
| Receiver.CallInRun | LCD Test/vnc.c:757-775 | a call is a stretch of the run; one that pauses has used bytes or lowered the rank |
| Receiver.BoundedResidue | LCD Test/vnc.c:506-513 | at rest at most 23 bytes are left over, fewer than the name while waiting for it, and at most 11 once connected |
| Picture.PaintedAllCell | LCD Test/vnc.c:408-463 | painting subrectangles in order gives each cell the colour of the last one that covers it |
| Picture.PackedNibbles | LCD Test/vnc.c:445-449 | the position and size nibbles are read as they were packed |
| Picture.RunDrawRaw | LCD Test/vnc.c:386-406 | raw pixels, however they arrive, are put on the panel one after the other |
| Picture.RunDrop | LCD Test/vnc.c:173-194 | dropped pixels are consumed exactly and leave no trace |
| Picture.RunSubrects | LCD Test/vnc.c:408-467 | encoded subrectangles are consumed exactly and painted in order, from any one on |
| Picture.RunTile | LCD Test/vnc.c:286-483 | one encoded tile, raw or coded, in the window or not, is consumed exactly and painted as the standard says |
| Picture.TileNeedsNoMore | LCD Test/vnc.c:294-311 | exactly which tiles are drawn without a byte of the next one |
| Streams.FirstTile | LCD Test/vnc.c:244-258 | the walk starts on the first grid cell |
| Streams.NextTile | LCD Test/vnc.c:260-284 | the 16-bit stepping visits the grid in row-major order and stops behind its last cell |
| Streams.RunTiles | LCD Test/vnc.c:219-490 | the tiles of a rectangle from any one on are consumed to the last byte and shown |
| Streams.RawCountExact | LCD Test/vnc.c:534-544 | exactly for which sizes the 16-bit signed factors multiply to the area |
| Streams.RunRectangle | LCD Test/vnc.c:499-598 | a raw, CopyRect or hextile rectangle is consumed exactly and shown exactly |
| Streams.RunUpdate | LCD Test/vnc.c:715-748 | a complete update is consumed to its last byte and none of what follows, with no rectangle left to do and a refresh due |
| Streams.RunGreeting | LCD Test/vnc.c:606-713 | the server's greeting, with or without VNC authentication, is consumed exactly |
| Streams.RunSession | LCD Test/vnc.c:602-754 | a whole session is consumed to its last byte and leaves the picture of its updates |
| Streams.ForeignRectangle | LCD Test/vnc.c:502-529 | a rectangle in an encoding that was not asked for is never used up: every call counts one rectangle less until the update is over, and then its header is read as the next message, as an update of y rectangles if x is below 256 and as the end of the connection otherwise |
| Streams.HeadersSpelt | LCD Test/vnc.c:715-732 | byte by byte, the headers of an update and of a rectangle |
| Sender.SilentWhenOver | LCD Test/vnc.c:778-883 | nothing is sent after a refused authentication or an unknown message |
| Sender.SpeaksAfterUpdate | LCD Test/vnc.c:846-873 | whenever an update has just been finished something is sent |
| Sender.OpeningBytes | LCD Test/vnc.c:90-98 | the version, the answer to the challenge and the exclusive flag, byte for byte |
| Sender.ReadsAlone | LCD Test/vnc.c:100-116 | read as section 7.5 of RFC 6143 says, the requests are a full and an incremental one for the whole screen, the key events press the letters r, a and b, the pixel format is 16-bit 5-6-5 with the low byte first, and the encodings are CopyRect and hextile |
| Sender.ReadLocal | LCD Test/vnc.c:778-883 | what follows a message does not change its meaning |
| Sender.ReadsAll | LCD Test/vnc.c:778-883 | a server that reads the client's messages one after the other from the byte stream gets all of them, in order and with their meaning |
| VncClients.CallDrop | LCD Test/vnc.c:173-194 | dropping pixels in bulk is dropping them one at a time |
| VncClients.CallDraw | LCD Test/vnc.c:386-406 | drawing pixels in bulk is drawing them one at a time |
| VncClients.Horner | LCD Test/vnc.c:664-671 | four bytes shifted in one after the other are the big-endian length |
| VncClients.Doubled | LCD Test/vnc.c:176-191 | doubling in 32 bits forgets the top bit of the pixel count |
| VncClients.VncClient.ResetSystem | LCD Test/vnc.c:164-168 | two statics are set and nothing else changes |
| VncClients.VncClient.DropOutOfViewPixels | LCD Test/vnc.c:173-194 | as many of the pixels as there are go, and the rest of the call is unchanged by it |
| VncClients.VncClient.FillBackground | LCD Test/vnc.c:357-367 | every cell of the tile buffer gets the background |
| VncClients.VncClient.PaintSubrect | LCD Test/vnc.c:452-460 | exactly the subrectangle's cells change, both ends included |
| VncClients.VncClient.StartTile | LCD Test/vnc.c:244-258 | the first step of the tile machine |
| VncClients.VncClient.AdvanceTile | LCD Test/vnc.c:260-284 | the step behind a tile, and whether it was the last |
| VncClients.VncClient.ParseTileHeader | LCD Test/vnc.c:286-371 | all or nothing of a tile header, raw or not, whatever the size of the tile |
| VncClients.VncClient.DrawRawPixels | LCD Test/vnc.c:386-406 | a portion of a raw tile in the window |
| VncClients.VncClient.DropRawPixels | LCD Test/vnc.c:373-383 | a portion of a raw tile outside it |
| VncClients.VncClient.ReadSubrect | LCD Test/vnc.c:412-462 | one subrectangle, or nothing if it is not all there; as the reference says unless it leaves the tile buffer |
| VncClients.VncClient.FillTileBuffer | LCD Test/vnc.c:408-467 | as many subrectangles as there are; as the reference says unless one leaves the tile buffer |
| VncClients.VncClient.ShowTile | LCD Test/vnc.c:469-483 | the tile buffer to the panel, or the tile dropped; as the reference says unless a tile on the screen is wider or higher than the tile buffer |
| VncClients.VncClient.ProcessHextile | LCD Test/vnc.c:219-490 | one turn of the tile machine ends on any bytes, leaves what the whole call will do unchanged unless that leaves the tile buffer, and uses bytes or lowers the rank |
| VncClients.VncClient.ReadRectangleHeader | LCD Test/vnc.c:511-568 | the header of a rectangle, or its refusal |
| VncClients.VncClient.ProcessCopyRect | LCD Test/vnc.c:198-210 | the four bytes of a CopyRect body, or nothing |
| VncClients.VncClient.PixelProcessor | LCD Test/vnc.c:499-598 | one turn of the rectangle machine, in the same sense |
| VncClients.VncClient.StateMachine | LCD Test/vnc.c:602-754 | one turn of the protocol machine, in the same sense, with the source's result |
| VncClients.VncClient.ProcessVncBuffer | LCD Test/vnc.c:757-775 | the three nested loops end, on any bytes from any state, with the result of the source; the state, the panel, the send state and the remainder are exactly those of the reference call unless a tile leaves the tile buffer, and the unused bytes are the end of the buffer |
| MainLoop.OverForGood | LCD Test/main.c:110-135 | once the connection was refused or an unknown message came, a turn on any bytes at all goes astray, keeps the receiver and the send state and sends nothing |
| MainLoop.OnlyOverFails | LCD Test/vnc.c:602-754 | a call has a negative result exactly when it ends in one of those two states without having refused a message itself |
| MainLoop.TurnInRun | LCD Test/main.c:92-127 | one turn is a stretch of the run over whatever is still to come |
| MainLoop.OnTheRun | LCD Test/main.c:92-127 | at any moment of any schedule the loop stands on the run over all it has been given |
| MainLoop.AnyChunking | LCD Test/main.c:92-127 | at rest the parser's statics, the remainder and the panel are those of one run over the delivered bytes, whatever the portions |
| MainLoop.SameBytesSameEnd | LCD Test/main.c:92-127 | two schedules that deliver the same bytes end the same |
| MainLoop.ComesToRest | LCD Test/main.c:92-127 | left without data the loop comes to rest, on the same run |
| MainLoop.RoomForMore | LCD Test/main.c:94-127 | at rest the buffer has room unless a name longer than the buffer is awaited |
| MainLoop.LongNameNeverPasses | LCD Test/vnc.c:686-709 | with a longer name no schedule ever gets past it |
| MainLoop.ShortNamePasses | LCD Test/vnc.c:686-713 | with any other name its last byte gets past it |
| MainLoop.AnySession | LCD Test/main.c:92-127 | every schedule over a well-formed session keeps the loop going and, when all is delivered and at rest, leaves an empty buffer and the session's picture |
| MainLoop.OneUpdateAtATime | LCD Test/vnc.c:746-748 | a call begins at most one update and ends inside it or right behind it |
| MainLoop.SpeaksBetweenUpdates | LCD Test/main.c:110-135 | the turn that finishes an update sends a message before any later byte is parsed |
| MainLoop.DisplayLoop.GetData | LCD Test/VncServerComms.c:209-220 | as many of the bytes at hand as fit go behind what is held |
| MainLoop.DisplayLoop.Compact | LCD Test/main.c:124-127 | the unused bytes go to the front of the buffer, in place |
| MainLoop.DisplayLoop.LoadResponseBuffer | LCD Test/vnc.c:778-883 | the next message, byte for byte, if its time has come, and the send state and key behind it; which message that is over a run is KeyEvents.SaidExactly and Handshake.AlwaysOrderly |
| MainLoop.DisplayLoop.Process | LCD Test/main.c:110-127 | the call and the copy: state, panel, send state and what is held are those of the reference call; with a negative result the copy is left out |
| MainLoop.DisplayLoop.Iteration | LCD Test/main.c:92-146 | one turn of the loop, on any state and any bytes, does what the turn function says and sends the bytes of its message, also when the copy goes astray |
| MainLoop.DisplayLoop.TurnAstray | LCD Test/main.c:110-135 | a turn on whatever memory then holds changes neither receiver nor send state and sends nothing |
| KeyEvents.SaidExactly | LCD Test/vnc.c:846-873 | in every run from power-on, over any number of connections: once the full request is out a turn says something exactly when it leaves the receiver right behind an update; it is a key event if and only if a button was pressed since the last key event, for the button pressed last, and otherwise the incremental request; before the full request it is neither |
| KeyEvents.ReadExactly | LCD Test/vnc.c:846-873 | and what a server reads then is that button's letter going down, or an incremental request for the whole screen |
| KeyEvents.SentOnce | LCD Test/vnc.c:856-867 | two key events are for two presses, the later for the later |
| KeyEvents.PressesCover | LCD Test/vnc.c:856-867 | at any moment there have been at least as many presses as key events, and one more if a button is still to be sent |
| KeyEvents.ButtonsUntouched | LCD Test/vnc.c:868-873 | without presses every message behind the full request is the incremental request |
| Handshake.FollowsStep | LCD Test/vnc.c:602-754 | the receiver's phase always says how much of the server's stream it has used |
| Handshake.PhaseBound | LCD Test/vnc.c:778-883 | from each phase and send state the next message is the next of the opening, and none once the connection is over |
| Handshake.TurnKeeps | LCD Test/main.c:92-146 | a turn of the client keeps the system's invariant |
| Handshake.ActionKeeps | LCD Test/main.c:92-146 | whatever the server or the client does keeps it |
| Handshake.AlwaysOrderly | LCD Test/vnc.c:778-883 | in every run the client's output is a prefix of what goes with the server: its version only for an unknown security type; version and auth word for a refused response; else version, auth word with VNC authentication only, client-init, pixel format, encodings, full refresh, and then refreshes and keys |
| Handshake.SilentOnceOver | LCD Test/vnc.c:602-754 | once authentication has failed or an unknown message has come the client goes on having turns, on any bytes, and neither leaves that state nor sends anything |
| Handshake.CorruptLate | LCD Test/vnc.c:408-467 | no tile can leave the tile buffer before the full refresh was requested |
| Handshake.RoundProgress | LCD Test/vnc.c:602-883 | no deadlock: from every reachable undecided state a round of both parties comes strictly closer to the full refresh or the refusal |
| Handshake.ActionDistance | LCD Test/vnc.c:602-883 | nothing that can happen undoes progress |
| Handshake.AlwaysDecides | LCD Test/vnc.c:602-883 | from every reachable state the handshake is decided within its distance |
| Handshake.AcceptedGoesOn | LCD Test/vnc.c:602-754 | with fewer than four early bytes a client of an accepting server never gives up before its full refresh request |
| Handshake.AlwaysReachesRefresh | LCD Test/vnc.c:602-883 | against an accepting server whose name fits the buffer and that sends fewer than four early bytes, after any run the full refresh has been or will be requested |
| Handshake.LongNameNeverAsks | LCD Test/vnc.c:686-709 | in no run is a server with a longer name asked for an update |
| Handshake.EarlyDies | LCD Test/vnc.c:715-726 | early bytes that complete a header stop the client, whatever they are |
| Handshake.UnsuitedNeverAsks | LCD Test/vnc.c:602-883 | against a server that refuses, has a longer name, or sends four early bytes there is a run behind which nothing that can happen leads to the request |
| Handshake.RefreshExactly | LCD Test/vnc.c:602-883 | every run can be continued, by whatever can still happen, to the full refresh request if and only if the server is none of these |
| Handshake.EarlyCutText | LCD Test/vnc.c:721-726 | a cut text of one letter, sent while the client announces its encodings, ends the session before the request |
| Reset.StepAlike | LCD Test/vnc.c:219-598 | one step never tells apart two receivers that agree on what can still be read |
| Reset.CallAlike | LCD Test/vnc.c:757-775 | nor does a call |
| Reset.StreamAlike | LCD Test/main.c:92-146 | nor does any schedule: same messages, same panel, turn by turn |
| Reset.ResetIsBoot | LCD Test/main.c:96-104 | from any state, even in the middle of a tile, a reset followed by a schedule that uses no colour it has not sent is as good as power-on |
| Reconnect.SentSplit | LCD Test/vnc.c:757-775 | which colours a run uses and sends does not depend on how the stream is split |
| Reconnect.SentTile | LCD Test/vnc.c:294-467 | the receiver uses a colour that was not sent exactly if the tile relies on one |
| Reconnect.SentSession | LCD Test/vnc.c:602-754 | over a whole session it does so exactly if one of the tiles does |
| Reconnect.SessionSpecified | LCD Test/main.c:92-127 | on every schedule that delivers a part of a session whose tiles rely on sent colours only, no turn uses another |
| Reconnect.SessionAfterReset | LCD Test/main.c:96-104 | from any state a reset followed by such a session sends the same messages and shows the same panel, turn by turn, as after power-on |
| Reconnect.TileTells | LCD Test/vnc.c:332-483 | from two carries that agree exactly on what was sent, a tile on the screen leaves the same panel if and only if it shows nothing else |
| Reconnect.TilesTell | LCD Test/vnc.c:219-490 | so do all tiles of a rectangle, one after the other |
| Reconnect.SessionShows | LCD Test/vnc.c:602-754 | the run over a session up to the end of each tile leaves exactly the panel of that tile |
| Reconnect.ResetShowsExactly | LCD Test/vnc.c:164-168 | after every reset the receiver, given the session up to the end of any tile, shows what it shows after power-on, if and only if no tile on the screen shows a colour the session has not sent |
| Reconnect.StaleBackgroundShows | LCD Test/vnc.c:332-367 | behind a reset a session of one bare tile shows the background of the connection before, and black behind power-on |
| TileFile.RoundTrip | RFBFileTest/hextile.h:14-25 | serialising a tile and decoding it gives the tile and exactly its bytes, whatever follows |
| TileFile.LoopTest | RFBFileTest/hextile.c:97-103 | as long as the sums stay within int, the signed 16-bit tests and sizes of the loops are those of unbounded integers, also where a negative corner wraps to zero |
| TileFile.ParseLonger | RFBFileTest/hextile.c:105-184 | a tile that is all there is the same tile whatever follows it |
| TileFile.PartIsIncomplete | RFBFileTest/hextile.c:107-185 | no proper part of a tile is decoded |
| TileFile.PeekHarmless | RFBFileTest/hextile.c:144-160 | the colours an incomplete tile leaves in bg and fg change nothing when the tile is read again |
| TileFile.Resumes | RFBFileTest/hextile.c:97-108 | decoding a window and then the rest draws the same tiles in the same order as decoding all at once |
| TileFile.DecodeRectangle | RFBFileTest/hextile.c:86-230 | a serialised rectangle whose sums stay within int is consumed exactly and its tiles are drawn in row-major order |
| TileFile.FitAfterWindow | RFBFileTest/main.c:116-127 | after a window the tiles still to come fit exactly if they did before |
| TileFile.DriverExact | RFBFileTest/main.c:113-137 | the driver ends, with all tiles of the file drawn as by one call, if and only if the file holds whole tiles of the rectangle and nothing more, each of which fits a window |
| TileFile.DriverOnRectangle | RFBFileTest/main.c:113-137 | on a file that holds one serialised rectangle it ends if and only if no tile has more than 1 + 256 * depth bytes and no side is 32768 or more, with exactly the rectangle drawn |
| TileFile.NeverStarts | RFBFileTest/hextile.c:97-98 | with a side of 32768 or more no loop runs and no byte is ever used |
| TileFile.EncodedFits | RFBFileTest/hextile.h:11 | what fitting means for a serialised rectangle |
| TileFile.StuckForGood | RFBFileTest/main.c:116-127 | a window that yields nothing never will |
| TileFile.WindowHolds | RFBFileTest/hextile.h:11 | the window is one byte and 256 pixels |
| TileFile.RawTileFits | RFBFileTest/hextile.h:11 | a raw tile of up to 16 x 16 pixels has 1 + depth * w * h bytes, which is never more than that and for a full tile exactly that |
| TileFile.RawFileEnds | RFBFileTest/main.c:113-137 | on a file of raw tiles the driver never gets stuck and draws exactly the rectangle |
| TileFile.ColoursGoTo | RFBFileTest/SpiLcd.c:250-259 | red becomes bits 13 to 15 and green bits 8 to 10 of the panel's pixel, blue is merged into bits 9 and 10; blue is where the panel has it exactly when there is none |
| TileDecoders.TileDecoder.Setup | RFBFileTest/hextile.c:75-83 | the place goes to the corner of the rectangle, whose four fields are kept as the 16-bit patterns they are; the colours stay |
| TileDecoders.TileDecoder.FillSubRectangle | RFBFileTest/SpiLcd.c:339-346 | exactly the subrectangle's cells change |
| TileDecoders.TileDecoder.ShowPixel | RFBFileTest/SpiLcd.c:250-264 | the two bytes emitted put one pixel at the cursor, a one-byte colour expanded to 16 bits |
| TileDecoders.TileDecoder.DrawRawTile | RFBFileTest/SpiLcd.c:299-305 | the bytes emitted put the pixels of the buffer on the panel in order |
| TileDecoders.TileDecoder.DrawHextile | RFBFileTest/SpiLcd.c:317-325 | the bytes emitted put the tile buffer's top-left cells on the panel in row-major order |
| TileDecoders.TileDecoder.HandleRaw | RFBFileTest/hextile.c:127-142 | a raw tile is on the panel if all of it is there, and otherwise nothing changes |
| TileDecoders.TileDecoder.ReadColours | RFBFileTest/hextile.c:144-160 | the colours are read as far as they are there |
| TileDecoders.TileDecoder.PaintSubrects | RFBFileTest/hextile.c:200-220 | the tile buffer shows the subrectangles over the background, and fg ends as the last colour read |
| TileDecoders.TileDecoder.HandleCoded | RFBFileTest/hextile.c:143-225 | a coded tile is on the panel if all of it is there, and otherwise only bg and fg change |
| TileDecoders.TileDecoder.StepRow | RFBFileTest/hextile.c:97 | the step of the outer loop goes to the beginning of the next row |
| TileDecoders.TileDecoder.HandleHextile | RFBFileTest/hextile.c:86-230 | the nested loops over signed 16-bit ints, with their early returns, do what the decoding function says: the place, the tiles put on the panel, the bytes used |
| TileDecoders.TileDecoder.ShowFile | RFBFileTest/main.c:92-137 | the driver, header included, on any file, does what its function says, puts exactly its tiles on the panel, and is stuck exactly when the file is not whole tiles of the rectangle of at most 1 + 256 * depth bytes each |
| Agreement.StreamDrawsStandard | LCD Test/vnc.c:219-490 | the streaming receiver's run over a rectangle uses it up and leaves the panel of the standard's tiles drawn in order, those not wholly on the screen excepted |
| Agreement.DecodersAgree | RFBFileTest/hextile.c:86-230 | from any two states they draw a rectangle alike if and only if at every tile they get the same of the colours that it shows |
| Agreement.RespecifyingAgrees | RFBFileTest/hextile.c:205-208 | it holds when the background is sent first, or carried alike, and every uncoloured tile behind a coloured one sends its foreground |
| Agreement.FilePart | RFBFileTest/hextile.c:86-230 | pixel by pixel, what the file decoder leaves of a rectangle, on the screen or off it |
| Agreement.PicturesExact | RFBFileTest/hextile.c:86-230 | from any two states both decoders leave the same visible picture on every panel if and only if no visible tile straddles the edge of the screen and at every visible tile they get the same of the colours that it shows |
| Agreement.StraddlingTile | RFBFileTest/hextile.c:138 | a tile across the edge: the streaming decoder leaves its corner as it was, the file decoder paints it |
| Agreement.RespecifyingMeets | RFBFileTest/hextile.c:205-208 | the condition holds for a rectangle on the screen that sends its background first, unless both carry the same, and whose tiles send their foregrounds again behind coloured ones and, unless both carry the same, before |
| Agreement.BothDecoders | RFBFileTest/main.c:92-137 | one rectangle, as a message to the streaming decoder and as a file to the other, from any two states, is used up by both, and the condition decides whether the pictures are the same: enough on every panel, needed on one that shows nothing yet |
| Agreement.SelfContainedSame | RFBFileTest/main.c:92-137 | so a rectangle on the screen that sends its colours looks the same through both, whatever connection and whatever file went before |
| Agreement.StaleForeground | RFBFileTest/hextile.c:205-217 | two tiles on which they differ |
| UartTransmit.CallerKeeps | LCD Test/buffuart.c:104-124 | every statement of BuffUart_Transmit keeps each byte in exactly one place, in order, and the wakeup |
| UartTransmit.InterruptKeeps | LCD Test/buffuart.c:68-85 | so does the handler |
| UartTransmit.InOrderOnce | LCD Test/buffuart.c:68-124 | in every interleaving, also inside the read-modify-write of UCSR1B, the bytes at UDR1 are the first bytes transmitted, each once, at most 31 are queued, and a filled ring has its interrupt on outside the publish-to-enable gap |
| UartTransmit.StepWorks | LCD Test/buffuart.c:68-124 | each action changes nothing or uses up work |
| UartTransmit.SomeoneCanMove | LCD Test/buffuart.c:68-124 | while a byte is not out, the caller or the interrupt can act |
| UartTransmit.AllGetOut | LCD Test/buffuart.c:68-124 | from any reachable state, alternating turns bring every byte out |
| UartTransmit.InterruptSends | LCD Test/buffuart.c:68-85 | an interrupt sends the oldest queued byte and leaves the others, and on an empty ring turns itself off |
| UartTransmit.WaitsWhenFull | LCD Test/buffuart.c:111 | the caller waits for room exactly when 31 bytes are queued |
| UartTransmit.CallQueues | LCD Test/buffuart.c:104-124 | the statements of a call that finds room queue the next byte behind the others and leave the interrupt on |
| UartReceive.ArriveKeeps | LCD Test/buffuart.c:45-66 | a byte that arrives is stored behind the others and overwrites none |
| UartReceive.CallerKeeps | LCD Test/buffuart.c:89-101 | each statement of BuffUart_Receive keeps the ring and what has been returned a prefix of what was received |
| UartReceive.NonEmptyMeansData | LCD Test/buffuart.c:127-130 | between two calls the ring looks non-empty exactly when a byte is unread |
| UartReceive.InOrder | LCD Test/buffuart.c:45-101 | on every interleaving that never overfills the ring the returned bytes are those received, in order and without loss |
| UartReceive.ReturnsOldest | LCD Test/buffuart.c:89-101 | wherever a run that never overfilled the ring stands between two calls with a byte unread, three statements return the oldest unread byte, whatever arrives between them |
| UartReceive.ReturnsAll | LCD Test/buffuart.c:89-101 | and left alone the caller returns all that was received, with three statements a byte |
| UartReceive.NinthOverwrites | LCD Test/buffuart.c:58-65 | a ninth unread byte during a fetch is returned in place of the first |
| UartReceive.EighthHides | LCD Test/buffuart.c:53-62 | an eighth between two calls makes the ring look empty |
| UsbControl.ToggleTwice | libusbtest/firmware/usbdrv/usbdrv.c:533 | the data token alternates |
| UsbControl.PacketsShape | libusbtest/firmware/usbdrv/usbdrv.c:524-546 | a reply of m bytes leaves as m/8 full packets and a short one, tokens alternate, and the payloads are the reply |
| UsbControl.ReplyConserved | libusbtest/firmware/usbdrv/usbdrv.c:565-590 | whatever the order of polls and host requests, no packet of a reply is lost, repeated or reordered |
| UsbControl.ReplyComplete | libusbtest/firmware/usbdrv/usbdrv.c:565-590 | after as many rounds as it has packets the host has the whole reply |
| UsbControl.WriteStores | libusbtest/firmware/main.c:83-98 | however a test write is cut into packets and interleaved, the accepted part ends up in the buffer and nothing else changes there |
| UsbControl.OfferedFirst | libusbtest/firmware/usbdrv/usbdrv.c:473-482 | what a write has been answered with is what the host gets first |
| UsbControl.StatusStage | libusbtest/firmware/usbdrv/usbdrv.c:475-481 | a test write is answered, by an empty DATA1 packet, exactly when some packet has come and the packets hold all that is accepted |
| UsbControl.ReadBack | libusbtest/firmware/main.c:67-72 | a test read returns the buffer, cut to the length asked for |
| UsbControl.WriteThenRead | libusbtest/firmware/main.c:67-98 | writing data and reading as much gives it back if and only if it has at most 230 bytes |
| UsbControl.SetupTokens | libusbtest/firmware/usbdrv/usbdrv.c:443 | behind every request, in every state of the device and whatever happens, the packets the host gets have the tokens DATA1 (0x4B), DATA0 (0xC3), DATA1 and so on from the first |
| UsbControl.WriteBehindSetup | libusbtest/firmware/main.c:73-98 | behind the SETUP of a test write the accepted data (the low byte of wLength, at most 230) replaces the beginning of the buffer, and an empty packet with token 0x4B answers exactly when some packet has come and all of it is there |
| UsbControl.ReplyBytes | libusbtest/firmware/main.c:42-81 | in bytes, what the host gets for each other request: the four parameter bytes, the LED, the buffer, or nothing, cut to wLength if that has no high byte |
| UsbControl.LedReadsBack | libusbtest/firmware/main.c:57-66 | the LED reads back as the lowest bit it was set to |
| UsbControl.UsbDevice.FunctionSetup | libusbtest/firmware/main.c:42-81 | each request's reply, and the limits of a test write |
| UsbControl.UsbDevice.FunctionWrite | libusbtest/firmware/main.c:83-98 | the wanted part of a packet goes to the buffer; true when no more is wanted |
| UsbControl.UsbDevice.ProcessSetup | libusbtest/firmware/usbdrv/usbdrv.c:439-472 | a SETUP packet does what the reference step says (UsbControl.SetupTokens, WriteBehindSetup and ReplyBytes say what that gives the host), and one of another size than 8 nothing |
| UsbControl.UsbDevice.ProcessOut | libusbtest/firmware/usbdrv/usbdrv.c:473-484 | an OUT packet does what the reference step says |
| UsbControl.UsbDevice.BuildTxBlock | libusbtest/firmware/usbdrv/usbdrv.c:524-546 | a build does what the reference step says |
| UsbControl.UsbDevice.CopyToTransmit | libusbtest/firmware/usbdrv/usbdrv.c:492-517 | the next bytes of the reply go to the transmit buffer |
| UsbControl.UsbDevice.SendToHost | libusbtest/firmware/usbdrv/usbdrv.c:535-544 | what the interrupt layer then takes is the packet of the reference step, and the transmitter is idle |
| UsbControl.UsbDevice.Poll | libusbtest/firmware/usbdrv/usbdrv.c:565-590 | a received packet, if any, and then a build if the transmitter is idle and a reply is pending |
| DfuFlash.DiscardInPacket | LUFA-120219/Bootloaders/DFU/BootloaderDFU.c:507-527 | inside a packet exactly the asked number of bytes is discarded |
| DfuFlash.DiscardedBytes | LUFA-120219/Bootloaders/DFU/BootloaderDFU.c:507-527 | across packets one less for every packet fetched |
| DfuFlash.AndErased | LUFA-120219/Bootloaders/DFU/BootloaderDFU.c:297-309 | a write that only clears bits leaves its data in an erased byte |
| DfuFlash.AndBits | LUFA-120219/Bootloaders/DFU/BootloaderDFU.c:297-299 | bit by bit, what writing to a byte that is not erased leaves |
| DfuFlash.WordsInStream | LUFA-120219/Bootloaders/DFU/BootloaderDFU.c:275-288 | packets that cut no word hold as many words as half their bytes, an odd last byte counting as one |
| DfuFlash.DeliversStream | LUFA-120219/Bootloaders/DFU/BootloaderDFU.c:275-288 | from such packets the words delivered are the stream |
| DfuFlash.ReadsBackExactly | LUFA-120219/Bootloaders/DFU/BootloaderDFU.c:259-312 | everything of a length reads back from where it was programmed if and only if the range begins a page or lies within one, on an even address |
| DfuFlash.OtherPagesStay | LUFA-120219/Bootloaders/DFU/BootloaderDFU.c:295-310 | no page that is not erased changes |
| DfuFlash.InBank | LUFA-120219/Bootloaders/DFU/BootloaderDFU.c:264-268 | bit 16 of every address that programming changes is the selected 64K bank, and the page in the low 16 bits is not before that of the start address |
| DfuFlash.PlacedAt | LUFA-120219/Bootloaders/DFU/BootloaderDFU.c:264-292 | byte k of what lands is at 65536 * bank + start + k |
| DfuFlash.AlignmentLeavesOne | LUFA-120219/Bootloaders/DFU/BootloaderDFU.c:250-254 | with a start that is no multiple of the endpoint size the firmware is read from one byte before its beginning |
| DfuFlash.OddPayload | LUFA-120219/Bootloaders/DFU/BootloaderDFU.c:256-262 | with an odd payload and the suffix of a DFU file all bytes but the last are asked for, and there are enough |
| DfuFlash.PayloadFits | LUFA-120219/Bootloaders/DFU/BootloaderDFU.c:256-288 | a request that carries the whole payload delivers as many words as its range asks for |
| DfuFlash.RoundTrip | LUFA-120219/Bootloaders/DFU/BootloaderDFU.c:241-420 | in a full-packet request with an aligned start that lands, the payload comes back if and only if its length is even, and otherwise all but its last byte |
| DfuFlash.WordsExact | LUFA-120219/Bootloaders/DFU/BootloaderDFU.c:256-262 | the whole words of a range are moved unless it is a full 64K bank, of which none is |
| DfuFlash.Bootloader.DiscardFillerBytes | LUFA-120219/Bootloaders/DFU/BootloaderDFU.c:507-527 | the loop does what the discarding function says |
| DfuFlash.Bootloader.FillWord | LUFA-120219/Bootloaders/DFU/BootloaderDFU.c:287-292 | a word joins the page buffer behind the others, low byte first |
| DfuFlash.Bootloader.CommitPage | LUFA-120219/Bootloaders/DFU/BootloaderDFU.c:297-299 | a written page completes the flash programmed so far |
| DfuFlash.Bootloader.NextPage | LUFA-120219/Bootloaders/DFU/BootloaderDFU.c:301-310 | the next page is erased before it is filled |
| DfuFlash.Bootloader.ReadWord | LUFA-120219/Bootloaders/DFU/BootloaderDFU.c:275-288 | a word from the bank, or from the next packet if the bank is empty; a byte that is not there may be anything |
| DfuFlash.Bootloader.Program | LUFA-120219/Bootloaders/DFU/BootloaderDFU.c:256-318 | from any start and any packets the words delivered end up where the programming function says, page after page, the rest of the erased pages stays erased and every other page as it was; it stops early exactly when the packets hold too few words; DfuFlash.InBank and PlacedAt say where that is |
| DfuFlash.Bootloader.ReceiveCommand | LUFA-120219/Bootloaders/DFU/BootloaderDFU.c:223-235 | the command byte and as many of five parameters as the first packet holds |
| DfuFlash.Bootloader.LoadStartEndAddresses | LUFA-120219/Bootloaders/DFU/BootloaderDFU.c:581-593 | both addresses are big-endian in the command |
| DfuFlash.Bootloader.ProcessMemProgCommand | LUFA-120219/Bootloaders/DFU/BootloaderDFU.c:598-623 | the page of the start address is erased and firmware is expected |
| DfuFlash.Bootloader.Download | LUFA-120219/Bootloaders/DFU/BootloaderDFU.c:201-353 | for each kind of DNLOAD request, given by its bytes, the flash, the state, the bank and what is left of the endpoint; programming begins at 65536 * bank + start and changes nothing in the other bank |
| DfuFlash.Bootloader.Upload | LUFA-120219/Bootloaders/DFU/BootloaderDFU.c:377-420 | the words of the range leave in 32-byte packets but for the last, and their bytes are the flash's from 65536 * bank + start on |
| DfuFlash.Bootloader.ProgramThenUpload | LUFA-120219/Bootloaders/DFU/BootloaderDFU.c:241-420 | selecting a bank, programming any range of it from any packets and uploading it gives what the programming function puts from 65536 * bank + start on |

## Left out

- Streams outside the protocol whose tiles leave an array: subrectangles beyond the 16 x 16 tile buffer and, on the screen, tiles wider or higher than it write or read past it in the source, and what the memory behind it holds is not modelled (`Undefined`, `OutOfArray`, `OutOfBuffer`). Other malformed bytes are in the model, and termination holds for all of them.
- Receiver.Step: ends the model with `Undefined` where a step leaves the tile buffer; the source goes on with overwritten memory.
- VncClients.VncClient.ReadSubrect: says nothing of the state behind a subrectangle that leaves the tile buffer; the same holds of every method on the way to VncClients.VncClient.ProcessVncBuffer, which still ends and still returns what the source returns.
- MainLoop.DisplayLoop.Iteration: leaves out the copy when vnc.c returns -1, because LCD Test/main.c:112 tests an unsigned variable for being negative, so that the error branch is dead and line 125 copies 65535 bytes. What that leaves in the buffer is taken to be anything at all (`TurnAstray`, the `Drift` action of Handshake.dfy); the parser's and the sender's statics are taken to survive it.
- The response is sent whole in every turn, as LCD Test/VncServerComms.c:223-232 does, so the remainder branch of LCD Test/main.c:137-143 is never entered and is not modelled.
- Raw and CopyRect rectangles are consumed and not shown, as in the source; the picture of an update is that of its hextile rectangles.
- Handshake.AlwaysOrderly: says nothing on how many refresh requests are outstanding, because the source repeats the request in every turn until the next update begins.
- The server in Handshake.dfy is abstract: after what it has received it may send anything at any time, early messages behind its initialisation included, but no update before the full refresh request; how it makes its updates is not modelled. A client whose tile left the tile buffer stands still in that system (`Corrupt`).
- Handshake.dfy follows one connection; a disconnect and the connection after it are the subject of Reset.dfy and Reconnect.dfy.
- Reset.ResetIsBoot: its condition is on one schedule; Reconnect.SessionAfterReset gives it as one on the tiles of the session.
- RFBFileTest/main.c never reaches its driver (an endless loop at lines 85-89 comes first); the driver is modelled as if it did.
- TileDecoders.TileDecoder.ShowFile: asks for a file below 32768 bytes, because `position` is an int, for subrectangles inside the tile buffer, and, like TileDecoders.TileDecoder.Setup, for a rectangle whose sums stay within int; overflow has no meaning in C.
- Agreement.PicturesExact: is about rectangles below column and row 65536 (`Straight`); from a negative corner a tile can cross zero, and its window then ends before it begins, which the panel's data sheet does not define.
- HandleHextile reads the subrectangle count one byte beyond a window that ends right before it (RFBFileTest/hextile.c:163) and then discards the result; the model reads an arbitrary byte there.
- The one-bit-per-pixel configuration of RFBFileTest and the e-ink display.
- Agreement.BothDecoders: is about two-byte pixels, which both decoders can be built for; the streaming one has no other.
- UART: the handlers run whole and the code they interrupt is cut at its shared-memory accesses, on values and not on a class, because the claims are about interleavings; baud rate, string and hex output are not modelled. The 16-bit receive indices stay below 8, so a torn access cannot differ.
- UsbControl.UsbDevice.ProcessSetup: leaves out standard requests, which the driver answers from descriptors, and takes a test write to be a host-to-device request.
- UsbControl.UsbDevice.Poll: leaves out bus reset.
- Descriptors, CRC, the stall of a failed write (usbFunctionWrite never fails here) and the unused usbFunctionRead.
- EEPROM programming, blank check, the read and write commands, secure mode, application start and the LED toggling of the bootloader.
- KeyEvents.SaidExactly: is about runs in which no copy goes astray; behind one that does the connection is over, and MainLoop.OverForGood says that nothing is sent.
- DfuFlash.Bootloader.Download: covers the flash commands with all their parameters in the first packet, a bank select of just its four bytes, an end that is not before the start, and a bank that the 128K flash has; the source checks none of these.
- DfuFlash.Bootloader.Program: takes boot_page_fill to ignore the lowest bit of its address, as the processor does.
- DfuFlash.Bootloader.ProcessMemProgCommand: covers the flash selector only.
- DfuFlash.Bootloader.Upload: assumes that the host keeps reading, because a host that goes away only ends the request.
- Button debouncing, debug output, display initialisation, and the USB and serial transports below the bytes they deliver.
