# Firstlight core: a Dafny model

This project models the logic at the heart of Firstlight, a remote console client for
server management controllers, and proves what it rests on:

* **The iLO video decoder** (files `Bits`, `BitReader`, `BitTables`, `ColorCache`, `Framebuffer`,
  `Machine`, `DecoderRun`, `Decoder`, `DecoderCodes`). `Machine` and `DecoderRun` say as
  functions what one of the 48 states, one step and one feed do; the class `Decoder` does it
  with an accumulator, byte tables, usage counters and a framebuffer updated in place, and
  every method is proved against those functions. How input is cut into packets does not
  matter, the step limit is never why a feed stops, and the frame revision is an exact
  change detector.
* **The RFB rectangle decoders** (`Screen`, `RfbSpec`, `RfbTheorems`, `RfbUpdate`,
  `RfbDecode`): Raw, CopyRect, RRE and Hextile over a flat pixel array, against functions
  from picture and bytes to picture (sections 7.6.1 and 7.7.1 to 7.7.4 of RFC 6143).
* **The WebSocket codec, message reader and closing handshake** (`WsFrame`, `WsMessage`,
  `WsConn`, `WsClose`; sections 5.2 to 5.5.1 of RFC 6455). The handshake is a transition
  system over any number of goroutines.
* **Keyboard-map inheritance** (`Options`, `KeyboardMaps`, `KeyboardLoader`): the registry builder and
  the repair loop around it, for every order in which Go may walk its maps.
* **The encrypted connection** (`CipherStream`; output feedback as in section 6.4 of
  NIST SP 800-38A), **the at-most-once table** (`ExecuteOnce`) and **the frame upload**
  (`FrameUpload`), the last two as transition systems whose critical sections are methods.
* **The virtual CD drive** (`ScsiCd`) and **the key event differ** (`KeyEvents`).

Sockets, random sources, clocks and map iteration orders are parameters: what a socket
takes of a write, which key a frame is masked with, in which order a table is walked.

Some claims one might make do not hold of the code; each has its exact condition here.

* Which unsound maps the loop drops can depend on the iteration order (`OrderMatters`). It
  does not if and only if no external map is unsound at the start yet sound once every
  other unsound override of a built-in map is undone (`OrderIrrelevantIff`).
* An all-up keyboard report need not release everything when shift changes under a held
  key (`ShiftLeavesKeyHeld`). For every run of reports it does if and only if every keysym
  pressed was released later or belongs to a key of the last report (`AllUpReleasesIff`).
* A LastRect marker after exactly 4096 rectangles stays on the stream (`CountedIsMarked`,
  with such a stream in `MarkerStays`).
* A READ of 4 GiB or more announces a truncated length, and only such a READ does
  (`ReadDelivers`, with a request in `LongReadTruncated`). READ CAPACITY announces a
  truncated last block beyond 2^32 sectors and only there (`CapacityIsReadable`, with such
  an image in `CapacityWraps`).

The keyboard-map repair loop, which drops one unsound map a round, never drops a sound one
(`SoundNeverDropped`), but a sound external map would be lost with all others if the loop
gave up. Some order makes it give up if and only if some built-in map is unsound both with
its override and with only that override undone (`GivesUpIffBuiltInFalls`). The built-in
maps the program ships exclude that, whatever files are added (`ShippedMapsStand`).

Where comments and code differ the code is followed: the comment at
`internal/wsx/wsx.go:64-65` rules out two concurrent readers, but `ReadMessage` takes a
lock, and the handshake is proved for any number of them.

## Model

| member | source | states |
|---|---|---|
| DecoderRun.FeedSplit | internal/kvm/decoder.go:270-287 | feeding a and then b leaves exactly the machine that feeding a + b leaves: reader, state, cache, picture, revision, counters, messages |
| DecoderRun.PacketsDoNotMatter | internal/kvm/decoder.go:270-287 | any cutting of one byte stream into packets, empty ones included, ends in the same machine |
| DecoderRun.RunSplit | internal/kvm/decoder.go:275-284 | the run over a + b is the run over a continued over b, unless EXIT halted it within a |
| DecoderRun.StepKeeps | internal/kvm/decoder.go:463-647 | every step keeps the decoder in bounds (a state of the 48 and never HUNT, at most 7 buffered bits, rows of at most 8 bits, a duplicate-free cache, a picture of the announced size) and moves the revision by one exactly when the picture changed or the first header came |
| DecoderRun.StepProgress | internal/kvm/decoder.go:275-284 | twice the unread bits plus one for a state that reads none goes down with every step that neither stops nor halts |
| DecoderRun.RunKeeps | internal/kvm/decoder.go:270-287 | the bounds hold after any run over any bytes |
| DecoderRun.StepTracks | internal/kvm/decoder.go:420-461 | for any input: a step that does not fetch the byte completing the first run of 31 zero bits consumes the wire in order and never resynchronises; one that does starts over in RESET or runs dry |
| DecoderRun.RunTracks | internal/kvm/decoder.go:420-461 | over a stream without such a run the bits read and the bits buffered are together the whole wire, up to EXIT |
| DecoderRun.RunGivesUp | internal/kvm/decoder.go:434-448 | a stream that has such a run is read as plain bits up to the byte that completes the first one, and the decoder gives up at exactly that byte, unless EXIT halts it before |
| Decoders.Decoder.Feed | internal/kvm/decoder.go:270-287 | the packet loop with its step limit does what the unlimited run does: the limit is never why it stops, and no error is ever returned |
| Decoders.Decoder.Step | internal/kvm/decoder.go:463-647 | one step of the object is one step of the machine; it reports false exactly when the input ran dry |
| Decoders.Decoder.GetBit | internal/kvm/decoder.go:420-461 | the accumulator, bit count and zero count deliver what the bit-string reader delivers, or leave everything alone for more than eight bits |
| Decoders.Decoder.Resynchronise | internal/kvm/decoder.go:435-448 | zero bytes are dropped, so is the first other byte, and the zero count restarts from its leading zeros |
| Decoders.Decoder.GetByte | internal/kvm/decoder.go:411-418 | the next unread byte, or failure exactly when there is none |
| Decoders.Decoder.DiscardToByteBoundary | internal/kvm/decoder.go:649-656 | always succeeds, consumes no input and leaves the last buffered bit in the code register |
| Decoders.Decoder.Compact | internal/kvm/decoder.go:827-839 | dropping consumed input does not change what is unread |
| Decoders.Decoder.NextBlock | internal/kvm/decoder.go:757-782 | the loop over `count` paints copies side by side as far as the screen reaches, counts one revision if any pixel changed, and stops at the right column |
| Decoders.Decoder.PaintStrip | internal/kvm/decoder.go:760-778 | the painted strip in closed form, and `changed` exactly when the picture did |
| Decoders.Decoder.ClearScreen | internal/kvm/decoder.go:784-788 | all black, one revision exactly when that is a change |
| Decoders.Decoder.ReplaceFramebuffer | internal/kvm/decoder.go:795-801 | a framebuffer of another size is always a change and counts one revision |
| Decoders.Decoder.SwitchVideoMode | internal/kvm/decoder.go:790-804 | the object follows the mode switch of the machine, allocation included |
| Decoders.Decoder.ProcessCommand | internal/kvm/decoder.go:681-709 | each firmware command has the effect the machine gives it, and none ever waits for input |
| Decoders.Decoder.Timeout | internal/kvm/decoder.go:564-574 | the TIMEOUT state always aligns and never has to be repeated |
| Decoders.Decoder.FetchColor | internal/kvm/decoder.go:509-523 | a recency code is painted from the cache exactly when it is below the number of cached colours, else the decoder latches |
| Decoders.Decoder.LiteralColor | internal/kvm/decoder.go:532-541 | a literal colour enters the cache and is painted exactly when it was not there before |
| Decoders.Decoder.FinishBlock | internal/kvm/decoder.go:638-642 | a full block is painted and the cache pruned exactly when its last pixel arrived on the way to PIXELS |
| Decoders.Decoder.Execute | internal/kvm/decoder.go:476-645 | the part of a step after a successful read is the machine's, in every state |
| Decoders.Decoder.constructor | internal/kvm/decoder.go:252-268 | a new decoder is in bounds and has consumed nothing |
| Machine.RowFacts | internal/kvm/decoder.go:317-370 | in every table firmware can make, no row leads to HUNT, none reads more than eight bits, and only six states read none |
| Machine.NextBlock | internal/kvm/decoder.go:757-782 | keeps the bounds and the exact revision, and goes on at START |
| Machine.ProcessCommand | internal/kvm/decoder.go:681-709 | keeps the bounds and the exact revision, leaves the state to follow unless it is EXIT or PRINT0 |
| Machine.HeaderRegs | internal/kvm/decoder.go:711-722 | ready once set stays set, and the revision goes up exactly with the first header |
| Machine.Act | internal/kvm/decoder.go:482-636 | no state acts outside the bounds, and none that reads no bits leads to another that reads none |
| Machine.Execute | internal/kvm/decoder.go:476-645 | the exact revision over a whole state, block completion included |
| BitReader.GetBitsAppend | internal/kvm/decoder.go:420-461 | running dry and reading on later is the same as having had all bytes at once, the resynchronisation loop included |
| BitReader.GetBitsValid | internal/kvm/decoder.go:420-461 | never more than seven bits stay buffered |
| BitReader.ReadsBuffered | internal/kvm/decoder.go:455-460 | a read served from the buffer delivers the next bits of the wire, the first most significant |
| BitReader.ReadsFetched | internal/kvm/decoder.go:427-460 | so does a read that fetches a byte and completes no run of zeros |
| BitReader.FetchResyncs | internal/kvm/decoder.go:434-448 | the first resynchronisation happens exactly at the byte that completes the first run of 31 zero bits anywhere on the wire |
| BitReader.RunCompletes | internal/kvm/decoder.go:434-451 | counting trailing zeros of the past and leading zeros of a byte finds every run of 31 across byte borders |
| BitTables.ShiftOut | internal/kvm/decoder.go:372-393 | the shift loop computes bit reversal and the counts of zeros at either end |
| BitTables.ByteTables.constructor | internal/kvm/decoder.go:372-393 | all 256 entries of the tables |
| BitTables.FetchAccumulates | internal/kvm/decoder.go:452-453 | OR-ing a shifted byte into the accumulator appends its bits |
| BitTables.ReadAccumulator | internal/kvm/decoder.go:455-459 | mask, reversal and shift give the low bits as a code, first bit most significant |
| DecoderCodes.RgbPainted | internal/kvm/decoder.go:524-540 | over the run of three codes from red on, for every colour depth: the decoder latches and the block stays as it was exactly when the colour is cached, else the next pixel of the block is that colour and nothing else of it changes |
| DecoderCodes.GreyPainted | internal/kvm/decoder.go:528-540 | one grey code does the same with three equal components |
| DecoderCodes.LiteralStep | internal/kvm/decoder.go:528-541 | any literal colour latches the decoder exactly when it is cached, else it goes into the next pixel of the block, if there is one |
| DecoderCodes.RunFills | internal/kvm/decoder.go:554-563 | a run fills exactly the next pixels of the block with the last colour, and nothing past the block |
| DecoderCodes.MoveLands | internal/kvm/decoder.go:498-506 | two coordinate codes of the table's width land on that block, at either block height |
| DecoderCodes.ShortMoveReachesScreen | internal/kvm/decoder.go:490-492 | a new decoder, whatever packets it was fed, shows fewer than 128 blocks side by side, and a short move to any of those columns lands there |
| DecoderCodes.ShortMoveLands | internal/kvm/decoder.go:490-492 | a short move reaches its target exactly when that is below column 128 |
| DecoderCodes.RunNarrow | internal/kvm/decoder.go:614-619 | every run over any bytes keeps the screen below 128 blocks and a width about to be taken as well: MODE1 comes only after MODE0, which reads seven bits at either block height |
| DecoderCodes.PrintDelivers | internal/kvm/decoder.go:584-598 | a tag, non-zero octets and a zero read from PRINT0 on deliver exactly one message, the tag with the first 4096 octets, if there is a handler and text; then the decoder is in START with no text kept |
| DecoderCodes.PixcodeReachesAll | internal/kvm/decoder.go:174-189 | for every cache of three colours or more the PIXCODE state reads exactly as many bits as it takes to name every rank but rank 1 |
| DecoderCodes.ModeTakesHold | internal/kvm/decoder.go:741-755 | after a mode switch the block height is 8 exactly for wide screens with the half-height flag, and exactly four rows follow it |
| DecoderCodes.HeaderTakesHold | internal/kvm/decoder.go:711-739 | a header of four parameters or more sets depth, cipher and flag, a shorter one nothing; only four rows change |
| DecoderCodes.ParamsArePushed | internal/kvm/decoder.go:661-679 | for commands of any length the parameters are the octets before the opcode, at most 255, whatever the buffer held before |
| ColorCache.TouchedPrefix | internal/kvm/decoder.go:79-189 | in every run of reset, lru, find and prune the colours used since the last prune are exactly the first entries of the recency order |
| ColorCache.EveryRunValid | internal/kvm/decoder.go:79-189 | in every run the recency list is duplicate-free and holds at most 17 colours |
| ColorCache.UseKeepsList | internal/kvm/decoder.go:88-129 | using a colour puts it in front and loses at most the least recent one, and that only from a full cache |
| ColorCache.FetchKeepsList | internal/kvm/decoder.go:131-153 | fetching by rank reorders and loses nothing |
| ColorCache.BumpPromotes | internal/kvm/decoder.go:121-127 | one pass over the usage counters is a move to front: the counters stay a permutation |
| ColorCache.Cache.Lru | internal/kvm/decoder.go:88-129 | reports whether the colour was cached, and leaves the counters standing for the list with the colour in front |
| ColorCache.Cache.Scan | internal/kvm/decoder.go:95-109 | finds the slot of the colour, else the slot of the least recent one |
| ColorCache.Cache.Find | internal/kvm/decoder.go:131-153 | succeeds exactly when the code is below the number of active colours, and returns the colour of that rank |
| ColorCache.Cache.Prune | internal/kvm/decoder.go:155-172 | swapping in the last slot for every unused one truncates the list to the colours used since the last prune, in order |
| ColorCache.Cache.Reset | internal/kvm/decoder.go:79-86 | an empty list, whatever colours stay in the slots |
| ColorCache.SweepDone | internal/kvm/decoder.go:160-170 | what the pruning loop leaves are the touched ranks 0..n-1, each once |
| Framebuffers.Framebuffer.StorePixel | internal/kvm/decoder.go:48-54 | changes that pixel only and reports exactly whether the picture changed |
| Framebuffers.Framebuffer.Clear | internal/kvm/decoder.go:35-46 | one colour everywhere, and the report is exact |
| Framebuffers.Framebuffer.PaintBlock | internal/kvm/decoder.go:768-775 | a block copied row by row, clipped to the screen; the report is exact |
| Framebuffers.Framebuffer.constructor | internal/kvm/decoder.go:19-29 | default sizes for sizes that are not positive, filled with the start colour |
| Framebuffers.StripStep | internal/kvm/decoder.go:761-777 | n + 1 blocks side by side are n blocks and one more, and change the picture exactly when a part does |
| Framebuffers.FilledDiffer | internal/kvm/decoder.go:28-28 | the start colour is not black, so clearing a new framebuffer is a change |
| RfbDecode.Conn.DecodeRaw | internal/rfb/decode.go:92-111 | paints and consumes what the Raw encoding means, or fails without painting |
| RfbDecode.Conn.DecodeCopyRect | internal/rfb/decode.go:113-125 | every pixel of the target shows the old picture at the source, overlap included |
| RfbDecode.Conn.DecodeRre | internal/rfb/decode.go:126-156 | paints and consumes what the RRE encoding means; a short or oversized one paints nothing |
| RfbDecode.Conn.DecodeTile | internal/rfb/decode.go:165-237 | one tile: raw, or background, foreground and subrectangles, with the colours it carries on and the part painted before a short read |
| RfbDecode.Conn.DecodeHextile | internal/rfb/decode.go:158-241 | the nested tile loops paint what the Hextile encoding means, also when the stream is cut short |
| RfbDecode.Conn.PaintPixels | internal/rfb/decode.go:103-109 | the moving offset takes each pixel of the data to its place, row by row |
| RfbDecode.Conn.PaintRreSubs | internal/rfb/decode.go:144-154 | the moving offset reads each subrectangle whole |
| RfbDecode.Conn.PaintTileSubs | internal/rfb/decode.go:221-236 | the same for tile subrectangles of either size |
| RfbDecode.Conn.Read | internal/rfb/conn.go:405-417 | exactly n bytes or failure; nothing is read for none |
| RfbDecode.Conn.SkipCursor | internal/rfb/decode.go:243-248 | pixels and mask of a cursor are consumed and the picture is not touched |
| RfbDecode.Conn.DecodeRectangle | internal/rfb/decode.go:69-90 | each encoding number has its effect; LastRect ends the update and DesktopSize resizes |
| RfbDecode.Conn.ReadFramebufferUpdate | internal/rfb/decode.go:23-65 | a whole update as a function of picture and stream; the revision counts exactly the updates that came through |
| RfbTheorems.TileInside | internal/rfb/decode.go:187-236 | inside a tile the last covering subrectangle shows, else the background, which is the one carried on |
| RfbTheorems.TileOutside | internal/rfb/decode.go:170-236 | a pixel outside a tile changes only where a subrectangle overruns the tile |
| RfbTheorems.HextileStaysInside | internal/rfb/decode.go:158-241 | with subrectangles inside their tiles no pixel outside the rectangle changes, for any stream, cut short or not |
| RfbTheorems.HextilePicture | internal/rfb/decode.go:158-241 | the picture function of Hextile: for every stream that decodes, with subrectangles inside their tiles, each pixel outside the rectangle is as before and each inside shows what its own tile shows there, given the colours carried to that tile |
| RfbTheorems.TileStands | internal/rfb/decode.go:161-239 | the tiles partition the rectangle, for every such stream: at the end every pixel is as its own tile left it |
| RfbTheorems.TileShown | internal/rfb/decode.go:170-236 | what a tile shows at a pixel: its raw data, else the last subrectangle over it, else the background it specifies or was handed |
| RfbTheorems.TileCarries | internal/rfb/decode.go:160-200 | background and foreground handed on are the ones specified, else the ones received; a raw tile hands on both |
| RfbTheorems.RawTiles | internal/rfb/decode.go:161-186 | for streams of raw tiles: from any tile on, exactly the pixels still to come are painted, and both colours are handed on |
| RfbTheorems.RawHextileIsRaw | internal/rfb/decode.go:92-186 | a picture sent as raw Hextile tiles decodes to what it decodes to in Raw, and both consume exactly their bytes |
| RfbTheorems.RrePixel | internal/rfb/decode.go:126-156 | each pixel shows the last covering subrectangle, else the background inside the rectangle and the old picture outside |
| RfbTheorems.ChannelFillsByte | internal/rfb/pixel.go:117-134 | the largest value of a channel of any width, and no other, comes out as 255; no value wraps around |
| RfbSpec.PaintSubsPixel | internal/rfb/decode.go:145-154 | painting solid rectangles in order shows at every position the last one that covers it |
| RfbUpdates.ApplyMore | internal/rfb/decode.go:69-90 | no byte after a rectangle has a say in it, for every encoding |
| RfbUpdates.UpdateMore | internal/rfb/decode.go:23-65 | nor has any byte after an update |
| RfbUpdates.CountedIsMarked | internal/rfb/decode.go:28-62 | an update announced by its number of rectangles and the same rectangles ended by LastRect leave the same picture; the marker is taken off the stream exactly when there are fewer than 4096 rectangles before it |
| RfbUpdates.RectsThen | internal/rfb/decode.go:38-62 | after n rectangles without a marker a reader of up to n + m goes on where they end |
| RfbUpdates.MarkerEnds | internal/rfb/decode.go:71-72 | a LastRect marker ends an update of unknown length and paints nothing |
| RfbUpdates.MarkerStays | internal/rfb/decode.go:32-62 | a stream at which the marker stays: 4096 empty resizes, then LastRect |
| Screens.Screen.SetPixel | internal/rfb/screen.go:79-91 | four bytes of the flat array change one pixel of the picture; outside coordinates are ignored |
| Screens.Screen.At | internal/rfb/screen.go:124-136 | reads that pixel back, black with full alpha outside |
| Screens.Screen.FillRect | internal/rfb/screen.go:93-100 | a solid rectangle, clipped to the screen |
| Screens.Screen.CopyRect | internal/rfb/screen.go:102-122 | the target shows the old picture at the source, also when they overlap |
| Screens.Screen.Resize | internal/rfb/screen.go:49-63 | keeps the overlapping top-left region, black elsewhere; refuses empty sizes |
| Screens.Screen.CopyRegion | internal/rfb/screen.go:138-143 | copying rows of bytes copies exactly the overlapping pixels |
| Screens.ShowsStore | internal/rfb/screen.go:86-90 | writing one pixel's bytes touches no other pixel of the flat array |
| WsFrame.RoundTrip | internal/wsx/wsx.go:304-403 | every acceptable frame, masked or not, in all three length forms, is read back and exactly its bytes are consumed |
| WsFrame.Refuses | internal/wsx/wsx.go:332-342 | every other frame is refused with the error of the first rule it breaks |
| WsFrame.MaskTwice | internal/wsx/wsx.go:354-358 | masking is its own inverse |
| WsFrame.Parse | internal/wsx/wsx.go:304-361 | what is accepted obeys the rules for control frames and the size limit, and takes bytes off the input |
| WsConn.Conn.ReadFrame | internal/wsx/wsx.go:304-361 | reads header, extension, key and payload step by step to the same result and position |
| WsConn.Conn.ReadPayload | internal/wsx/wsx.go:343-360 | key and payload, with an empty payload read as such |
| WsConn.Conn.Unmask | internal/wsx/wsx.go:354-358 | the in-place loop unmasks the whole payload |
| WsConn.Conn.WriteFrame | internal/wsx/wsx.go:363-403 | refuses data and swallows a second Close once a Close was sent, else sends the masked frame as far as the socket takes it |
| WsConn.Conn.ReadMessage | internal/wsx/wsx.go:203-252 | the frame loop is the fold over frames; after the peer's Close nothing is read |
| WsConn.Conn.Close | internal/wsx/wsx.go:265-290 | runs the handshake and drops the socket in the state that leaves: after the Close frame, the pongs, and all input up to the peer's Close or the first failed read; a later call changes nothing |
| WsConn.Conn.Handshake | internal/wsx/wsx.go:269-286 | one Close frame, then, if that went out and the peer has not closed, frames are read up to the peer's Close or a failed read and each ping is answered |
| WsMessage.FragmentsRejoin | internal/wsx/wsx.go:203-252 | for every fragmentation within the limit, control frames anywhere between, any masking: the concatenation is returned, each ping answered in order, exactly the message's bytes consumed |
| WsMessage.AnswersPings | internal/wsx/wsx.go:218-221 | the answers on the wire are one pong per ping, in order, each with the ping's own payload |
| WsMessage.MessageBounded | internal/wsx/wsx.go:241-247 | no stream makes a message longer than the limit |
| WsClose.HandshakeIsSafe | internal/wsx/wsx.go:203-290 | in every interleaving of any number of ReadMessage, WriteMessage, Ping and Close calls: at most one Close frame goes out, no data frame after it, nothing is read after the peer's Close |
| WsClose.NoDeadlock | internal/wsx/wsx.go:203-290 | the read lock, the write lock and the once cannot deadlock: while a call is in progress some call can move |
| WsClose.StepKeeps | internal/wsx/wsx.go:203-290 | every step of any goroutine keeps the invariant of locks, flags and frames |
| WsClose.RunKeeps | internal/wsx/wsx.go:203-290 | so does every run |
| WsClose.WriteStepRefines | internal/wsx/wsx.go:363-376 | the write step of the protocol is what writing a frame does to flag, wire and result |
| WsClose.ReadStepRefines | internal/wsx/wsx.go:203-252 | one frame handled by the message reader is a step of the protocol, then the two steps of the pong or Close it calls for, with the same flag and wire; the call goes on or is over as the reader says |
| WsClose.DrainStepRefines | internal/wsx/wsx.go:274-283 | one frame read by the waiting Close is a step of the protocol, then the two steps of a pong if it is a ping; what is left to drain is what the code drains |
| KeyboardMaps.Builder.Resolve | internal/keyboardmap/registry.go:177-239 | the memoising search returns a map's meaning exactly when its chain is sound, else blames the map it was asked for; the memo stays right either way |
| KeyboardMaps.BuildRegistry | internal/keyboardmap/registry.go:173-252 | for every order of visiting: success exactly when every chain is sound, then every meaning; else the first visited unsound map is blamed |
| KeyboardMaps.CycleUnsound | internal/keyboardmap/registry.go:185-187 | a map met again while being resolved has no finite chain |
| KeyboardMaps.ChainUnique | internal/keyboardmap/registry.go:195-203 | a map has at most one chain |
| KeyboardMaps.SoundStep | internal/keyboardmap/registry.go:181-203 | a map is sound exactly when it is present and extends nothing or a sound map |
| KeyboardMaps.NearestWins | internal/keyboardmap/registry.go:204-235 | a resolved map answers every key in every state and every character with the nearest definition on its chain |
| KeyboardMaps.ResolvesNearest | internal/keyboardmap/registry.go:286-324 | a lookup gives that definition, the plain one with shift where no shifted one exists, and nothing for an absent map |
| KeyboardLoader.Activate | internal/keyboardmap/loader.go:79-101 | the repair loop ends; the registry has every built-in map; unless it gave up it has the meaning of every map still trusted, among them every external map sound at the start |
| KeyboardLoader.SoundNeverDropped | internal/keyboardmap/loader.go:79-99 | an external map with a sound chain is never blamed and keeps its meaning, for every order of iteration |
| KeyboardLoader.SoundSurvives | internal/keyboardmap/loader.go:94-99 | dropping one unsound map leaves every sound one sound, with the same meaning |
| KeyboardLoader.GivesUpIffBuiltInFalls | internal/keyboardmap/loader.go:89-92 | some order makes the loop give up, discarding every external map, if and only if a built-in map is unsound both as overridden and with only its own override undone |
| KeyboardLoader.StandAlways | internal/keyboardmap/loader.go:94-99 | that condition, once met at the start, is met in every round |
| KeyboardLoader.ShippedMapsStand | internal/keyboardmap/loader.go:50-53 | the maps the program ships meet it, whatever is added: each extends nothing or us-base, and us-base cannot be overridden |
| KeyboardLoader.OrderIrrelevantIff | internal/keyboardmap/loader.go:79-99 | for maps of the shipped shape: which external maps survive is the same for all orders of iteration if and only if no external map is unsound at the start yet sound once every other unsound override of a built-in map is undone |
| KeyboardLoader.Fate | internal/keyboardmap/loader.go:79-99 | one external map: some order keeps it if and only if it is sound at the start or so rescuable, and some order drops it if and only if it is unsound at the start |
| KeyboardLoader.OrderMatters | internal/keyboardmap/loader.go:79-99 | the shipped maps, a broken override of the German one and a map that extends it: some orders keep that map and some lose it |
| KeyboardLoader.Fallback | internal/keyboardmap/loader.go:89-92 | giving up leaves the registry of the built-in maps |
| CipherStream.AesStream.XorKeyStream | internal/kvm/aesstream.go:50-62 | XORs the next bytes of the output-feedback keystream, also in place, wherever earlier calls stopped |
| CipherStream.AesStream.NextByte | internal/kvm/aesstream.go:55-60 | byte i of the keystream is byte i mod 16 of the (i / 16 + 1)-fold encryption of the IV |
| CipherStream.CryptConcat | internal/kvm/aesstream.go:50-62 | cutting data into chunks does not matter |
| CipherStream.CryptTwice | internal/kvm/aesstream.go:50-62 | encrypting twice from one position gives the data back |
| CipherStream.Conn.Write | internal/kvm/conn.go:169-193 | what leaves is the encryption at the wire's position; the first short or failed write closes the latch for good |
| CipherStream.Conn.Read | internal/kvm/conn.go:159-167 | whatever arrives is decrypted in place from where the last read stopped, and the rest of the buffer is not touched |
| CipherStream.WiresPrefix | internal/kvm/conn.go:169-193 | after any writes, what reached the wire decrypts to a prefix of what was asked |
| CipherStream.PeerReadsPrefix | internal/kvm/conn.go:159-193 | for any writes, partial or failed, and any cutting of the peer's reads, the peer's plaintext is a prefix of what was asked, and all of it if no write fell short |
| CipherStream.ChunksJoin | internal/kvm/conn.go:159-167 | reading in chunks of any sizes decrypts the joined bytes |
| ExecuteOnce.AtMostOnce | internal/console/session.go:562-620 | in every interleaving: each record's function is called at most once, everyone answered got the answer of that run for the id and key they asked with, an unfinished record is in the table, and done is closed exactly when finished |
| ExecuteOnce.WaitersAreServed | internal/console/session.go:575-601 | nobody waits on a record that nobody will finish, panic included |
| ExecuteOnce.OtherArgumentsNeverRun | internal/console/session.go:570-574 | in every interleaving a call refused for its arguments met a record of its operation with another key, and an operation gets a new record only after all its earlier ones have finished |
| ExecuteOnce.CompletionEvicts | internal/console/session.go:608-617 | after a normal completion the table is within 256 or every other record is unfinished, and the completed one is still there |
| ExecuteOnce.LiveStays | internal/console/session.go:608-617 | an unfinished record is never evicted or replaced |
| ExecuteOnce.StepKeeps | internal/console/session.go:562-620 | every step of any caller keeps the invariant |
| ExecuteOnce.RunKeeps | internal/console/session.go:562-620 | so does every run |
| ExecuteOnce.Evict | internal/console/session.go:608-617 | the loop, in any order of the table, drops only finished records of other operations and stops at 256 |
| ExecuteOnce.Session.Begin | internal/console/session.go:563-586 | joins, refuses or records, as the protocol step says |
| ExecuteOnce.Session.Settled | internal/console/session.go:604-618 | answer, wake-up and eviction are one step of the protocol |
| ExecuteOnce.Session.GaveOut | internal/console/session.go:592-601 | a panic leaves an answer behind and evicts nothing |
| FrameUpload.NeverWritesPainted | internal/app/app.go:264-350 | in every interleaving the uploader never writes the buffer being painted, and a painter sees one frame from claim to release |
| FrameUpload.PublishedIsFresh | internal/app/app.go:305-350 | with the dirty flag clear and no upload in flight the published buffer is at least as new as the last mark |
| FrameUpload.RoundDelivers | internal/app/app.go:312-350 | no mark is lost: one undisturbed round publishes a frame at least as new |
| FrameUpload.RunKeeps | internal/app/app.go:264-408 | the invariant holds after every run |
| FrameUpload.Window.StartUpload | internal/app/app.go:314-329 | takes the buffer that is neither shown nor painted, or stays dirty |
| FrameUpload.Window.CopyFrame | internal/app/app.go:331-341 | the copy without the mutex touches only the chosen buffer |
| FrameUpload.Window.Publish | internal/app/app.go:343-348 | shows the buffer that was copied |
| FrameUpload.Window.MarkFrameDirty | internal/app/app.go:305-310 | marks the frame the decoder is at |
| FrameUpload.Window.ClaimFrame | internal/app/app.go:398-406 | claims the published buffer |
| FrameUpload.Window.ReleaseFrame | internal/app/app.go:268-271 | gives the buffer back |
| ScsiCd.UnitAttentionOnWire | internal/vmedia/session.go:184-277 | over every run with a non-empty image: the reply header that a command puts on the wire has sense key 6 if and only if the command is a TEST UNIT READY or READ CAPACITY before which there were only syncs |
| ScsiCd.UnitAttentionOnce | internal/vmedia/session.go:184-277 | the same of the log of sense keys, whatever the socket takes of the replies |
| ScsiCd.LoggedOnWire | internal/vmedia/session.go:482-507 | when the socket takes the first sixteen bytes of an answer, a reply header with exactly the logged sense key follows what was on the wire |
| ScsiCd.NewMediaReported | internal/vmedia/session.go:444-480 | over every run with a non-empty image a GET EVENT STATUS reports new media if and only if it is a media poll with room for the event and only syncs came before it; the ejection is never reported |
| ScsiCd.ReadDelivers | internal/vmedia/session.go:279-363 | every READ within the image puts one header and exactly those image bytes on the wire, chunked or not; the header's length is right exactly when it is below 4 GiB |
| ScsiCd.CapacityIsReadable | internal/vmedia/session.go:247-295 | the announced last block is right exactly up to 2^32 sectors, and then a read is in range exactly when it ends by it |
| ScsiCd.LongReadTruncated | internal/vmedia/session.go:279-338 | reading a whole image of 4 GiB puts all of it on the wire behind a header that announces nothing: a concrete request |
| ScsiCd.CapacityWraps | internal/vmedia/session.go:247-262 | with one sector more than 2^32 the announced last block is 0 |
| ScsiCd.DeliveredWithinRead | internal/vmedia/session.go:297-375 | with any socket, delivered bytes never exceed the bytes read from the image nor the bytes that went out |
| ScsiCd.HeaderFields | internal/vmedia/reply.go:23-44 | sense key and length come back out of a reply header, the length modulo 2^32 |
| ScsiCd.CdImage.Process | internal/vmedia/session.go:184-222 | one pass of the command loop: state, reply bytes and whether the loop goes on |
| ScsiCd.CdImage.ReadCommand | internal/vmedia/session.go:279-338 | READ(10) and READ(12), the empty and the out-of-range read included |
| ScsiCd.CdImage.SendInChunks | internal/vmedia/session.go:303-326 | the chunk loop with its counters, stopping at the first short or failed write |
| ScsiCd.CdImage.SendReadData | internal/vmedia/session.go:340-363 | header and data in one write, with the clamped count of delivered bytes |
| ScsiCd.CdImage.UpdateMediaState | internal/vmedia/session.go:224-241 | the media and event state machine between commands |
| ScsiCd.CdImage.ReadCapacityCommand | internal/vmedia/session.go:247-262 | four answers by media state and size |
| ScsiCd.CdImage.TestUnitReadyCommand | internal/vmedia/session.go:264-277 | not ready, unit attention, then ready |
| ScsiCd.CdImage.StartStopUnit | internal/vmedia/session.go:377-387 | eject stops the loop, but only after its reply went out |
| KeyEvents.ModifiersTrack | internal/rfb/keysym.go:195-235 | after every run of reports the modifier keysyms held are exactly those of the last report's modifier byte |
| KeyEvents.AllUpReleases | internal/rfb/keysym.go:195-235 | in every run in which no held key changes its keysym an all-up report leaves nothing held |
| KeyEvents.ChordReleases | internal/rfb/keysym.go:195-235 | any chord followed by all-up leaves nothing held |
| KeyEvents.AllUpReleasesIff | internal/rfb/keysym.go:195-235 | after every run of reports an all-up report leaves nothing held if and only if every keysym some report pressed was released by a later one or belongs to a key of the last report under its own shift |
| KeyEvents.HeldExactly | internal/rfb/keysym.go:203-231 | after every run the ordinary keysyms held are those pressed by some report and released by none after it |
| KeyEvents.TwoReportsReleaseIff | internal/rfb/keysym.go:205-231 | for two reports: if and only if no key held across them loses its first keysym |
| KeyEvents.ResetReleasesNothing | internal/rfb/keysym.go:237-242 | after a reset the next report releases nothing the peer holds, and an all-up report changes nothing at all |
| KeyEvents.ShiftLeavesKeyHeld | internal/rfb/keysym.go:205-231 | pressing shift while A stays down leaves the lower-case keysym held: a concrete run |
| KeyEvents.AllUpEffect | internal/rfb/keysym.go:195-235 | what exactly an all-up report releases, after any run |
| KeyEvents.HeldBelongs | internal/rfb/keysym.go:195-235 | in such a run every ordinary keysym held belongs to a key of the last report |
| KeyEvents.DiffEffect | internal/rfb/keysym.go:203-231 | what one report does to one keysym, for any set held before |
| KeyEvents.KeyboardState.Apply | internal/rfb/keysym.go:195-235 | the loops emit releases, modifier releases, modifier presses and presses in that order, and remember the report |
| KeyEvents.OrdinaryKeysym | internal/rfb/keysym.go:22-46 | no HID usage has the keysym of a modifier |

## Left out

- Counters are natural numbers: no wrap-around of `countBytes`, `pixelCount`, `fatalCount` and `zeroCount` at 2^32 or of revisions, refresh requests, encryption ids and health counters at 2^64.
- DecoderRun.FeedSplit: compares the zero-run counter only up to 31, where a resynchronisation is due anyway; bytes that arrive after EXIT are ignored, as by the code.
- Decoders.Decoder.Feed: the scalar registers are one record field of the object, the three byte tables one array of entries, and the outputs of `lru` that no caller reads are dropped.
- DecoderCodes.PrintDelivers: the message handler is a list of delivered messages; what the handler does is not modelled.
- DecoderRun.RunGivesUp: speaks of the first resynchronisation; after one the count restarts from the leading zeros of a dropped byte, as `Decoders.Decoder.Resynchronise` states.
- Screens.Screen.At: pictures are compared on red, green and blue with alpha read as 255; the stored alpha bytes of an untouched screen are not modelled, nor is `CopyFrame`.
- RfbTheorems.HextilePicture: asks for subrectangles inside their tiles; what overrunning ones do is stated tile by tile in `RfbTheorems.TileOutside`.
- The RFB handshake, pixel format and encoding negotiation, colour maps, cut text and client messages: reading and writing of fixed fields.
- WsConn.Conn.ReadMessage: the text of errors, the close code and reason, deadlines and the HTTP upgrade.
- WsClose.NoDeadlock: takes it that a blocked read or write ends, by its deadline or otherwise.
- KeyboardMaps.BuildRegistry: strokes are compiled, ids unique and `selectable` defaulted beforehand; display names and locales are dropped. JSON parsing, validation, duplicate files and the tables of layouts are not modelled.
- ExecuteOnce.AtMostOnce: is per record; an operation whose finished record was evicted runs again, as the code has it. Contexts are a step that may cancel a wait at any time.
- FrameUpload.PublishedIsFresh: the frame source stays the same throughout a run; frames are their version numbers.
- CipherStream.Conn.Write: the block cipher is any function on 16-byte blocks; connections without a cipher, the legacy ciphers and their switch in mid-stream, and key exchange are not modelled.
- ScsiCd.CdImage.Process: the table of contents is any data that depends on the request (its minutes, seconds and frames are floating-point arithmetic); the image file stays open and readable, and the keepalive goroutine's own replies are not interleaved.
- KeyEvents.KeyboardState.Apply: `KeysymForRune` is not modelled.
- Sockets, TLS, HTTP and Redfish clients, vendor detection, automation tools, windows, dialogs and stores: plumbing over other libraries.
