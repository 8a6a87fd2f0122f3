/**
 The virtual CD drive: one 12-byte command in, at most one reply out, over a socket
 that may take any part of what is written.
 */
module ScsiCd {
  import opened Bits

  const SECTOR := 2048
  const CHUNK := 131072
  const LIMIT := 0x1_0000_0000

  type Request = r: seq<byte> | |r| == 12 witness seq(12, _ => 0)

  /** How many bytes a socket write takes, and whether it reports an error. */
  datatype WriteEvent = WriteEvent(took: nat, failed: bool)

  type Env = nat -> WriteEvent

  /** The bytes that left so far and how many writes were made. */
  datatype Link = Link(wire: seq<byte>, writes: nat)

  datatype Written = Written(link: Link, took: nat, failed: bool)

  function Put(env: Env, l: Link, data: seq<byte>): (w: Written)
    ensures w.took <= |data| && w.link == Link(l.wire + data[..w.took], l.writes + 1)
  {
    var e := env(l.writes);
    var n := if e.took < |data| then e.took else |data|;
    Written(Link(l.wire + data[..n], l.writes + 1), n, e.failed)
  }

  // ---- Replies -----------------------------------------------------------------

  /** A reply header: magic, flags, media byte, sense triple, payload length modulo 2^32. */
  function Header(flags: nat, media: byte, sense: byte, asc: byte, ascq: byte, length: nat): (h: seq<byte>)
    ensures |h| == 16
  {
    [0xde, 0xc0, 0xad, 0x0b] + LittleEndianBytes(flags, 4)
    + [media, sense, asc, ascq] + LittleEndianBytes(length % LIMIT, 4)
  }

  function SenseOf(h: seq<byte>): byte
    requires |h| >= 16
  {
    h[9]
  }

  function LengthOf(h: seq<byte>): nat
    requires |h| >= 16
  {
    LittleEndian(h[12..16])
  }

  lemma HeaderFields(flags: nat, media: byte, sense: byte, asc: byte, ascq: byte, length: nat)
    ensures var h := Header(flags, media, sense, asc, ascq, length);
      SenseOf(h) == sense && LengthOf(h) == length % LIMIT
  {
    var h := Header(flags, media, sense, asc, ascq, length);
    assert h[12..16] == LittleEndianBytes(length % LIMIT, 4);
    assert Pow256(4) == LIMIT;
    LittleEndianRoundTrip(length % LIMIT, 4);
  }

  function SyncReply(req: Request): seq<byte> {
    Header(2, 0, 0, 0, 0, 0)[..8] + req[4..12]
  }

  // ---- The drive -----------------------------------------------------------------

  datatype Drive = Drive(mediaState: nat, eventState: nat, media: byte,
                         deviceReady: bool, readBytes: nat, deliveredBytes: nat)
  {
    /** The byte counters after n bytes of the image were read and `took` of them left. */
    function Counted(n: nat, took: nat): Drive {
      this.(readBytes := readBytes + n, deliveredBytes := deliveredBytes + took)
    }
  }

  const EMPTY := Drive(0, 0, 0, false, 0, 0)

  function UpdateMedia(d: Drive, size: nat): Drive {
    if size == 0 then d.(media := 0, mediaState := 0, eventState := 0)
    else
      var event := if d.eventState == 4 then 0 else d.eventState;
      d.(media := 1,
         mediaState := if d.mediaState < 2 then d.mediaState + 1 else d.mediaState,
         eventState := if event < 2 then event + 1 else event)
  }

  /** What one command leaves: the drive, the link, whether the loop goes on, and the
      sense keys of the headers it put on the link. */
  datatype Step = Step(drive: Drive, link: Link, goesOn: bool, senses: seq<byte>)

  /** One reply in one write. */
  function Reply(env: Env, d: Drive, l: Link, sense: byte, asc: byte, ascq: byte, data: seq<byte>): Step {
    var w := Put(env, l, Header(0, d.media, sense, asc, ascq, |data|) + data);
    Step(d, w.link, !w.failed, [sense])
  }

  /** Chunks of the image from `at` until `end`, each counted as read and as delivered as far as it went. */
  function SendChunks(env: Env, d: Drive, l: Link, image: seq<byte>, at: nat, end: nat): Step
    requires at <= end <= |image|
    decreases end - at
  {
    if at == end then Step(d.(deviceReady := true), l, true, [])
    else
      var n := if end - at < CHUNK then end - at else CHUNK;
      var w := Put(env, l, image[at..at + n]);
      var d' := d.Counted(n, w.took);
      if w.failed || w.took != n then Step(d', w.link, false, [])
      else SendChunks(env, d', w.link, image, at + n, end)
  }

  /** The first chunk of at least one, and the rest. */
  lemma ChunksUnfold(env: Env, d: Drive, l: Link, image: seq<byte>, at: nat, n: nat, end: nat)
    requires at < end <= |image| && n == if end - at < CHUNK then end - at else CHUNK
    ensures var w := Put(env, l, image[at..at + n]);
      var d' := d.Counted(n, w.took);
      SendChunks(env, d, l, image, at, end)
        == if w.failed || w.took != n then Step(d', w.link, false, [])
           else SendChunks(env, d', w.link, image, at + n, end)
  {
  }

  lemma ChunksEnd(env: Env, d: Drive, l: Link, image: seq<byte>, at: nat)
    requires at <= |image|
    ensures SendChunks(env, d, l, image, at, at) == Step(d.(deviceReady := true), l, true, [])
  {
  }

  function ReadBlocks(req: Request): nat {
    if req[0] == 0xa8 then BigEndian(req[6..10]) else BigEndian(req[7..9])
  }

  function ReadData(env: Env, d: Drive, l: Link, image: seq<byte>, offset: nat, length: nat): Step
    requires offset + length <= |image|
  {
    var header := Header(0, d.media, 0, 0, 0, length);
    if length > CHUNK then
      var w := Put(env, l, header);
      if w.failed then Step(d, w.link, false, [0])
      else
        var s := SendChunks(env, d, w.link, image, offset, offset + length);
        s.(senses := [0])
    else
      var w := Put(env, l, header + image[offset..offset + length]);
      var payload := if w.took < 16 then 0 else w.took - 16;
      var ok := !w.failed && w.took == 16 + length;
      Step(d.(readBytes := d.readBytes + length, deliveredBytes := d.deliveredBytes + payload,
              deviceReady := d.deviceReady || ok), w.link, ok, [0])
  }

  function Read(env: Env, d: Drive, l: Link, image: seq<byte>, req: Request): Step {
    var length := ReadBlocks(req) * SECTOR;
    var offset := BigEndian(req[2..6]) * SECTOR;
    if length == 0 then Reply(env, d, l, 0, 0, 0, [])
    else if offset + length > |image| then Reply(env, d, l, 5, 33, 0, [])
    else ReadData(env, d, l, image, offset, length)
  }

  function TestUnitReady(env: Env, d: Drive, l: Link): Step {
    if d.mediaState == 0 then Reply(env, d, l, 2, 58, 0, [])
    else if d.mediaState == 1 then Reply(env, d.(mediaState := 2), l, 6, 40, 0, [])
    else
      var s := Reply(env, d, l, 0, 0, 0, []);
      if s.goesOn then s.(drive := s.drive.(deviceReady := true)) else s
  }

  function ReadCapacity(env: Env, d: Drive, l: Link, size: nat): Step {
    if d.mediaState == 0 then Reply(env, d, l, 2, 58, 0, [])
    else if d.mediaState == 1 then Reply(env, d, l, 6, 40, 0, [])
    else if size / SECTOR == 0 then Reply(env, d, l, 2, 58, 0, [])
    else Reply(env, d, l, 0, 0, 0, BigEndianBytes((size / SECTOR - 1) % LIMIT, 4) + BigEndianBytes(SECTOR, 4))
  }

  function StartStop(env: Env, d: Drive, l: Link, req: Request): Step {
    var s := Reply(env, d, l, 0, 0, 0, []);
    if s.goesOn && req[4] % 4 == 2 then s.(drive := d.(mediaState := 0, eventState := 4), goesOn := false) else s
  }

  function Clip(data: seq<byte>, n: nat): seq<byte> {
    if n < |data| then data[..n] else data
  }

  /** The sense triple and data that answer a GET EVENT STATUS. */
  datatype Answer = Answer(sense: byte, asc: byte, data: seq<byte>)

  function EventAnswer(eventState: nat, req: Request): Answer {
    var allocation := BigEndian(req[7..9]);
    if req[1] % 2 == 0 then Answer(5, 36, [])
    else if allocation == 0 then Answer(0, 0, [])
    else if (req[4] / 16) % 2 == 0 then Answer(0, 0, Clip([0, 2, 128, 16], allocation))
    else
      Answer(0, 0, Clip([0, 6, 4, 16, if eventState == 1 then 4 else if eventState == 4 then 3 else 0,
                         if eventState == 4 then 0 else 2, 0, 0], allocation))
  }

  /** A media poll whose reply has room for the event. */
  predicate TakesEvent(req: Request) {
    req[1] % 2 == 1 && (req[4] / 16) % 2 == 1 && BigEndian(req[7..9]) > 4
  }

  function EventStatus(env: Env, d: Drive, l: Link, req: Request): Step {
    var event := if !TakesEvent(req) then d.eventState
                 else if d.eventState == 1 then 2 else if d.eventState == 4 then 0 else d.eventState;
    var answer := EventAnswer(d.eventState, req);
    Reply(env, d.(eventState := event), l, answer.sense, answer.asc, 0, answer.data)
  }

  /** The table of contents is any data; only its length and sense matter here. */
  type Toc = Request -> seq<byte>

  function Handle(env: Env, toc: Toc, d: Drive, l: Link, image: seq<byte>, req: Request): Step {
    if req[0] == 0xfe then
      var w := Put(env, l, SyncReply(req));
      Step(d, w.link, !w.failed, [])
    else
      var u := UpdateMedia(d, |image|);
      match req[0]
      case 0x1e => Reply(env, u, l, 0, 0, 0, [])
      case 0x25 => ReadCapacity(env, u, l, |image|)
      case 0x1d => Step(u, l, true, [])
      case 0x00 => TestUnitReady(env, u, l)
      case 0x28 => Read(env, u, l, image, req)
      case 0xa8 => Read(env, u, l, image, req)
      case 0x1b => StartStop(env, u, l, req)
      case 0x43 => Reply(env, u, l, 0, 0, 0, toc(req))
      case 0x5a => Reply(env, u.(media := 1), l, 0, 0, 0, [0, 8, 1, 0, 0, 0, 0, 0])
      case 0x4a => EventStatus(env, u, l, req)
      case _ => Reply(env, u, l, 5, 36, 0, [])
  }

  /** The drive after a run of commands; nothing is processed once the loop has stopped. */
  function After(env: Env, toc: Toc, image: seq<byte>, reqs: seq<Request>): Step {
    if reqs == [] then Step(EMPTY, Link([], 0), true, [])
    else
      var s := After(env, toc, image, reqs[..|reqs| - 1]);
      if !s.goesOn then s.(senses := []) else Handle(env, toc, s.drive, s.link, image, reqs[|reqs| - 1])
  }

  // ---- Unit attention -----------------------------------------------------------------

  ghost predicate FirstCommand(reqs: seq<Request>) {
    reqs != [] && reqs[|reqs| - 1][0] != 0xfe && forall i :: 0 <= i < |reqs| - 1 ==> reqs[i][0] == 0xfe
  }

  lemma ProcessMedia(env: Env, toc: Toc, d: Drive, l: Link, image: seq<byte>, req: Request)
    requires image != [] && d.mediaState <= 2
    ensures var s := Handle(env, toc, d, l, image, req);
      && (6 in s.senses <==> d.mediaState == 0 && (req[0] == 0x00 || req[0] == 0x25))
      && (req[0] == 0xfe ==> s.drive == d)
      && (s.goesOn && req[0] != 0xfe ==> 1 <= s.drive.mediaState <= 2)
  {
    var u := UpdateMedia(d, |image|);
    if req[0] == 0x28 || req[0] == 0xa8 { ReadMedia(env, u, l, image, req); }
  }

  lemma ReadMedia(env: Env, d: Drive, l: Link, image: seq<byte>, req: Request)
    ensures var s := Read(env, d, l, image, req);
      s.drive.mediaState == d.mediaState && s.drive.eventState == d.eventState && 6 !in s.senses
  {
    var length, offset := ReadBlocks(req) * SECTOR, BigEndian(req[2..6]) * SECTOR;
    if length > CHUNK && offset + length <= |image| {
      var w := Put(env, l, Header(0, d.media, 0, 0, 0, length));
      ChunksMedia(env, d, w.link, image, offset, offset + length);
    }
  }

  lemma {:induction false} ChunksMedia(env: Env, d: Drive, l: Link, image: seq<byte>, at: nat, end: nat)
    requires at <= end <= |image|
    ensures var s := SendChunks(env, d, l, image, at, end).drive;
      s.mediaState == d.mediaState && s.eventState == d.eventState
    decreases end - at
  {
    if at == end {
    } else {
      var n := if end - at < CHUNK then end - at else CHUNK;
      var w := Put(env, l, image[at..at + n]);
      ChunksMedia(env, d.Counted(n, w.took), w.link, image, at + n, end);
    }
  }

  /** Over every run with a non-empty image and any socket behaviour, sense key 6 is sent
      exactly when TEST UNIT READY or READ CAPACITY is the first command that is not a
      sync and is processed at all; so it is sent at most once. */
  lemma {:induction false} UnitAttentionOnce(env: Env, toc: Toc, image: seq<byte>, reqs: seq<Request>)
    requires image != []
    ensures var s := After(env, toc, image, reqs);
      && (6 in s.senses <==>
            && FirstCommand(reqs) && After(env, toc, image, reqs[..|reqs| - 1]).goesOn
            && (reqs[|reqs| - 1][0] == 0x00 || reqs[|reqs| - 1][0] == 0x25))
      && (s.goesOn ==> s.drive.mediaState <= 2)
      && (s.goesOn ==> (s.drive.mediaState == 0 <==> forall i :: 0 <= i < |reqs| ==> reqs[i][0] == 0xfe))
  {
    if reqs == [] {
    } else {
      var front := reqs[..|reqs| - 1];
      var s := After(env, toc, image, front);
      UnitAttentionOnce(env, toc, image, front);
      assert forall i :: 0 <= i < |front| ==> front[i] == reqs[i];
      if s.goesOn { ProcessMedia(env, toc, s.drive, s.link, image, reqs[|reqs| - 1]); }
    }
  }

  // ---- What the log says is on the wire -------------------------------------------------

  lemma {:induction false} ChunksExtend(env: Env, d: Drive, l: Link, image: seq<byte>, at: nat, end: nat)
    requires at <= end <= |image|
    ensures l.wire <= SendChunks(env, d, l, image, at, end).link.wire
    decreases end - at
  {
    if at == end {
    } else {
      var n := if end - at < CHUNK then end - at else CHUNK;
      var w := Put(env, l, image[at..at + n]);
      ChunksExtend(env, d.Counted(n, w.took), w.link, image, at + n, end);
    }
  }

  /** The wire goes on from `before` with a reply header that has this sense key. */
  ghost predicate HeaderFollows(before: seq<byte>, after: seq<byte>, sense: byte) {
    && before <= after && |before| + 16 <= |after|
    && after[|before|..|before| + 4] == [0xde, 0xc0, 0xad, 0x0b]
    && SenseOf(after[|before|..|before| + 16]) == sense
  }

  lemma WholeHeader(env: Env, l: Link, media: byte, sense: byte, asc: byte, ascq: byte, length: nat, data: seq<byte>)
    requires env(l.writes).took >= 16
    ensures HeaderFollows(l.wire, Put(env, l, Header(0, media, sense, asc, ascq, length) + data).link.wire, sense)
  {
    HeaderFields(0, media, sense, asc, ascq, length);
    var h := Header(0, media, sense, asc, ascq, length);
    assert h[..4] == [0xde, 0xc0, 0xad, 0x0b];
    hide Header, SenseOf;
    var w := Put(env, l, h + data);
    assert (h + data)[..w.took] == h + (h + data)[16..w.took];
    assert w.link.wire[|l.wire|..|l.wire| + 16] == h;
    assert w.link.wire[|l.wire|..|l.wire| + 4] == h[..4];
  }

  lemma ReadLogged(env: Env, d: Drive, l: Link, image: seq<byte>, req: Request)
    requires env(l.writes).took >= 16
    ensures var s := Read(env, d, l, image, req); |s.senses| == 1 && HeaderFollows(l.wire, s.link.wire, s.senses[0])
  {
    hide Header, BigEndian, HeaderFollows;
    var length, offset := ReadBlocks(req) * SECTOR, BigEndian(req[2..6]) * SECTOR;
    WholeHeader(env, l, d.media, 0, 0, 0, 0, []);
    WholeHeader(env, l, d.media, 5, 33, 0, 0, []);
    if 0 < length && offset + length <= |image| {
      var h := Header(0, d.media, 0, 0, 0, length);
      WholeHeader(env, l, d.media, 0, 0, 0, length, []);
      assert h + [] == h;
      WholeHeader(env, l, d.media, 0, 0, 0, length, image[offset..offset + length]);
      if length > CHUNK {
        var w := Put(env, l, h);
        ChunksExtend(env, d, w.link, image, offset, offset + length);
        Extends(l.wire, w.link.wire, SendChunks(env, d, w.link, image, offset, offset + length).link.wire, 0);
      }
    }
  }

  lemma Extends(a: seq<byte>, b: seq<byte>, c: seq<byte>, sense: byte)
    requires HeaderFollows(a, b, sense) && b <= c
    ensures HeaderFollows(a, c, sense)
  {
    assert c[|a|..|a| + 4] == b[|a|..|a| + 4] && c[|a|..|a| + 16] == b[|a|..|a| + 16];
  }

  predicate Answered(req: Request) { req[0] != 0xfe && req[0] != 0x1d }

  lemma ReplyLogged(env: Env, d: Drive, l: Link, sense: byte, asc: byte, ascq: byte, data: seq<byte>)
    requires env(l.writes).took >= 16
    ensures var s := Reply(env, d, l, sense, asc, ascq, data);
      |s.senses| == 1 && HeaderFollows(l.wire, s.link.wire, s.senses[0])
  {
    hide Header, HeaderFollows;
    WholeHeader(env, l, d.media, sense, asc, ascq, |data|, data);
  }

  /** When the socket takes the first sixteen bytes of an answer, what goes out after what
      was there is a reply header with exactly the sense key of the log. */
  lemma LoggedOnWire(env: Env, toc: Toc, d: Drive, l: Link, image: seq<byte>, req: Request)
    requires env(l.writes).took >= 16 && Answered(req)
    ensures var s := Handle(env, toc, d, l, image, req);
      |s.senses| == 1 && HeaderFollows(l.wire, s.link.wire, s.senses[0])
  {
    hide Header, Read, Reply, HeaderFollows, BigEndian, BigEndianBytes, EventAnswer, TakesEvent;
    var u := UpdateMedia(d, |image|);
    forall v: Drive, sense: byte, asc: byte, ascq: byte, data: seq<byte>
      ensures var s := Reply(env, v, l, sense, asc, ascq, data);
        |s.senses| == 1 && HeaderFollows(l.wire, s.link.wire, s.senses[0])
    {
      ReplyLogged(env, v, l, sense, asc, ascq, data);
    }
    ReadLogged(env, u, l, image, req);
  }

  /** So on the wire itself: the header that answers a command has sense key 6 if and only
      if the command is a TEST UNIT READY or READ CAPACITY before which there were only
      syncs. */
  lemma UnitAttentionOnWire(env: Env, toc: Toc, image: seq<byte>, reqs: seq<Request>)
    requires image != [] && reqs != [] && Answered(reqs[|reqs| - 1])
    requires var before := After(env, toc, image, reqs[..|reqs| - 1]);
      before.goesOn && env(before.link.writes).took >= 16
    ensures var before, s := After(env, toc, image, reqs[..|reqs| - 1]), After(env, toc, image, reqs);
      var at := |before.link.wire|;
      && before.link.wire <= s.link.wire && at + 16 <= |s.link.wire|
      && s.link.wire[at..at + 4] == [0xde, 0xc0, 0xad, 0x0b]
      && (SenseOf(s.link.wire[at..at + 16]) == 6 <==>
            FirstCommand(reqs) && (reqs[|reqs| - 1][0] == 0x00 || reqs[|reqs| - 1][0] == 0x25))
  {
    hide Handle, SenseOf;
    var before := After(env, toc, image, reqs[..|reqs| - 1]);
    LoggedOnWire(env, toc, before.drive, before.link, image, reqs[|reqs| - 1]);
    UnitAttentionOnce(env, toc, image, reqs);
  }

  // ---- The new-media event ----------------------------------------------------------------

  lemma HandleEvents(env: Env, toc: Toc, d: Drive, l: Link, image: seq<byte>, req: Request)
    requires image != [] && d.eventState <= 2
    ensures var s := Handle(env, toc, d, l, image, req);
      && (req[0] == 0xfe ==> s.drive == d)
      && (s.goesOn && req[0] != 0xfe ==> 1 <= s.drive.eventState <= 2)
  {
    hide Header, BigEndian, EventAnswer, TakesEvent;
    var u := UpdateMedia(d, |image|);
    ReadMedia(env, u, l, image, req);
    hide Read;
  }

  lemma {:induction false} EventStates(env: Env, toc: Toc, image: seq<byte>, reqs: seq<Request>)
    requires image != []
    ensures var s := After(env, toc, image, reqs);
      s.goesOn ==>
        && s.drive.eventState <= 2
        && (s.drive.eventState == 0 <==> forall i :: 0 <= i < |reqs| ==> reqs[i][0] == 0xfe)
  {
    if reqs == [] {
    } else {
      var front := reqs[..|reqs| - 1];
      var s := After(env, toc, image, front);
      EventStates(env, toc, image, front);
      assert forall i :: 0 <= i < |front| ==> front[i] == reqs[i];
      if s.goesOn { HandleEvents(env, toc, s.drive, s.link, image, reqs[|reqs| - 1]); }
      hide Handle;
    }
  }

  lemma AnswerReports(eventState: nat, req: Request)
    ensures var data := EventAnswer(eventState, req).data;
      && (|data| > 4 && data[4] == 4 <==> eventState == 1 && TakesEvent(req))
      && (|data| > 4 && data[4] == 3 ==> eventState == 4)
  {
    hide BigEndian;
  }

  lemma EventReplied(env: Env, toc: Toc, d: Drive, l: Link, image: seq<byte>, req: Request)
    requires image != [] && req[0] == 0x4a
    ensures var answer := EventAnswer(UpdateMedia(d, |image|).eventState, req);
      Handle(env, toc, d, l, image, req).link ==
        Put(env, l, Header(0, 1, answer.sense, answer.asc, 0, |answer.data|) + answer.data).link
  {
    hide Header, Put, EventAnswer, Read, ReadCapacity, TestUnitReady, StartStop;
  }

  lemma FirstAfterSyncs(reqs: seq<Request>)
    requires reqs != [] && reqs[|reqs| - 1][0] != 0xfe
    ensures var front := reqs[..|reqs| - 1];
      FirstCommand(reqs) <==> forall i :: 0 <= i < |front| ==> front[i][0] == 0xfe
  {
    var front := reqs[..|reqs| - 1];
    assert forall i :: 0 <= i < |front| ==> front[i] == reqs[i];
  }

  /** Over every run with a non-empty image: a GET EVENT STATUS reports new media if and
      only if it is a media poll with room for the event and only syncs came before it;
      no reply ever reports the ejection, because the loop is over by then. */
  lemma NewMediaReported(env: Env, toc: Toc, image: seq<byte>, reqs: seq<Request>)
    requires image != [] && reqs != [] && reqs[|reqs| - 1][0] == 0x4a
    requires After(env, toc, image, reqs[..|reqs| - 1]).goesOn
    ensures var before, req := After(env, toc, image, reqs[..|reqs| - 1]), reqs[|reqs| - 1];
      var answer := EventAnswer(UpdateMedia(before.drive, |image|).eventState, req);
      && After(env, toc, image, reqs).link ==
           Put(env, before.link, Header(0, 1, answer.sense, answer.asc, 0, |answer.data|) + answer.data).link
      && (|answer.data| > 4 && answer.data[4] == 4 <==> FirstCommand(reqs) && TakesEvent(req))
      && (|answer.data| > 4 ==> answer.data[4] != 3)
  {
    var front, req := reqs[..|reqs| - 1], reqs[|reqs| - 1];
    var before := After(env, toc, image, front);
    EventStates(env, toc, image, front);
    EventReplied(env, toc, before.drive, before.link, image, req);
    AnswerReports(UpdateMedia(before.drive, |image|).eventState, req);
    hide Header, Put, EventAnswer, TakesEvent, Handle;
    FirstAfterSyncs(reqs);
  }

  // ---- Reads ------------------------------------------------------------------------------

  /** The socket takes everything. */
  ghost predicate Reliable(env: Env) {
    forall k :: !env(k).failed && env(k).took >= CHUNK + 16
  }

  lemma {:induction false} ChunksDeliver(env: Env, d: Drive, l: Link, image: seq<byte>, at: nat, end: nat)
    requires Reliable(env) && at <= end <= |image|
    ensures var s := SendChunks(env, d, l, image, at, end);
      && s.goesOn && s.link.wire == l.wire + image[at..end]
      && s.drive == d.Counted(end - at, end - at).(deviceReady := true)
    decreases end - at
  {
    if at == end {
      assert l.wire + image[at..end] == l.wire;
    } else {
      var n := if end - at < CHUNK then end - at else CHUNK;
      var part := image[at..at + n];
      var w := Put(env, l, part);
      assert part[..w.took] == part;
      var d' := d.Counted(n, n);
      ChunksDeliver(env, d', w.link, image, at + n, end);
      ChunksUnfold(env, d, l, image, at, n, end);
      hide SendChunks, Reliable;
      assert image[at..end] == part + image[at + n..end];
      assert l.wire + part + image[at + n..end] == l.wire + (part + image[at + n..end]);
    }
  }

  lemma DataDelivered(env: Env, d: Drive, l: Link, image: seq<byte>, at: nat, n: nat)
    requires Reliable(env) && at + n <= |image|
    ensures var s := ReadData(env, d, l, image, at, n);
      && s.goesOn && s.link.wire == l.wire + Header(0, d.media, 0, 0, 0, n) + image[at..at + n]
      && s.drive == d.Counted(n, n).(deviceReady := true)
  {
    hide Header, SendChunks;
    var h := Header(0, d.media, 0, 0, 0, n);
    if n > CHUNK {
      var w := Put(env, l, h);
      assert h[..w.took] == h;
      ChunksDeliver(env, d, w.link, image, at, at + n);
    } else {
      var data := h + image[at..at + n];
      var w := Put(env, l, data);
      assert data[..w.took] == data;
      assert l.wire + data == l.wire + h + image[at..at + n];
    }
  }

  /** Every READ within the image delivers one header and then exactly those bytes of
      the image, and the chunked and the one-shot path put the same bytes on the wire;
      the header's length is right exactly when it is under 4 GiB. */
  lemma ReadDelivers(env: Env, d: Drive, l: Link, image: seq<byte>, req: Request)
    requires Reliable(env)
    requires var n, at := ReadBlocks(req) * SECTOR, BigEndian(req[2..6]) * SECTOR;
      0 < n && at + n <= |image|
    ensures var n, at := ReadBlocks(req) * SECTOR, BigEndian(req[2..6]) * SECTOR;
      var s := Read(env, d, l, image, req);
      var h := Header(0, d.media, 0, 0, 0, n);
      && s.goesOn && s.link.wire == l.wire + h + image[at..at + n]
      && SenseOf(h) == 0 && (LengthOf(h) == n <==> n < LIMIT)
      && s.drive == d.Counted(n, n).(deviceReady := true)
  {
    hide Header, Reliable, ReadData, ReadBlocks, BigEndian, SenseOf, LengthOf;
    var n, at := ReadBlocks(req) * SECTOR, BigEndian(req[2..6]) * SECTOR;
    HeaderFields(0, d.media, 0, 0, 0, n);
    DataDelivered(env, d, l, image, at, n);
  }

  /** A READ(12) of 2^21 sectors from the first on. */
  const LONG_READ: Request := [0xa8, 0, 0, 0, 0, 0, 0, 0x20, 0, 0, 0, 0]

  /** At 4 GiB the length is wrong: the whole image follows a header that announces nothing. */
  lemma LongReadTruncated(env: Env, d: Drive, l: Link, image: seq<byte>)
    requires Reliable(env) && |image| == LIMIT
    ensures var h := Header(0, d.media, 0, 0, 0, LIMIT);
      Read(env, d, l, image, LONG_READ).link.wire == l.wire + h + image && LengthOf(h) == 0
  {
    assert LONG_READ[2..6] == [0, 0] + [0] + [0] && LONG_READ[6..10] == [0, 0x20] + [0] + [0];
    BigEndianTwo(0, 0);
    BigEndianNext([0, 0], 0);
    BigEndianNext([0, 0] + [0], 0);
    BigEndianTwo(0, 0x20);
    BigEndianNext([0, 0x20], 0);
    BigEndianNext([0, 0x20] + [0], 0);
    assert ReadBlocks(LONG_READ) * SECTOR == LIMIT && BigEndian(LONG_READ[2..6]) * SECTOR == 0;
    assert image[0..LIMIT] == image;
    hide BigEndian, Header, Read, Reliable;
    HeaderFields(0, d.media, 0, 0, 0, LIMIT);
    ReadDelivers(env, d, l, image, LONG_READ);
  }

  lemma InRange(size: nat, lba: nat, blocks: nat)
    requires blocks > 0
    ensures lba * SECTOR + blocks * SECTOR <= size <==> lba + blocks - 1 <= size / SECTOR - 1
  {
    var q, r := size / SECTOR, size % SECTOR;
    assert size == q * SECTOR + r;
  }

  lemma CapacityBytes(last: nat)
    ensures var data := BigEndianBytes(last % LIMIT, 4) + BigEndianBytes(SECTOR, 4);
      BigEndian(data[..4]) == last % LIMIT && BigEndian(data[4..]) == SECTOR
  {
    hide BigEndian, BigEndianBytes;
    assert Pow256(4) == LIMIT;
    BigEndianRoundTrip(last % LIMIT, 4);
    BigEndianRoundTrip(SECTOR, 4);
    var data := BigEndianBytes(last % LIMIT, 4) + BigEndianBytes(SECTOR, 4);
    assert data[..4] == BigEndianBytes(last % LIMIT, 4) && data[4..] == BigEndianBytes(SECTOR, 4);
  }

  /** What READ CAPACITY announces is what READ accepts. The announced last block is the
      real one exactly when the image has at most 2^32 sectors, and then a read is in
      range exactly when it ends by that block. */
  lemma CapacityIsReadable(env: Env, d: Drive, l: Link, image: seq<byte>, lba: nat, blocks: nat)
    requires d.mediaState == 2 && SECTOR <= |image| && blocks > 0
    ensures var s := ReadCapacity(env, d, l, |image|);
      var data := BigEndianBytes((|image| / SECTOR - 1) % LIMIT, 4) + BigEndianBytes(SECTOR, 4);
      && s == Reply(env, d, l, 0, 0, 0, data)
      && (BigEndian(data[..4]) == |image| / SECTOR - 1 <==> |image| / SECTOR <= LIMIT)
      && (|image| / SECTOR <= LIMIT ==>
            (lba * SECTOR + blocks * SECTOR <= |image| <==> lba + blocks - 1 <= BigEndian(data[..4])))
      && BigEndian(data[4..]) == SECTOR
  {
    hide BigEndian, BigEndianBytes, Header, Reply;
    CapacityBytes(|image| / SECTOR - 1);
    InRange(|image|, lba, blocks);
  }

  /** One sector too many: the announced last block is the first. */
  lemma CapacityWraps(env: Env, d: Drive, l: Link, image: seq<byte>)
    requires d.mediaState == 2 && |image| / SECTOR == LIMIT + 1
    ensures var data := BigEndianBytes(0, 4) + BigEndianBytes(SECTOR, 4);
      ReadCapacity(env, d, l, |image|) == Reply(env, d, l, 0, 0, 0, data) && BigEndian(data[..4]) == 0
  {
    CapacityBytes(LIMIT);
    hide BigEndian, BigEndianBytes, Reply;
  }

  // ---- Counters ---------------------------------------------------------------------------

  lemma {:induction false} ChunksCount(env: Env, d: Drive, l: Link, image: seq<byte>, at: nat, end: nat)
    requires at <= end <= |image| && d.deliveredBytes <= d.readBytes && d.deliveredBytes <= |l.wire|
    ensures var s := SendChunks(env, d, l, image, at, end);
      s.drive.deliveredBytes <= s.drive.readBytes && s.drive.deliveredBytes <= |s.link.wire|
    decreases end - at
  {
    if at == end {
    } else {
      var n := if end - at < CHUNK then end - at else CHUNK;
      var w := Put(env, l, image[at..at + n]);
      ChunksCount(env, d.Counted(n, w.took), w.link, image, at + n, end);
    }
  }

  lemma ReadCount(env: Env, d: Drive, l: Link, image: seq<byte>, req: Request)
    requires d.deliveredBytes <= d.readBytes && d.deliveredBytes <= |l.wire|
    ensures var s := Read(env, d, l, image, req);
      s.drive.deliveredBytes <= s.drive.readBytes && s.drive.deliveredBytes <= |s.link.wire|
  {
    hide Header, BigEndian;
    var length, offset := ReadBlocks(req) * SECTOR, BigEndian(req[2..6]) * SECTOR;
    if length > CHUNK && offset + length <= |image| {
      var w := Put(env, l, Header(0, d.media, 0, 0, 0, length));
      ChunksCount(env, d, w.link, image, offset, offset + length);
    }
  }

  /** With any socket behaviour, delivered bytes never exceed the bytes read from the
      image, nor the bytes that went out on the wire. */
  lemma {:induction false} DeliveredWithinRead(env: Env, toc: Toc, image: seq<byte>, reqs: seq<Request>)
    ensures var s := After(env, toc, image, reqs);
      s.drive.deliveredBytes <= s.drive.readBytes && s.drive.deliveredBytes <= |s.link.wire|
  {
    hide Read, Header;
    if reqs == [] {
    } else {
      var front, req := reqs[..|reqs| - 1], reqs[|reqs| - 1];
      var s := After(env, toc, image, front);
      DeliveredWithinRead(env, toc, image, front);
      if s.goesOn && (req[0] == 0x28 || req[0] == 0xa8) {
        ReadCount(env, UpdateMedia(s.drive, |image|), s.link, image, req);
      }
    }
  }

  // ---- The object ----------------------------------------------------------------------------

  class CdImage {
    const image: seq<byte>
    const env: Env
    const toc: Toc
    var mediaState: nat
    var eventState: nat
    var media: byte
    var deviceReady: bool
    var readBytes: nat
    var deliveredBytes: nat
    var wire: seq<byte>
    var writes: nat

    ghost function Value(): Drive
      reads this
    {
      Drive(mediaState, eventState, media, deviceReady, readBytes, deliveredBytes)
    }

    ghost function LinkOf(): Link
      reads this
    {
      Link(wire, writes)
    }

    constructor (image: seq<byte>, env: Env, toc: Toc)
      ensures this.image == image && this.env == env && this.toc == toc
      ensures Value() == EMPTY && LinkOf() == Link([], 0)
    {
      this.image, this.env, this.toc := image, env, toc;
      mediaState, eventState, media, deviceReady, readBytes, deliveredBytes := 0, 0, 0, false, 0, 0;
      wire, writes := [], 0;
    }

    method Write(data: seq<byte>) returns (n: nat, failed: bool)
      modifies this`wire, this`writes
      ensures var w := Put(env, old(LinkOf()), data); LinkOf() == w.link && n == w.took && failed == w.failed
    {
      var e := env(writes);
      n := if e.took < |data| then e.took else |data|;
      failed := e.failed;
      wire, writes := wire + data[..n], writes + 1;
    }

    method SendSense(sense: byte, asc: byte, ascq: byte, data: seq<byte>) returns (ok: bool)
      modifies this`wire, this`writes
      ensures var s := Reply(env, old(Value()), old(LinkOf()), sense, asc, ascq, data);
        Value() == s.drive && LinkOf() == s.link && ok == s.goesOn
    {
      var _, failed := Write(Header(0, media, sense, asc, ascq, |data|) + data);
      ok := !failed;
    }

    method UpdateMediaState()
      modifies this`mediaState, this`eventState, this`media
      ensures Value() == UpdateMedia(old(Value()), |image|)
    {
      if |image| <= 0 {
        media, mediaState, eventState := 0, 0, 0;
        return;
      }
      media := 1;
      if mediaState < 2 { mediaState := mediaState + 1; }
      if eventState == 4 { eventState := 0; }
      if eventState < 2 { eventState := eventState + 1; }
    }

    method ReadCommand(req: Request) returns (ok: bool)
      modifies this
      ensures var s := Read(env, old(Value()), old(LinkOf()), image, req);
        Value() == s.drive && LinkOf() == s.link && ok == s.goesOn
    {
      hide Header, BigEndian;
      var blocks := if req[0] == 0xa8 then BigEndian(req[6..10]) else BigEndian(req[7..9]);
      var length, offset := blocks * SECTOR, BigEndian(req[2..6]) * SECTOR;
      if length == 0 {
        ok := SendSense(0, 0, 0, []);
        return;
      }
      if offset + length > |image| {
        ok := SendSense(5, 33, 0, []);
        return;
      }
      if length > CHUNK {
        var _, failed := Write(Header(0, media, 0, 0, 0, length));
        if failed {
          return false;
        }
        ok := SendInChunks(offset, length);
        return;
      }
      ok := SendReadData(offset, length);
    }

    method SendInChunks(offset: nat, length: nat) returns (ok: bool)
      requires offset + length <= |image|
      modifies this
      ensures var s := SendChunks(env, old(Value()), old(LinkOf()), image, offset, offset + length);
        Value() == s.drive && LinkOf() == s.link && ok == s.goesOn
    {
      hide SendChunks;
      ghost var goal := SendChunks(env, Value(), LinkOf(), image, offset, offset + length);
      var done := 0;
      while done < length
        invariant done <= length
        invariant SendChunks(env, Value(), LinkOf(), image, offset + done, offset + length) == goal
      {
        ghost var d, l := Value(), LinkOf();
        var n := CHUNK;
        if length - done < n { n := length - done; }
        var data := image[offset + done..offset + done + n];
        ChunksUnfold(env, d, l, image, offset + done, n, offset + length);
        readBytes := readBytes + |data|;
        var took, failed := Write(data);
        deliveredBytes := deliveredBytes + took;
        assert Value() == d.Counted(n, took);
        assert LinkOf() == Put(env, l, data).link;
        if failed || took != |data| {
          return false;
        }
        done := done + n;
      }
      ChunksEnd(env, Value(), LinkOf(), image, offset + length);
      deviceReady := true;
      ok := true;
    }

    method SendReadData(offset: nat, length: nat) returns (ok: bool)
      requires 0 < length <= CHUNK && offset + length <= |image|
      modifies this
      ensures var s := ReadData(env, old(Value()), old(LinkOf()), image, offset, length);
        Value() == s.drive && LinkOf() == s.link && ok == s.goesOn
    {
      hide Header;
      var data := image[offset..offset + length];
      readBytes := readBytes + |data|;
      var header := Header(0, media, 0, 0, 0, |data|);
      var took, failed := Write(header + data);
      var payload := if took < |header| then 0 else took - |header|;
      if payload > |data| { payload := |data|; }
      deliveredBytes := deliveredBytes + payload;
      ok := !failed && took == |header| + |data|;
      if ok { deviceReady := true; }
    }

    /** One pass of the command loop. */
    method Process(req: Request) returns (goesOn: bool)
      modifies this
      ensures var s := Handle(env, toc, old(Value()), old(LinkOf()), image, req);
        Value() == s.drive && LinkOf() == s.link && goesOn == s.goesOn
    {
      hide Header, Read, Reply;
      if req[0] == 0xfe {
        var _, failed := Write(SyncReply(req));
        return !failed;
      }
      UpdateMediaState();
      match req[0]
      case 0x1e => goesOn := SendSense(0, 0, 0, []);
      case 0x25 => goesOn := ReadCapacityCommand();
      case 0x1d => goesOn := true;
      case 0x00 => goesOn := TestUnitReadyCommand();
      case 0x28 => goesOn := ReadCommand(req);
      case 0xa8 => goesOn := ReadCommand(req);
      case 0x1b => goesOn := StartStopUnit(req);
      case 0x43 => goesOn := SendSense(0, 0, 0, toc(req));
      case 0x5a =>
        media := 1;
        goesOn := SendSense(0, 0, 0, [0, 8, 1, 0, 0, 0, 0, 0]);
      case 0x4a => goesOn := GetEventStatus(req);
      case _ => goesOn := SendSense(5, 36, 0, []);
    }

    method ReadCapacityCommand() returns (ok: bool)
      modifies this`wire, this`writes
      ensures var s := ReadCapacity(env, old(Value()), old(LinkOf()), |image|);
        Value() == s.drive && LinkOf() == s.link && ok == s.goesOn
    {
      hide Reply;
      if mediaState == 0 {
        ok := SendSense(2, 58, 0, []);
        return;
      }
      if mediaState == 1 {
        ok := SendSense(6, 40, 0, []);
        return;
      }
      var blocks := |image| / SECTOR;
      if blocks <= 0 {
        ok := SendSense(2, 58, 0, []);
        return;
      }
      ok := SendSense(0, 0, 0, BigEndianBytes((blocks - 1) % LIMIT, 4) + BigEndianBytes(SECTOR, 4));
    }

    method TestUnitReadyCommand() returns (ok: bool)
      modifies this
      ensures var s := TestUnitReady(env, old(Value()), old(LinkOf()));
        Value() == s.drive && LinkOf() == s.link && ok == s.goesOn
    {
      hide Header;
      if mediaState == 0 {
        ok := SendSense(2, 58, 0, []);
        return;
      }
      if mediaState == 1 {
        mediaState := 2;
        ok := SendSense(6, 40, 0, []);
        return;
      }
      ok := SendSense(0, 0, 0, []);
      if ok { deviceReady := true; }
    }

    method StartStopUnit(req: Request) returns (goesOn: bool)
      modifies this
      ensures var s := StartStop(env, old(Value()), old(LinkOf()), req);
        Value() == s.drive && LinkOf() == s.link && goesOn == s.goesOn
    {
      hide Header;
      goesOn := SendSense(0, 0, 0, []);
      if goesOn && req[4] % 4 == 2 {
        mediaState, eventState := 0, 4;
        goesOn := false;
      }
    }

    method GetEventStatus(req: Request) returns (ok: bool)
      modifies this
      ensures var s := EventStatus(env, old(Value()), old(LinkOf()), req);
        Value() == s.drive && LinkOf() == s.link && ok == s.goesOn
    {
      hide Reply, BigEndian, BigEndianBytes;
      if req[1] % 2 == 0 {
        ok := SendSense(5, 36, 0, []);
        return;
      }
      var allocation := BigEndian(req[7..9]);
      if allocation <= 0 {
        ok := SendSense(0, 0, 0, []);
        return;
      }
      if (req[4] / 16) % 2 == 0 {
        ok := SendSense(0, 0, 0, Clip([0, 2, 128, 16], allocation));
        return;
      }
      var data: seq<byte> := [0, 6, 4, 16, 0, 0, 0, 0];
      if eventState == 1 {
        data := data[4 := 4][5 := 2];
        if allocation > 4 { eventState := 2; }
      } else if eventState == 4 {
        data := data[4 := 3];
        if allocation > 4 { eventState := 0; }
      } else {
        data := data[5 := 2];
      }
      assert data == [0, 6, 4, 16, if old(eventState) == 1 then 4 else if old(eventState) == 4 then 3 else 0,
                      if old(eventState) == 4 then 0 else 2, 0, 0];
      ok := SendSense(0, 0, 0, Clip(data, allocation));
    }
  }
}
