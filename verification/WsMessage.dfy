/**
 Messages over frames: what writing a frame does, and what ReadMessage makes of a
 stream (sections 5.4 and 5.5 of RFC 6455), as functions; with the theorem that
 every fragmentation, with control frames anywhere between the fragments, reads
 back as the message.
 */
module WsMessage {
  import opened Bits
  import opened WsFrame

  /** What the environment does with the k-th frame written: the random source may
      fail, else it gives the key and the socket takes some number of bytes. */
  datatype WriteEvent = NoKey | Socket(key: Key, accepts: nat)

  type Env = nat -> WriteEvent

  /** The writing half: the flag, how many frames were attempted, the bytes that left. */
  datatype Writer = Writer(sentClose: bool, attempts: nat, wire: seq<byte>)

  datatype WriteResult = Sent | Acknowledged | Refused | Broken

  predicate Ok(r: WriteResult) {
    r == Sent || r == Acknowledged
  }

  function Prefix(s: seq<byte>, n: nat): seq<byte> {
    if n < |s| then s[..n] else s
  }

  function WriteFrame(env: Env, w: Writer, opcode: Opcode, payload: seq<byte>): (r: (Writer, WriteResult)) {
    if w.sentClose && opcode == CLOSE then (w, Acknowledged)
    else if w.sentClose && opcode < CLOSE then (w, Refused)
    else
      var sent := w.sentClose || opcode == CLOSE;
      match env(w.attempts)
      case NoKey => (Writer(sent, w.attempts + 1, w.wire), Broken)
      case Socket(key, accepts) =>
        var out := Encode(Frame(true, opcode, payload), Masked(key));
        (Writer(sent, w.attempts + 1, w.wire + Prefix(out, accepts)), if accepts >= |out| then Sent else Broken)
  }

  datatype ReadError =
    FrameFailed(e: FrameError) | WriteFailed | Interleaved | NoStart | TooLarge | UnknownOpcode(o: Opcode)

  datatype MessageResult = Message(payload: seq<byte>) | PeerClosed(payload: seq<byte>) | Failed(error: ReadError)

  datatype Reading = Reading(result: MessageResult, rest: seq<byte>, writer: Writer)

  datatype Assembly = Nothing | Started(payload: seq<byte>)

  function Held(a: Assembly): seq<byte> {
    if a.Started? then a.payload else []
  }

  /** What one frame contributes: the assembly goes on, or the read is over. */
  datatype Contribution = More(assembly: Assembly, writer: Writer) | Done(result: MessageResult, writer: Writer)

  function Handle(env: Env, w: Writer, a: Assembly, f: Frame): (c: Contribution) {
    if f.opcode == PING then
      var (w', r) := WriteFrame(env, w, PONG, f.payload);
      if Ok(r) then More(a, w') else Done(Failed(WriteFailed), w')
    else if f.opcode == PONG then More(a, w)
    else if f.opcode == CLOSE then Done(PeerClosed(f.payload), WriteFrame(env, w, CLOSE, f.payload).0)
    else if f.opcode == TEXT || f.opcode == BINARY then
      if a.Started? then Done(Failed(Interleaved), w)
      else if f.fin then Done(Message(f.payload), w)
      else More(Started(f.payload), w)
    else if f.opcode == CONTINUATION then
      if a.Nothing? then Done(Failed(NoStart), w)
      else if |a.payload| + |f.payload| > MAX_MESSAGE_SIZE then Done(Failed(TooLarge), w)
      else if f.fin then Done(Message(a.payload + f.payload), w)
      else More(Started(a.payload + f.payload), w)
    else Done(Failed(UnknownOpcode(f.opcode)), w)
  }

  function ReadFrom(env: Env, w: Writer, a: Assembly, input: seq<byte>): (r: Reading)
    decreases |input|
  {
    match Parse(input)
    case Bad(e, rest) => Reading(Failed(FrameFailed(e)), rest, w)
    case Good(f, rest) =>
      match Handle(env, w, a, f)
      case Done(result, w') => Reading(result, rest, w')
      case More(a', w') => ReadFrom(env, w', a', rest)
  }

  /** What Close reads after its own Close frame: everything up to the peer's Close,
      pings answered, the rest ignored. */
  datatype Drained = Drained(peerClosed: bool, rest: seq<byte>, writer: Writer)

  function Drain(env: Env, w: Writer, input: seq<byte>): (d: Drained)
    decreases |input|
  {
    match Parse(input)
    case Bad(_, rest) => Drained(false, rest, w)
    case Good(f, rest) =>
      if f.opcode == CLOSE then Drained(true, rest, w)
      else if f.opcode == PING then Drain(env, WriteFrame(env, w, PONG, f.payload).0, rest)
      else Drain(env, w, rest)
  }

  // ---- Every message is within the limit ---------------------------------------

  /** No stream makes ReadMessage return more than the limit. */
  lemma {:induction false} MessageBounded(env: Env, w: Writer, a: Assembly, input: seq<byte>)
    requires a.Started? ==> |a.payload| <= MAX_MESSAGE_SIZE
    ensures var r := ReadFrom(env, w, a, input).result;
      r.Message? ==> |r.payload| <= MAX_MESSAGE_SIZE
    decreases |input|
  {
    match Parse(input)
    case Bad(_, _) =>
    case Good(f, rest) =>
      match Handle(env, w, a, f)
      case Done(_, _) =>
      case More(a', w') => MessageBounded(env, w', a', rest);
  }

  // ---- Fragmentation ---------------------------------------------------------------

  /** What a peer sends while one message is under way. */
  datatype Piece =
    | Data(payload: seq<byte>, masking: Masking)
    | Ping(payload: seq<byte>, masking: Masking)
    | Pong(payload: seq<byte>, masking: Masking)

  function PieceFrame(p: Piece, first: bool, last: bool, kind: Opcode): Frame {
    match p
    case Data(d, _) => Frame(last, if first then kind else CONTINUATION, d)
    case Ping(d, _) => Frame(true, PING, d)
    case Pong(d, _) => Frame(true, PONG, d)
  }

  /** The fragments and control frames on the wire; the last piece closes the message. */
  function Stream(pieces: seq<Piece>, started: bool, kind: Opcode): seq<byte> {
    if pieces == [] then []
    else
      var p := pieces[0];
      Encode(PieceFrame(p, !started, |pieces| == 1, kind), p.masking) + Stream(pieces[1..], started || p.Data?, kind)
  }

  function Text(pieces: seq<Piece>): seq<byte> {
    if pieces == [] then []
    else (if pieces[0].Data? then pieces[0].payload else []) + Text(pieces[1..])
  }

  /** The writer after answering every ping in order with its own payload. */
  function Answered(env: Env, w: Writer, pieces: seq<Piece>): Writer
    decreases |pieces|
  {
    if pieces == [] then w
    else Answered(env, if pieces[0].Ping? then WriteFrame(env, w, PONG, pieces[0].payload).0 else w, pieces[1..])
  }

  /** A message being sent: it ends with a fragment, control payloads are short. */
  ghost predicate Sendable(pieces: seq<Piece>) {
    && pieces != [] && pieces[|pieces| - 1].Data?
    && forall p :: p in pieces ==> p.Data? || |p.payload| <= 125
  }

  /** The socket takes every frame whole. */
  ghost predicate Reliable(env: Env) {
    forall k :: env(k).Socket? && env(k).accepts >= 139
  }

  lemma PongSent(env: Env, w: Writer, payload: seq<byte>)
    requires Reliable(env) && |payload| <= 125
    ensures WriteFrame(env, w, PONG, payload).1 == Sent
    ensures WriteFrame(env, w, PONG, payload).0.wire ==
      w.wire + Encode(Frame(true, PONG, payload), Masked(env(w.attempts).key))
  {
    hide ApplyMask;
    var e := env(w.attempts);
    assert |Encode(Frame(true, PONG, payload), Masked(e.key))| <= 139;
  }

  /** Reading on past one acceptable frame. */
  lemma ReadsFrame(env: Env, w: Writer, a: Assembly, f: Frame, masking: Masking, rest: seq<byte>)
    requires Acceptable(f)
    ensures var c := Handle(env, w, a, f);
      ReadFrom(env, w, a, Encode(f, masking) + rest) ==
      if c.Done? then Reading(c.result, rest, c.writer) else ReadFrom(env, c.writer, c.assembly, rest)
  {
    hide Encode, Handle, Acceptable;
    RoundTrip(f, masking, rest);
  }

  function DataOf(p: Piece): seq<byte> {
    if p.Data? then p.payload else []
  }

  /** A piece within the limits is an acceptable frame, and the read goes on after it
      unless it is the last fragment. */
  lemma HandlePiece(env: Env, w: Writer, a: Assembly, p: Piece, last: bool, kind: Opcode)
    requires Reliable(env) && kind in {TEXT, BINARY} && (last ==> p.Data?)
    requires (p.Data? || |p.payload| <= 125) && |Held(a)| + |DataOf(p)| <= MAX_MESSAGE_SIZE
    ensures var f := PieceFrame(p, a.Nothing?, last, kind);
      && Acceptable(f)
      && (last ==> Handle(env, w, a, f) == Done(Message(Held(a) + DataOf(p)), w))
      && (!last ==>
            var w' := if p.Ping? then WriteFrame(env, w, PONG, p.payload).0 else w;
            var a' := if a.Started? || p.Data? then Started(Held(a) + DataOf(p)) else Nothing;
            Handle(env, w, a, f) == More(a', w'))
  {
    hide Encode, WriteFrame;
    if p.Ping? { PongSent(env, w, p.payload); }
    assert Held(a) + [] == Held(a) && [] + p.payload == p.payload;
  }

  /** For every fragmentation of a message within the limit, with pings and pongs
      anywhere before its end, and any masking: the read returns exactly the
      concatenated fragments, answers the pings in order, and consumes exactly the
      message's bytes. */
  lemma {:induction false} FragmentsRejoin(env: Env, w: Writer, a: Assembly, pieces: seq<Piece>,
                                           kind: Opcode, tail: seq<byte>)
    requires Sendable(pieces) && Reliable(env) && kind in {TEXT, BINARY}
    requires |Held(a)| + |Text(pieces)| <= MAX_MESSAGE_SIZE
    ensures ReadFrom(env, w, a, Stream(pieces, a.Started?, kind) + tail) ==
      Reading(Message(Held(a) + Text(pieces)), tail, Answered(env, w, pieces))
    decreases |pieces|
  {
    assert pieces != [];
    hide Encode, WriteFrame, Parse, Handle, Acceptable, ReadFrom, Sendable;
    hide Reliable, PieceFrame, Stream, Text, Answered, Held, DataOf;
    var p, more := pieces[0], pieces[1..];
    var last := |pieces| == 1;
    var f := PieceFrame(p, a.Nothing?, last, kind);
    Unrolled(env, w, pieces, a.Started?, kind, tail);
    SendableParts(pieces);
    HandlePiece(env, w, a, p, last, kind);
    ReadsFrame(env, w, a, f, p.masking, Stream(more, a.Started? || p.Data?, kind) + tail);
    if last {
      NoPieces(env, w, kind, tail);
      assert DataOf(p) + [] == DataOf(p);
    } else {
      var w' := if p.Ping? then WriteFrame(env, w, PONG, p.payload).0 else w;
      var a' := if a.Started? || p.Data? then Started(Held(a) + DataOf(p)) else Nothing;
      HeldNext(a, p, Text(more));
      FragmentsRejoin(env, w', a', more, kind, tail);
    }
  }

  lemma HeldNext(a: Assembly, p: Piece, text: seq<byte>)
    ensures var a' := if a.Started? || p.Data? then Started(Held(a) + DataOf(p)) else Nothing;
      Held(a') == Held(a) + DataOf(p) && Held(a') + text == Held(a) + (DataOf(p) + text)
  {
  }

  /** The first piece and what remains, of the bytes, the text and the answers. */
  lemma Unrolled(env: Env, w: Writer, pieces: seq<Piece>, started: bool, kind: Opcode, tail: seq<byte>)
    requires pieces != []
    ensures var p, more := pieces[0], pieces[1..];
      && Stream(pieces, started, kind) + tail
         == Encode(PieceFrame(p, !started, |pieces| == 1, kind), p.masking)
            + (Stream(more, started || p.Data?, kind) + tail)
      && Text(pieces) == DataOf(p) + Text(more)
      && Answered(env, w, pieces) == Answered(env, if p.Ping? then WriteFrame(env, w, PONG, p.payload).0 else w, more)
  {
    hide Encode, WriteFrame, PieceFrame;
  }

  lemma NoPieces(env: Env, w: Writer, kind: Opcode, tail: seq<byte>)
    ensures Stream([], true, kind) + tail == tail && Text([]) == [] && Answered(env, w, []) == w
  {
  }

  lemma SendableParts(pieces: seq<Piece>)
    requires Sendable(pieces)
    ensures pieces[0].Data? || |pieces[0].payload| <= 125
    ensures if |pieces| == 1 then pieces[0].Data? else Sendable(pieces[1..])
  {
    assert pieces[0] in pieces;
    if |pieces| > 1 {
      var more := pieces[1..];
      assert more[|more| - 1] == pieces[|pieces| - 1];
      assert forall q :: q in more ==> q in pieces;
    }
  }

  /** One pong frame for every ping, in order, each with the ping's own payload. */
  function Pongs(env: Env, attempts: nat, pieces: seq<Piece>): seq<byte>
    requires Reliable(env)
    decreases |pieces|
  {
    if pieces == [] then []
    else if pieces[0].Ping? then
      Encode(Frame(true, PONG, pieces[0].payload), Masked(env(attempts).key)) + Pongs(env, attempts + 1, pieces[1..])
    else Pongs(env, attempts, pieces[1..])
  }

  lemma {:induction false} AnswersPings(env: Env, w: Writer, pieces: seq<Piece>)
    requires Reliable(env) && forall p :: p in pieces ==> p.Data? || |p.payload| <= 125
    ensures Answered(env, w, pieces).wire == w.wire + Pongs(env, w.attempts, pieces)
    decreases |pieces|
  {
    hide Encode;
    if pieces == [] {
      assert w.wire + [] == w.wire;
    } else {
      assert pieces[0] in pieces && forall p :: p in pieces[1..] ==> p in pieces;
      var w' := if pieces[0].Ping? then WriteFrame(env, w, PONG, pieces[0].payload).0 else w;
      if pieces[0].Ping? { PongSent(env, w, pieces[0].payload); }
      AnswersPings(env, w', pieces[1..]);
    }
  }
}
