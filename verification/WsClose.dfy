/**
 The closing handshake under concurrency: any number of goroutines calling
 ReadMessage, WriteMessage, Ping and Close on one connection. The read lock is held
 from LockRead or LockDrain until the call releases it, the write lock from LockWrite
 until the frame has been written, refused or swallowed.
 */
module WsClose {
  import opened Bits
  import opened WsFrame
  import M = WsMessage

  type Thread = nat

  datatype Pc =
    | Idle
    | Sending(op: Opcode) // WriteMessage or Ping
    | ReadWait          // ReadMessage, before the read lock
    | Reading           // ReadMessage, about to read a frame
    | ReadPong          // ReadMessage, a ping to be answered
    | ReadReply         // ReadMessage, the peer's Close to be acknowledged
    | OnceWait          // Close, while another goroutine runs it
    | CloseWrite        // Close, about to write the Close frame
    | CloseWait         // Close, before the read lock
    | Draining          // Close, waiting for the peer's Close
    | DrainPong         // Close, a ping to be answered
    | Hangup            // Close, about to drop the socket

  datatype Lock = Free | Held(owner: Thread)
  datatype Once = Unused | Running(owner: Thread) | Finished

  datatype State = State(
    pc: map<Thread, Pc>,
    readLock: Lock,
    writeLock: Lock,
    once: Once,
    peerClosed: bool,
    sentClose: bool,
    hungUp: bool,
    written: seq<Opcode>,      // frames that reached the wire, whole or in part
    read: seq<Opcode>)         // frames read from the peer

  function PcOf(s: State, t: Thread): Pc {
    if t in s.pc then s.pc[t] else Idle
  }

  function At(s: State, t: Thread, pc: Pc): State {
    s.(pc := s.pc[t := pc])
  }

  function Release(s: State): State { s.(readLock := Free) }

  const INITIAL := State(map[], Free, Free, Unused, false, false, false, [], [])

  datatype Action =
    | StartRead | LockRead | ReadsFrame(op: Opcode, goesOn: bool) | ReadFails
    | StartSend(op: Opcode) | LockWrite | Writes(op: Opcode, reached: bool, succeeds: bool)
    | StartClose | OnceReturns | LockDrain | DrainsFrame(op: Opcode) | HangsUp

  /** Writing a frame: swallowed, refused, or attempted with any outcome the socket allows. */
  function Written(s: State, op: Opcode, reached: bool): State {
    if s.sentClose && op <= CLOSE then s
    else s.(sentClose := s.sentClose || op == CLOSE, written := if reached then s.written + [op] else s.written)
  }

  /** Whether writeFrame reports success. */
  predicate Reports(s: State, op: Opcode, reached: bool, succeeds: bool) {
    if s.sentClose && op == CLOSE then succeeds
    else if s.sentClose && op < CLOSE then !succeeds
    else succeeds ==> reached
  }

  /** The write step is what writing a frame does to the flag, the wire and its result. */
  lemma WriteStepRefines(env: M.Env, w: M.Writer, op: Opcode, payload: seq<byte>, s: State)
    requires s.sentClose == w.sentClose
    ensures var (w', r) := M.WriteFrame(env, w, op, payload);
      var reached := w'.wire != w.wire;
      var n := Written(s, op, reached);
      && n.sentClose == w'.sentClose && Reports(s, op, reached, M.Ok(r))
      && (n.written != s.written <==> reached)
  {
    var (w', r) := M.WriteFrame(env, w, op, payload);
    if env(w.attempts).Socket? {
      var out := Encode(Frame(true, op, payload), Masked(env(w.attempts).key));
      assert |out| > 0;
      assert w'.wire == w.wire || w'.wire == w.wire + M.Prefix(out, env(w.attempts).accepts);
      assert w'.wire == w.wire ==> |w'.wire| == |w.wire|;
    }
  }

  /** Calls that hold the write lock or wait for it. */
  predicate MayWrite(pc: Pc) { pc.Sending? || pc.ReadPong? || pc.ReadReply? || pc.CloseWrite? || pc.DrainPong? }

  /** Calls that hold the read lock. */
  predicate HoldsLock(pc: Pc) { pc.Reading? || pc.ReadPong? || pc.ReadReply? || pc.Draining? || pc.DrainPong? }

  /** The frame a call in this place sends. */
  predicate Sends(pc: Pc, op: Opcode) {
    match pc
    case Sending(asked) => op == asked
    case ReadPong => op == PONG
    case DrainPong => op == PONG
    case ReadReply => op == CLOSE
    case CloseWrite => op == CLOSE
    case _ => false
  }

  /** Where a call stands after its write. */
  function AfterWrite(pc: Pc, succeeds: bool): Pc {
    match pc
    case ReadPong => if succeeds then Reading else Idle
    case CloseWrite => if succeeds then CloseWait else Hangup
    case DrainPong => Draining
    case _ => Idle
  }

  /** The write lock is given back, and the read lock with it where the call is over. */
  function Wrote(s: State, t: Thread, next: Pc): State {
    At(s, t, next).(writeLock := Free,
                    readLock := if HoldsLock(PcOf(s, t)) && !HoldsLock(next) then Free else s.readLock)
  }

  ghost predicate Next(s: State, t: Thread, a: Action, n: State) {
    match a
    case StartRead => PcOf(s, t) == Idle && n == At(s, t, ReadWait)
    case LockRead =>
      && PcOf(s, t) == ReadWait && s.readLock == Free
      && n == if s.peerClosed then At(s, t, Idle) else At(s, t, Reading).(readLock := Held(t))
    case ReadsFrame(op, goesOn) =>
      && PcOf(s, t) == Reading
      && var q := s.(read := s.read + [op]);
         n == if op == PING then At(q, t, ReadPong)
              else if op == CLOSE then At(q, t, ReadReply).(peerClosed := true)
              else if op == PONG || goesOn then At(q, t, Reading)
              else Release(At(q, t, Idle))
    case ReadFails =>
      || (PcOf(s, t) == Reading && n == Release(At(s, t, Idle)))
      || (PcOf(s, t) == Draining && n == Release(At(s, t, Hangup)))
    case StartSend(op) => PcOf(s, t) == Idle && (op == BINARY || op == PING) && n == At(s, t, Sending(op))
    case LockWrite => MayWrite(PcOf(s, t)) && s.writeLock == Free && n == s.(writeLock := Held(t))
    case Writes(op, reached, succeeds) =>
      && s.writeLock == Held(t) && Sends(PcOf(s, t), op) && Reports(s, op, reached, succeeds)
      && n == Wrote(Written(s, op, reached), t, AfterWrite(PcOf(s, t), succeeds))
    case StartClose =>
      && PcOf(s, t) == Idle
      && n == if s.once == Unused then At(s, t, CloseWrite).(once := Running(t)) else At(s, t, OnceWait)
    case OnceReturns => PcOf(s, t) == OnceWait && s.once == Finished && n == At(s, t, Idle)
    case LockDrain =>
      && PcOf(s, t) == CloseWait && s.readLock == Free
      && n == if s.peerClosed then At(s, t, Hangup) else At(s, t, Draining).(readLock := Held(t))
    case DrainsFrame(op) =>
      && PcOf(s, t) == Draining
      && var q := s.(read := s.read + [op]);
         n == if op == CLOSE then Release(At(q, t, Hangup)).(peerClosed := true)
              else if op == PING then At(q, t, DrainPong)
              else q
    case HangsUp => PcOf(s, t) == Hangup && n == At(s, t, Idle).(hungUp := true, once := Finished)
  }

  // ---- What the steps of a reader stand for ------------------------------------------------

  /** The step that takes the write lock, and the write step that follows it. */
  ghost predicate LocksAndWrites(s: State, t: Thread, op: Opcode, reached: bool, succeeds: bool, n: State) {
    Next(s, t, LockWrite, s.(writeLock := Held(t)))
    && Next(s.(writeLock := Held(t)), t, Writes(op, reached, succeeds), n)
  }

  /** A goroutine about to answer can do so in two steps, with the result that writing the
      frame has. */
  lemma AnswerRefines(env: M.Env, w: M.Writer, op: Opcode, payload: seq<byte>, s: State, t: Thread) returns (n: State)
    requires PcOf(s, t) in {ReadPong, ReadReply, DrainPong} && Sends(PcOf(s, t), op)
    requires s.writeLock == Free && s.sentClose == w.sentClose
    ensures var (w', r) := M.WriteFrame(env, w, op, payload);
      && LocksAndWrites(s, t, op, w'.wire != w.wire, M.Ok(r), n)
      && n.sentClose == w'.sentClose && n.writeLock == Free && n.peerClosed == s.peerClosed && n.read == s.read
      && PcOf(n, t) == AfterWrite(PcOf(s, t), M.Ok(r))
  {
    var (w', r) := M.WriteFrame(env, w, op, payload);
    var held := s.(writeLock := Held(t));
    WriteStepRefines(env, w, op, payload, held);
    n := Wrote(Written(held, op, w'.wire != w.wire), t, AfterWrite(PcOf(s, t), M.Ok(r)));
    hide M.WriteFrame, Reports;
  }

  /** The answer a frame calls for, if any. */
  function AnswerTo(op: Opcode): Opcode { if op == PING then PONG else CLOSE }

  /** One frame handled by ReadMessage is a ReadsFrame step, then the two steps of the answer
      it calls for; the call reads on, or is over, exactly as the message reader says. */
  lemma ReadStepRefines(env: M.Env, w: M.Writer, a: M.Assembly, f: Frame, s: State, t: Thread)
    returns (n: State, end: State)
    requires PcOf(s, t) == Reading && s.writeLock == Free && s.sentClose == w.sentClose && !s.peerClosed
    ensures var c := M.Handle(env, w, a, f);
      && Next(s, t, ReadsFrame(f.opcode, c.More?), n)
      && (if f.opcode == PING || f.opcode == CLOSE then
            var (w', r) := M.WriteFrame(env, w, AnswerTo(f.opcode), f.payload);
            c.writer == w' && LocksAndWrites(n, t, AnswerTo(f.opcode), w'.wire != w.wire, M.Ok(r), end)
          else end == n && c.writer == w)
      && end.sentClose == c.writer.sentClose && end.read == s.read + [f.opcode]
      && PcOf(end, t) == (if c.More? then Reading else Idle)
      && (end.peerClosed <==> c.Done? && c.result.PeerClosed?)
  {
    hide M.WriteFrame, Next, LocksAndWrites;
    var op := f.opcode;
    var q := s.(read := s.read + [op]);
    var more := M.Handle(env, w, a, f).More?;
    n := if op == PING then At(q, t, ReadPong)
         else if op == CLOSE then At(q, t, ReadReply).(peerClosed := true)
         else if op == PONG || more then At(q, t, Reading)
         else Release(At(q, t, Idle));
    ReadsFrameIs(s, t, op, more, n);
    end := n;
    if op == PING || op == CLOSE {
      end := AnswerRefines(env, w, AnswerTo(op), f.payload, n, t);
    }
  }

  lemma ReadsFrameIs(s: State, t: Thread, op: Opcode, goesOn: bool, n: State)
    requires PcOf(s, t) == Reading
    requires var q := s.(read := s.read + [op]);
      n == if op == PING then At(q, t, ReadPong)
           else if op == CLOSE then At(q, t, ReadReply).(peerClosed := true)
           else if op == PONG || goesOn then At(q, t, Reading)
           else Release(At(q, t, Idle))
    ensures Next(s, t, ReadsFrame(op, goesOn), n)
  {
  }

  /** One frame read by Close while it waits is a DrainsFrame step, then the two steps of a
      pong if it is a ping; then Close drains what is left, or hangs up after a Close. */
  lemma DrainStepRefines(env: M.Env, w: M.Writer, input: seq<byte>, s: State, t: Thread) returns (n: State, end: State)
    requires PcOf(s, t) == Draining && s.writeLock == Free && s.sentClose == w.sentClose && !s.peerClosed
    requires Parse(input).Good?
    ensures var f, rest := Parse(input).frame, Parse(input).rest;
      && Next(s, t, DrainsFrame(f.opcode), n)
      && if f.opcode == CLOSE then
           end == n && PcOf(end, t) == Hangup && end.peerClosed && M.Drain(env, w, input) == M.Drained(true, rest, w)
         else
           && PcOf(end, t) == Draining && !end.peerClosed
           && if f.opcode == PING then
                var (w', r) := M.WriteFrame(env, w, PONG, f.payload);
                && LocksAndWrites(n, t, PONG, w'.wire != w.wire, M.Ok(r), end)
                && end.sentClose == w'.sentClose && M.Drain(env, w, input) == M.Drain(env, w', rest)
              else end == n && M.Drain(env, w, input) == M.Drain(env, w, rest)
  {
    hide Parse, M.WriteFrame, Next, LocksAndWrites;
    var f := Parse(input).frame;
    var q := s.(read := s.read + [f.opcode]);
    n := if f.opcode == CLOSE then Release(At(q, t, Hangup)).(peerClosed := true)
         else if f.opcode == PING then At(q, t, DrainPong)
         else q;
    DrainsFrameIs(s, t, f.opcode, n);
    end := n;
    if f.opcode == PING { end := AnswerRefines(env, w, PONG, f.payload, n, t); }
  }

  lemma DrainsFrameIs(s: State, t: Thread, op: Opcode, n: State)
    requires PcOf(s, t) == Draining
    requires var q := s.(read := s.read + [op]);
      n == if op == CLOSE then Release(At(q, t, Hangup)).(peerClosed := true)
           else if op == PING then At(q, t, DrainPong)
           else q
    ensures Next(s, t, DrainsFrame(op), n)
  {
  }

  // ---- The handshake --------------------------------------------------------------

  /** At most one Close frame is written and no data frame follows it (section 5.5.1). */
  ghost predicate WritesWell(written: seq<Opcode>) {
    forall i, j :: 0 <= i < j < |written| && written[i] == CLOSE ==> written[j] > CLOSE
  }

  /** No frame is read after the peer's Close. */
  ghost predicate ReadsWell(read: seq<Opcode>) {
    forall i :: 0 <= i < |read| - 1 ==> read[i] != CLOSE
  }

  predicate RunsClose(pc: Pc) { pc.CloseWrite? || pc.CloseWait? || pc.Draining? || pc.DrainPong? || pc.Hangup? }

  /** What the locks and flags mean for goroutine t. */
  ghost predicate Fair(s: State, t: Thread) {
    var pc := PcOf(s, t);
    && (HoldsLock(pc) <==> s.readLock == Held(t))
    && (s.writeLock == Held(t) ==> MayWrite(pc))
    && (RunsClose(pc) <==> s.once == Running(t))
    && (pc.Reading? || pc.ReadPong? || pc.Draining? || pc.DrainPong? ==> !s.peerClosed)
    && (pc == ReadReply ==> s.peerClosed)
    && (pc.CloseWait? || pc.Draining? || pc.DrainPong? ==> s.sentClose)
    && (pc.Sending? ==> pc.op == BINARY || pc.op == PING)
    && (pc == OnceWait ==> s.once != Unused)
  }

  ghost predicate Inv(s: State) {
    && WritesWell(s.written) && ReadsWell(s.read)
    && (CLOSE in s.written ==> s.sentClose)
    && (CLOSE in s.read <==> s.peerClosed)
    && (s.once == Finished ==> s.hungUp)
    && forall t :: Fair(s, t)
  }

  lemma WrittenWell(s: State, op: Opcode, reached: bool)
    requires WritesWell(s.written) && (CLOSE in s.written ==> s.sentClose)
    ensures var n := Written(s, op, reached);
      WritesWell(n.written) && (CLOSE in n.written ==> n.sentClose) && (s.sentClose ==> n.sentClose)
  {
    assert forall i :: 0 <= i < |s.written| && s.written[i] == CLOSE ==> CLOSE in s.written;
  }

  lemma StepKeepsWrites(s: State, t: Thread, a: Action, n: State)
    requires Inv(s) && Next(s, t, a, n)
    ensures WritesWell(n.written) && (CLOSE in n.written ==> n.sentClose)
  {
    hide Fair, WritesWell, ReadsWell;
    if a.Writes? { WrittenWell(s, a.op, a.reached); }
  }

  lemma StepKeepsReads(s: State, t: Thread, a: Action, n: State)
    requires Inv(s) && Next(s, t, a, n)
    ensures ReadsWell(n.read) && (CLOSE in n.read <==> n.peerClosed)
  {
    hide WritesWell, Reports;
    assert Fair(s, t);
    if a.ReadsFrame? || a.DrainsFrame? {
      assert n.read == s.read + [a.op];
      assert forall i :: 0 <= i < |s.read| && s.read[i] == CLOSE ==> CLOSE in s.read;
      assert CLOSE in n.read <==> CLOSE in s.read || a.op == CLOSE;
    }
  }

  predicate OwnLocked(lock: Lock, t: Thread) { lock == Free || lock == Held(t) }

  /** The goroutine that steps keeps to the rules, moves only its own counter, and
      takes or gives back only what is its own. */
  ghost predicate OwnMove(s: State, t: Thread, n: State) {
    && Fair(n, t) && (n.once == Finished ==> n.hungUp)
    && (forall u :: u != t ==> PcOf(n, u) == PcOf(s, u))
    && (n.readLock == s.readLock || (OwnLocked(s.readLock, t) && OwnLocked(n.readLock, t)))
    && (n.writeLock == s.writeLock || (OwnLocked(s.writeLock, t) && OwnLocked(n.writeLock, t)))
    && (n.once == s.once ||
        ((s.once == Unused || s.once == Running(t)) && (n.once == Running(t) || n.once == Finished)))
    && (s.sentClose ==> n.sentClose)
    && (n.peerClosed != s.peerClosed ==> n.peerClosed && s.readLock == Held(t))
  }

  lemma OwnWrite(s: State, t: Thread, a: Action, n: State)
    requires Fair(s, t) && Next(s, t, a, n) && (s.once == Finished ==> s.hungUp) && a.Writes?
    ensures OwnMove(s, t, n)
  {
    hide Reports;
  }

  lemma OwnRead(s: State, t: Thread, a: Action, n: State)
    requires Fair(s, t) && Next(s, t, a, n) && (s.once == Finished ==> s.hungUp)
    requires a.ReadsFrame?
    ensures OwnMove(s, t, n)
  {
    hide Reports, Written, Wrote, Sends, AfterWrite;
  }

  lemma OwnDrain(s: State, t: Thread, a: Action, n: State)
    requires Fair(s, t) && Next(s, t, a, n) && (s.once == Finished ==> s.hungUp)
    requires a.DrainsFrame? || a.LockDrain? || a.HangsUp?
    ensures OwnMove(s, t, n)
  {
    hide Reports, Written, Wrote, Sends, AfterWrite;
  }

  lemma OwnLock(s: State, t: Thread, a: Action, n: State)
    requires Fair(s, t) && Next(s, t, a, n) && (s.once == Finished ==> s.hungUp)
    requires a.LockRead? || a.LockWrite? || a.ReadFails?
    ensures OwnMove(s, t, n)
  {
  }

  lemma OwnCall(s: State, t: Thread, a: Action, n: State)
    requires Fair(s, t) && Next(s, t, a, n) && (s.once == Finished ==> s.hungUp)
    requires a.StartRead? || a.StartSend? || a.StartClose? || a.OnceReturns?
    ensures OwnMove(s, t, n)
  {
  }

  lemma OwnStep(s: State, t: Thread, a: Action, n: State)
    requires Fair(s, t) && Next(s, t, a, n) && (s.once == Finished ==> s.hungUp)
    ensures OwnMove(s, t, n)
  {
    hide Fair, Next, OwnMove;
    match a
    case Writes(_, _, _) => OwnWrite(s, t, a, n);
    case ReadsFrame(_, _) => OwnRead(s, t, a, n);
    case ReadFails => OwnLock(s, t, a, n);
    case DrainsFrame(_) => OwnDrain(s, t, a, n);
    case LockDrain => OwnDrain(s, t, a, n);
    case HangsUp => OwnDrain(s, t, a, n);
    case LockRead => OwnLock(s, t, a, n);
    case LockWrite => OwnLock(s, t, a, n);
    case _ => OwnCall(s, t, a, n);
  }

  /** The others are not disturbed. */
  lemma OtherStays(s: State, t: Thread, n: State, u: Thread)
    requires u != t && Fair(s, u) && OwnMove(s, t, n)
    ensures Fair(n, u)
  {
  }

  lemma StepKeeps(s: State, t: Thread, a: Action, n: State)
    requires Inv(s) && Next(s, t, a, n)
    ensures Inv(n)
  {
    StepKeepsWrites(s, t, a, n);
    StepKeepsReads(s, t, a, n);
    assert Fair(s, t);
    OwnStep(s, t, a, n);
    hide Next, Fair, WritesWell, ReadsWell;
    forall u
      ensures Fair(n, u)
    {
      if u != t {
        assert Fair(s, u);
        OtherStays(s, t, n, u);
      }
    }
  }

  ghost predicate Steps(s: State, n: State) {
    exists t, a :: Next(s, t, a, n)
  }

  /** A run: states joined by steps of any goroutines in any order. */
  ghost predicate IsRun(run: seq<State>) {
    run != [] && run[0] == INITIAL && forall i :: 0 <= i < |run| - 1 ==> Steps(run[i], run[i + 1])
  }

  lemma {:induction false} RunKeeps(run: seq<State>)
    requires IsRun(run)
    ensures Inv(run[|run| - 1])
  {
    if |run| <= 1 {
    } else {
      hide Inv, Next;
      var k := |run| - 2;
      var front := run[..k + 1];
      assert forall i :: 0 <= i < |front| ==> front[i] == run[i];
      RunKeeps(front);
      assert Steps(run[k], run[k + 1]);
      var t, a :| Next(run[k], t, a, run[k + 1]);
      StepKeeps(run[k], t, a, run[k + 1]);
    }
  }

  /** In every interleaving: at most one Close frame goes out, no data frame follows
      it, nothing is read after the peer's Close, and once Close has returned to
      anyone the socket has been dropped. */
  lemma HandshakeIsSafe(run: seq<State>)
    requires IsRun(run)
    ensures var s := run[|run| - 1];
      && (forall i, j :: 0 <= i < j < |s.written| && s.written[i] == CLOSE ==>
            s.written[j] != CLOSE && s.written[j] > BINARY)
      && (forall i :: 0 <= i < |s.read| && s.read[i] == CLOSE ==> i == |s.read| - 1)
      && (s.once == Finished ==> s.hungUp)
  {
    hide IsRun, Fair;
    RunKeeps(run);
  }

  /** Can goroutine t move at all? A read may always end by its deadline. */
  ghost predicate CanMove(s: State, t: Thread) {
    exists a, n :: Next(s, t, a, n)
  }

  /** Whoever holds the write lock can finish its write, whatever the socket does. */
  lemma WriterMoves(s: State, t: Thread)
    requires MayWrite(PcOf(s, t)) && s.writeLock == Held(t)
    ensures CanMove(s, t)
  {
    var pc := PcOf(s, t);
    var op := if pc.Sending? then pc.op else if pc == ReadPong || pc == DrainPong then PONG else CLOSE;
    var ok := s.sentClose && op == CLOSE;
    assert Next(s, t, Writes(op, false, ok), Wrote(Written(s, op, false), t, AfterWrite(pc, ok)));
  }

  /** A call that waits for no lock and no other Close can move. */
  lemma CanMoveUnlessWaiting(s: State, t: Thread)
    requires PcOf(s, t) in {Reading, Draining, Hangup}
    ensures CanMove(s, t)
  {
    var pc := PcOf(s, t);
    if pc == Reading { assert Next(s, t, ReadFails, Release(At(s, t, Idle))); }
    else if pc == Draining { assert Next(s, t, ReadFails, Release(At(s, t, Hangup))); }
    else { assert Next(s, t, HangsUp, At(s, t, Idle).(hungUp := true, once := Finished)); }
  }

  /** A call waiting for something that is free can take it. */
  lemma CanMoveWhenFree(s: State, t: Thread)
    requires (PcOf(s, t) in {ReadWait, CloseWait} && s.readLock == Free)
          || (MayWrite(PcOf(s, t)) && s.writeLock == Free)
          || (PcOf(s, t) == OnceWait && s.once == Finished)
    ensures CanMove(s, t)
  {
    if PcOf(s, t) == OnceWait {
      assert Next(s, t, OnceReturns, At(s, t, Idle));
    } else if MayWrite(PcOf(s, t)) {
      assert Next(s, t, LockWrite, s.(writeLock := Held(t)));
    } else if PcOf(s, t) == ReadWait {
      assert Next(s, t, LockRead, if s.peerClosed then At(s, t, Idle) else At(s, t, Reading).(readLock := Held(t)));
    } else {
      assert Next(s, t, LockDrain, if s.peerClosed then At(s, t, Hangup) else At(s, t, Draining).(readLock := Held(t)));
    }
  }

  /** The read lock, the write lock and the once cannot deadlock: while any call is in
      progress, some goroutine inside a call can move. */
  lemma NoDeadlock(run: seq<State>, t: Thread) returns (u: Thread)
    requires IsRun(run) && PcOf(run[|run| - 1], t) != Idle
    ensures PcOf(run[|run| - 1], u) != Idle && CanMove(run[|run| - 1], u)
  {
    var s := run[|run| - 1];
    RunKeeps(run);
    hide IsRun, CanMove, Next;
    u := t;
    assert Fair(s, u);
    if PcOf(s, u) == OnceWait && s.once.Running? {
      u := s.once.owner;
      assert Fair(s, u);
    }
    if PcOf(s, u) in {ReadWait, CloseWait} && s.readLock.Held? {
      u := s.readLock.owner;
      assert Fair(s, u);
    }
    if MayWrite(PcOf(s, u)) && s.writeLock.Held? {
      u := s.writeLock.owner;
      assert Fair(s, u);
      WriterMoves(s, u);
    } else if MayWrite(PcOf(s, u)) || PcOf(s, u) in {ReadWait, CloseWait, OnceWait} {
      CanMoveWhenFree(s, u);
    } else {
      CanMoveUnlessWaiting(s, u);
    }
  }
}
