/**
 Handing frames from the decoder to the window: a ticker copies the newest frame
 into the buffer that is not shown, a painter holds the shown one while it draws.
 One ticker, one painter and one decoder, interleaved at every point where the
 window mutex is released. Pixels are stood for by the version of the frame they
 were copied from. The frame source stays the same throughout a run.
 */
module FrameUpload {

  datatype Ticker =
    | Waiting
    | Copying(next: nat)              // the copy into buffer `next` is under way
    | Copied(next: nat, version: nat) // done, not yet published

  datatype Painting = NotPainting | PaintingOf(buffer: nat, seen: nat)

  datatype State = State(
    dirty: bool, ready: bool,
    index: nat,                 // the published buffer
    buffers: seq<nat>,          // the version each buffer shows
    painting: Painting,
    ticker: Ticker,
    source: nat,                // the version the decoder is at
    lastMark: nat)              // the version that was last marked dirty

  const INITIAL := State(false, false, 0, [0, 0], NotPainting, Waiting, 0, 0)

  datatype Action = Decodes | Marks | Readies(on: bool) | Starts | Copies | Publishes | Claims | Releases

  ghost predicate Next(s: State, a: Action, n: State) {
    match a
    case Decodes => n == s.(source := s.source + 1)
    case Marks => n == s.(dirty := true, lastMark := s.source)
    case Readies(on) => n == s.(ready := on)
    case Starts =>
      && s.ticker == Waiting && s.index <= 1
      && var next := 1 - s.index;
         n == if !s.dirty || !s.ready || (s.painting.PaintingOf? && s.painting.buffer == next) then s
              else s.(dirty := false, ticker := Copying(next))
    case Copies =>
      && s.ticker.Copying? && s.ticker.next < |s.buffers|
      && n == s.(buffers := s.buffers[s.ticker.next := s.source], ticker := Copied(s.ticker.next, s.source))
    case Publishes => s.ticker.Copied? && n == s.(index := s.ticker.next, ticker := Waiting)
    case Claims =>
      && s.painting == NotPainting && s.index < |s.buffers|
      && n == s.(painting := PaintingOf(s.index, s.buffers[s.index]))
    case Releases => s.painting.PaintingOf? && n == s.(painting := NotPainting)
  }

  ghost predicate Inv(s: State) {
    && |s.buffers| == 2 && s.index <= 1 && s.lastMark <= s.source
    && (s.painting.PaintingOf? ==> s.painting.buffer <= 1 && s.buffers[s.painting.buffer] == s.painting.seen)
    && match s.ticker
       case Waiting => s.dirty || s.buffers[s.index] >= s.lastMark
       case Copying(next) =>
         && next == 1 - s.index
         && (s.painting.PaintingOf? ==> s.painting.buffer == s.index)
       case Copied(next, version) =>
         && next == 1 - s.index && s.buffers[next] == version
         && (s.dirty || version >= s.lastMark)
  }

  ghost predicate Steps(s: State, n: State) {
    exists a :: Next(s, a, n)
  }

  ghost predicate IsRun(run: seq<State>) {
    run != [] && run[0] == INITIAL && forall i :: 0 <= i < |run| - 1 ==> Steps(run[i], run[i + 1])
  }

  lemma StepKeeps(s: State, a: Action, n: State)
    requires Inv(s) && Next(s, a, n)
    ensures Inv(n)
  {
  }

  lemma {:induction false} RunKeeps(run: seq<State>)
    requires IsRun(run)
    ensures Inv(run[|run| - 1])
  {
    if |run| <= 1 {
    } else {
      var k := |run| - 2;
      var front := run[..k + 1];
      assert forall i :: 0 <= i < |front| ==> front[i] == run[i];
      RunKeeps(front);
      assert Steps(run[k], run[k + 1]);
      var a :| Next(run[k], a, run[k + 1]);
      StepKeeps(run[k], a, run[k + 1]);
    }
  }

  /** In every interleaving the ticker never writes the buffer being painted, and a
      painter sees one and the same frame from claim to release. */
  lemma NeverWritesPainted(run: seq<State>)
    requires IsRun(run)
    ensures var s := run[|run| - 1];
      && (s.ticker.Copying? && s.painting.PaintingOf? ==> s.ticker.next != s.painting.buffer)
      && (s.painting.PaintingOf? ==> s.painting.buffer < |s.buffers| && s.buffers[s.painting.buffer] == s.painting.seen)
  {
    RunKeeps(run);
  }

  /** Whenever the dirty flag is clear and no upload is in flight, the published
      buffer is at least as new as the last mark. */
  lemma PublishedIsFresh(run: seq<State>)
    requires IsRun(run)
    ensures var s := run[|run| - 1];
      !s.dirty && s.ticker == Waiting ==> s.index < |s.buffers| && s.buffers[s.index] >= s.lastMark
  {
    RunKeeps(run);
  }

  /** No mark is lost: with nobody painting and the source ready, one undisturbed round
      of the ticker after any mark publishes a frame at least as new as that mark. */
  lemma RoundDelivers(run: seq<State>) returns (a: State, b: State, end: State)
    requires IsRun(run)
    requires var s := run[|run| - 1]; s.ticker == Waiting && s.dirty && s.ready && s.painting == NotPainting
    ensures IsRun(run + [a, b, end]) && Next(run[|run| - 1], Starts, a) && Next(a, Copies, b) && Next(b, Publishes, end)
    ensures !end.dirty && end.ticker == Waiting && end.index == 1 - run[|run| - 1].index
    ensures end.index < |end.buffers| && end.buffers[end.index] == run[|run| - 1].source >= run[|run| - 1].lastMark
  {
    RunKeeps(run);
    var s := run[|run| - 1];
    a := s.(dirty := false, ticker := Copying(1 - s.index));
    b := a.(buffers := a.buffers[a.ticker.next := a.source], ticker := Copied(a.ticker.next, a.source));
    end := b.(index := b.ticker.next, ticker := Waiting);
    assert Next(s, Starts, a) && Next(a, Copies, b) && Next(b, Publishes, end);
    assert Steps(s, a) && Steps(a, b) && Steps(b, end);
    RunExtends(run, a);
    RunExtends(run + [a], b);
    RunExtends(run + [a] + [b], end);
    assert run + [a] + [b] + [end] == run + [a, b, end];
  }

  lemma RunExtends(run: seq<State>, n: State)
    requires IsRun(run) && Steps(run[|run| - 1], n)
    ensures IsRun(run + [n])
  {
    var r := run + [n];
    forall i | 0 <= i < |r| - 1
      ensures Steps(r[i], r[i + 1])
    {
      assert i < |run| - 1 ==> Steps(run[i], run[i + 1]);
    }
  }

  // ---- The window's fields ----------------------------------------------------------

  /** The fields shared by the goroutines. Every method is one critical section, or the
      copy made between two of them, and takes exactly the step of that name. */
  class Window {
    var frameDirty: bool
    var frameReady: bool
    var frameIndex: nat
    var framePainting: int
    const frameBuffers: array<nat>
    ghost var seen: nat
    ghost var ticker: Ticker
    ghost var source: nat
    ghost var lastMark: nat

    ghost function Value(): State
      reads this, frameBuffers
    {
      State(frameDirty, frameReady, frameIndex, frameBuffers[..],
            if framePainting < 0 then NotPainting else PaintingOf(framePainting, seen), ticker, source, lastMark)
    }

    ghost predicate Valid()
      reads this, frameBuffers
    {
      framePainting >= -1 && Inv(Value())
    }

    constructor ()
      ensures Valid() && Value() == INITIAL && fresh(frameBuffers)
    {
      frameDirty, frameReady, frameIndex, framePainting := false, false, 0, -1;
      frameBuffers := new nat[2](_ => 0);
      seen, ticker, source, lastMark := 0, Waiting, 0, 0;
    }

    method MarkFrameDirty()
      requires Valid()
      modifies this
      ensures Valid() && Next(old(Value()), Marks, Value())
    {
      frameDirty := true;
      lastMark := source;
    }

    /** Chooses the buffer that is neither shown nor being painted, or stays dirty. */
    method StartUpload() returns (next: nat, started: bool)
      requires Valid() && ticker == Waiting
      modifies this
      ensures Valid() && Next(old(Value()), Starts, Value())
      ensures if started then ticker == Copying(next) else ticker == Waiting
    {
      if !frameDirty || !frameReady {
        return 0, false;
      }
      next := 1 - frameIndex;
      if next == framePainting {
        return next, false;
      }
      frameDirty := false;
      ticker := Copying(next);
      started := true;
    }

    /** The backend's copy into the chosen buffer, made without the window mutex. */
    method CopyFrame(next: nat, frame: nat)
      requires Valid() && ticker == Copying(next) && frame == source
      modifies this`ticker, frameBuffers
      ensures Valid() && Next(old(Value()), Copies, Value())
      ensures ticker == Copied(next, frame)
    {
      frameBuffers[next] := frame;
      ticker := Copied(next, frame);
      assert frameBuffers[..] == old(frameBuffers[..])[next := frame];
    }

    method Publish(next: nat)
      requires Valid() && ticker.Copied? && ticker.next == next
      modifies this
      ensures Valid() && Next(old(Value()), Publishes, Value())
    {
      frameIndex := next;
      ticker := Waiting;
    }

    /** The painter claims the published buffer for the frame it is laying out. */
    method ClaimFrame()
      requires Valid() && framePainting == -1
      modifies this
      ensures Valid() && Next(old(Value()), Claims, Value())
    {
      framePainting := frameIndex;
      seen := frameBuffers[frameIndex];
    }

    method ReleaseFrame()
      requires Valid() && framePainting >= 0
      modifies this
      ensures Valid() && Next(old(Value()), Releases, Value())
    {
      framePainting := -1;
    }
  }
}
