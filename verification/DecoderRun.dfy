/**
 Runs of the decoder over its input: one step, a feed, and what holds of every
 run. The main results are that a step is safe and makes progress (StepKeeps,
 StepProgress), that the frame revision is an exact change detector
 (StepKeeps), and that how the input is cut into packets does not matter
 (FeedSplit).
 */
module DecoderRun {
  import opened Bits
  import opened BitReader
  import opened ColorCache
  import opened Framebuffers
  import opened Machine

  datatype Outcome = Stop(m: Machine) | Go(m: Machine, rest: seq<byte>)

  function Width(m: Machine): nat
    requires Ok(m)
  {
    m.regs.table[m.regs.state].bits
  }

  /** The machine once the bits for a step have been fetched. */
  function Loaded(m: Machine, f: Fetch): (n: Machine)
    requires Ok(m) && f.reader.Valid()
    ensures Ok(n)
  {
    var r := m.regs;
    match f
    case Dry(reader) => m.(reader := reader)
    case Resync(reader, _) => m.(reader := reader, regs := r.(countBytes := r.countBytes + 1, state := 0, next := 0))
    case Got(code, reader, _) => m.(reader := reader, regs := r.(countBytes := r.countBytes + 1, code := code))
  }

  /** What a step does with the code it fetched. */
  function Dispatch(m: Machine, f: Fetch): (o: Outcome)
    requires Ok(m) && f.reader.Valid()
  {
    match f
    case Dry(_) => Stop(Loaded(m, f))
    case Resync(_, rest) => Go(Loaded(m, f), rest)
    case Got(_, _, rest) => Go(Execute(Loaded(m, f)), rest)
  }

  /** One step of the decoder; Stop means that the input ran dry. */
  function Step(m: Machine, input: seq<byte>): (o: Outcome)
    requires Ok(m)
  {
    GetBitsValid(m.reader, Width(m), m.regs.code, input);
    Dispatch(m, GetBits(m.reader, Width(m), m.regs.code, input))
  }

  // ---- Safety -------------------------------------------------------------------

  /** Every step keeps the machine within bounds: the state is one of the 48, the
      buffer holds at most seven bits, every row reads at most eight, the cache is a
      duplicate-free list, and the picture has the announced size. The revision
      rises by one if the picture changed (its size or any pixel) or the first
      header arrived, and stays put otherwise. */
  lemma StepKeeps(m: Machine, input: seq<byte>)
    requires Ok(m)
    ensures var n := Step(m, input).m;
      Ok(n) && Width(n) <= 8 && RevisionExact(m, n)
  {
    hide Execute;
    GetBitsValid(m.reader, Width(m), m.regs.code, input);
    RowFacts(Step(m, input).m.regs, Step(m, input).m.regs.state);
  }

  // ---- Progress -------------------------------------------------------------------

  function ZeroBit(m: Machine): nat
    requires Ok(m)
  {
    if Width(m) == 0 then 1 else 0
  }

  /** Unread bits count double; a state that reads nothing counts one. */
  function Budget(m: Machine, input: seq<byte>): nat
    requires Ok(m)
  {
    2 * (|m.reader.pending| + 8 * |input|) + ZeroBit(m)
  }

  /** The step limit of a feed is far above what its input can use. */
  lemma BudgetBound(m: Machine, input: seq<byte>)
    requires Ok(m)
    ensures Budget(m, input) <= 16 * |input| + 15
  {
  }

  lemma GetBitsConsumes(r: Reader, n: nat, code: byte, input: seq<byte>)
    requires r.Valid() && 0 < n <= 8
    ensures var f := GetBits(r, n, code, input);
      !f.Dry? ==> |f.reader.pending| + 8 * |f.rest| < |r.pending| + 8 * |input|
  {
    SkipValid(r, input);
  }

  /** Every step that does not stop strictly uses up the budget, unless it halts. */
  lemma StepProgress(m: Machine, input: seq<byte>)
    requires Ok(m)
    ensures Ok(Step(m, input).m)
    ensures match Step(m, input)
            case Stop(_) => true
            case Go(n, rest) => n.regs.halt || Budget(n, rest) < Budget(m, input)
  {
    hide Execute;
    StepKeeps(m, input);
    RowFacts(m.regs, m.regs.state);
    GetBitsValid(m.reader, Width(m), m.regs.code, input);
    if Width(m) > 0 { GetBitsConsumes(m.reader, Width(m), m.regs.code, input); }
    var n := Step(m, input).m;
    RowFacts(n.regs, n.regs.state);
  }

  // ---- Feeding --------------------------------------------------------------------

  /** Step until the input runs dry or EXIT halts. */
  function Run(m: Machine, input: seq<byte>): (n: Machine)
    requires Ok(m)
    decreases Budget(m, input)
  {
    StepProgress(m, input);
    match Step(m, input)
    case Stop(n) => n
    case Go(n, rest) => if n.regs.halt then n else Run(n, rest)
  }

  function Feed(m: Machine, packet: seq<byte>): (n: Machine)
    requires Ok(m)
  {
    if packet == [] || m.regs.halt then m else Run(m, packet)
  }

  lemma {:induction false} RunKeeps(m: Machine, input: seq<byte>)
    requires Ok(m)
    ensures Ok(Run(m, input))
    decreases Budget(m, input)
  {
    StepProgress(m, input);
    match Step(m, input)
    case Stop(n) =>
    case Go(n, rest) => if !n.regs.halt { RunKeeps(n, rest); }
  }

  lemma DispatchAppend(m: Machine, f: Fetch, g: Fetch, r: Reader, b: seq<byte>)
    requires Ok(m) && f.reader.Valid() && g.reader.Valid() && r.Valid()
    ensures f.Dry? ==> Dispatch(m.(reader := r), g) == Dispatch(m, g)
    ensures f.Got? && g == Got(f.code, f.reader, f.rest + b) ==>
      Dispatch(m, g) == Go(Dispatch(m, f).m, f.rest + b) && Dispatch(m, f) == Go(Dispatch(m, f).m, f.rest)
    ensures f.Resync? && g == Resync(f.reader, f.rest + b) ==>
      Dispatch(m, g) == Go(Dispatch(m, f).m, f.rest + b) && Dispatch(m, f) == Go(Dispatch(m, f).m, f.rest)
  {
    hide Execute;
  }

  lemma StepAppend(m: Machine, a: seq<byte>, b: seq<byte>)
    requires Ok(m) && b != []
    ensures Ok(Step(m, a).m)
    ensures match Step(m, a)
            case Go(n, rest) => Step(m, a + b) == Go(n, rest + b)
            case Stop(n) => n.regs == m.regs && Step(m, a + b) == Step(n, b)
  {
    hide Execute;
    StepKeeps(m, a);
    RowFacts(m.regs, m.regs.state);
    var w, code := Width(m), m.regs.code;
    var f, g := GetBits(m.reader, w, code, a), GetBits(m.reader, w, code, a + b);
    GetBitsValid(m.reader, w, code, a);
    GetBitsValid(m.reader, w, code, a + b);
    GetBitsAppend(m.reader, w, code, a, b);
    DispatchAppend(m, f, g, f.reader, b);
  }

  lemma {:induction false} RunSplit(m: Machine, a: seq<byte>, b: seq<byte>)
    requires Ok(m) && b != [] && !m.regs.halt
    ensures Ok(Run(m, a))
    ensures Run(m, a + b) == if Run(m, a).regs.halt then Run(m, a) else Run(Run(m, a), b)
    decreases Budget(m, a)
  {
    hide Step;
    RunKeeps(m, a);
    StepProgress(m, a);
    StepAppend(m, a, b);
    match Step(m, a)
    case Stop(n) =>
    case Go(n, rest) => if !n.regs.halt { RunSplit(n, rest, b); }
  }

  /** How the input is cut into packets does not matter: state, cache, picture,
      revision, counters and messages are the same. */
  lemma FeedSplit(m: Machine, a: seq<byte>, b: seq<byte>)
    requires Ok(m)
    ensures Ok(Feed(m, a)) && Feed(Feed(m, a), b) == Feed(m, a + b)
  {
    RunKeeps(m, a);
    if m.regs.halt || b == [] {
      assert a + [] == a;
    } else if a == [] {
      assert a + b == b;
    } else {
      RunSplit(m, a, b);
    }
  }

  function FeedAll(m: Machine, packets: seq<seq<byte>>): (n: Machine)
    requires Ok(m)
    ensures Ok(n)
    decreases packets
  {
    if packets == [] then m
    else
      FeedSplit(m, packets[0], []);
      FeedAll(Feed(m, packets[0]), packets[1..])
  }

  function Join(packets: seq<seq<byte>>): seq<byte> {
    if packets == [] then [] else packets[0] + Join(packets[1..])
  }

  /** Any two ways of cutting one byte stream into packets end in the same machine. */
  lemma {:induction false} PacketsDoNotMatter(m: Machine, packets: seq<seq<byte>>)
    requires Ok(m)
    ensures FeedAll(m, packets) == Feed(m, Join(packets))
    decreases packets
  {
    if packets == [] {
    } else {
      FeedSplit(m, packets[0], Join(packets[1..]));
      PacketsDoNotMatter(Feed(m, packets[0]), packets[1..]);
    }
  }

  // ---- Streams as plain bits, up to the first run of 31 zeros --------------------------

  /** A read of w bits has to fetch a byte, and that byte completes the first run of zeros
      on a wire that had none so far. */
  ghost predicate CompletesRun(r: Reader, w: nat, input: seq<byte>, bytes: seq<byte>) {
    |r.pending| < w && input != [] && HasZeroRun(WireAll(bytes + [input[0]]))
  }

  /** A read either gives up, at exactly that byte, or delivers the next bits of the wire. */
  lemma GetBitsTracks(r: Reader, w: nat, code: byte, input: seq<byte>, bytes: seq<byte>, read: seq<bool>)
    returns (used: seq<byte>, read': seq<bool>)
    requires w <= 8 && Tracks(r, bytes, read)
    ensures var f := GetBits(r, w, code, input);
      if CompletesRun(r, w, input, bytes) then !f.Got?
      else !f.Resync? && Tracks(f.reader, used, read') && used + (if f.Got? then f.rest else []) == bytes + input
  {
    hide Tracks, WireAll, HasZeroRun, Wire, LeadingZeros, Code;
    var f := GetBits(r, w, code, input);
    used, read' := bytes, read;
    assert bytes + [] == bytes;
    if 0 < w {
      if |r.pending| >= w {
        ReadsBuffered(r, w, code, input, bytes, read);
        var bits :| |bits| == w && f.code == Code(bits) && Tracks(f.reader, used, read + bits);
        read' := read + bits;
      } else if input != [] {
        FetchResyncs(r, w, code, input, bytes, read);
        if !CompletesRun(r, w, input, bytes) {
          used := bytes + [input[0]];
          assert used + input[1..] == bytes + input;
          ReadsFetched(r, w, code, input, bytes, read);
          var bits :| |bits| == w && f.code == Code(bits) && Tracks(f.reader, used, read + bits);
          read' := read + bits;
        }
      }
    }
  }

  lemma AlignedTracks(r: Reader, q: Reader, bytes: seq<byte>, read: seq<bool>) returns (read': seq<bool>)
    requires Tracks(r, bytes, read) && Aligned(r, q)
    ensures Tracks(q, bytes, read')
  {
    read' := if q == r then read else read + r.pending;
    assert q != r ==> read' + q.pending == read + r.pending;
  }

  /** Does the next step fetch the byte that completes the first run of zeros? */
  ghost predicate GivesUp(m: Machine, input: seq<byte>, bytes: seq<byte>)
    requires Ok(m)
  {
    CompletesRun(m.reader, Width(m), input, bytes)
  }

  /** For any input: a step that meets no such byte consumes the wire in order and never
      resynchronises; one that does starts over in RESET, or runs dry looking for a place. */
  lemma StepTracks(m: Machine, input: seq<byte>, bytes: seq<byte>, read: seq<bool>)
    returns (used: seq<byte>, read': seq<bool>)
    requires Ok(m) && Tracks(m.reader, bytes, read)
    ensures var o := Step(m, input);
      if GivesUp(m, input, bytes) then
        o.Go? ==>
          && o.m.regs == m.regs.(countBytes := m.regs.countBytes + 1, state := 0, next := 0)
          && o.m.reader.pending == []
      else
        && Tracks(o.m.reader, used, read')
        && used + (if o.Go? then o.rest else []) == bytes + input
  {
    hide Execute, Tracks, WireAll, HasZeroRun, Wire, LeadingZeros;
    hide TrailingZeros, Code, RegsOk, Recency.Valid, Picture.Valid;
    OkParts(m);
    RowFacts(m.regs, m.regs.state);
    GetBitsValid(m.reader, Width(m), m.regs.code, input);
    SkipValid(m.reader, input);
    used, read' := GetBitsTracks(m.reader, Width(m), m.regs.code, input, bytes, read);
    if !GivesUp(m, input, bytes) {
      var f := GetBits(m.reader, Width(m), m.regs.code, input);
      read' := AlignedTracks(f.reader, Step(m, input).m.reader, used, read');
    }
  }

  lemma {:induction false} WireAllConcat(a: seq<byte>, b: seq<byte>)
    ensures WireAll(a + b) == WireAll(a) + WireAll(b)
  {
    if b == [] {
      assert a + b == a;
    } else {
      assert (a + b)[..|a + b| - 1] == a + b[..|b| - 1];
      WireAllConcat(a, b[..|b| - 1]);
    }
  }

  lemma ZeroRunPrefix(a: seq<byte>, b: seq<byte>)
    requires !HasZeroRun(WireAll(a + b))
    ensures !HasZeroRun(WireAll(a))
  {
    WireAllConcat(a, b);
    RunExtends(WireAll(a), WireAll(b));
  }

  lemma RunExtends(w: seq<bool>, v: seq<bool>)
    ensures HasZeroRun(w) ==> HasZeroRun(w + v)
  {
    if HasZeroRun(w) {
      var at: nat :| ZeroRun(w, at);
      assert ZeroRun(w + v, at);
    }
  }

  /** A stream without 31 zero bits in a row is read to its end (or to EXIT) as
      plain bits: what was read and what is buffered are together the whole wire. */
  lemma {:induction false} RunTracks(m: Machine, input: seq<byte>, bytes: seq<byte>, read: seq<bool>)
    returns (read': seq<bool>)
    requires Ok(m) && Tracks(m.reader, bytes, read) && !HasZeroRun(WireAll(bytes + input))
    ensures Run(m, input).regs.halt || Tracks(Run(m, input).reader, bytes + input, read')
    decreases Budget(m, input)
  {
    hide Step;
    StepProgress(m, input);
    NoneCompletes(m, input, bytes);
    var used;
    used, read' := StepTracks(m, input, bytes, read);
    match Step(m, input)
    case Stop(n) => assert used + [] == used;
    case Go(n, rest) => if !n.regs.halt { read' := RunTracks(n, rest, used, read'); }
  }

  lemma NoneCompletes(m: Machine, input: seq<byte>, bytes: seq<byte>)
    requires Ok(m) && !HasZeroRun(WireAll(bytes + input))
    ensures !GivesUp(m, input, bytes)
  {
    hide HasZeroRun, WireAll, Width, Ok;
    if input != [] {
      assert (bytes + [input[0]]) + input[1..] == bytes + input;
      ZeroRunPrefix(bytes + [input[0]], input[1..]);
    }
  }

  /** k steps, none of which stops or halts, lead from m and input to n and rest. */
  ghost predicate Reaches(m: Machine, input: seq<byte>, n: Machine, rest: seq<byte>, k: nat)
    decreases k
  {
    hide Step;
    if k == 0 then m == n && input == rest
    else
      && Ok(m) && Step(m, input).Go? && !Step(m, input).m.regs.halt
      && Reaches(Step(m, input).m, Step(m, input).rest, n, rest, k - 1)
  }

  /** A stream that has a run of 31 zeros somewhere is read as plain bits up to the byte
      that completes the first such run, and the decoder gives up at exactly that byte,
      unless EXIT halts it before. */
  lemma {:induction false} RunGivesUp(m: Machine, input: seq<byte>, bytes: seq<byte>, read: seq<bool>)
    returns (n: Machine, rest: seq<byte>, used: seq<byte>, read': seq<bool>, k: nat)
    requires Ok(m) && Tracks(m.reader, bytes, read) && HasZeroRun(WireAll(bytes + input))
    ensures Reaches(m, input, n, rest, k) && Ok(n)
    ensures Tracks(n.reader, used, read') && used + rest == bytes + input
    ensures GivesUp(n, rest, used) || (Step(n, rest).Go? && Step(n, rest).m.regs.halt)
    decreases Budget(m, input)
  {
    hide Step, Tracks, HasZeroRun, WireAll, GivesUp;
    n, rest, used, read', k := m, input, bytes, read, 0;
    if !GivesUp(m, input, bytes) {
      StepProgress(m, input);
      var used1, read1 := StepTracks(m, input, bytes, read);
      match Step(m, input)
      case Stop(q) =>
        assert used1 + [] == used1;
        TracksNoRun(q.reader, used1, read1);
        assert false;
      case Go(q, r) =>
        if !q.regs.halt {
          n, rest, used, read', k := RunGivesUp(q, r, used1, read1);
          k := k + 1;
        }
    }
  }

  lemma TracksNoRun(r: Reader, bytes: seq<byte>, read: seq<bool>)
    requires Tracks(r, bytes, read)
    ensures !HasZeroRun(WireAll(bytes))
  {
  }
}
