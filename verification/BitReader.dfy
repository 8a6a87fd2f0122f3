/**
 The decoder's bit reader as a value: the bits fetched but not yet read, in wire
 order, and how many zero bits the stream currently ends in, counted up to the 31
 that force a resynchronisation.
 */
module BitReader {
  import opened Bits

  const RESYNC := 31

  datatype Reader = Reader(pending: seq<bool>, zeros: nat) {
    ghost predicate Valid() {
      |pending| <= 7 && zeros <= RESYNC
    }
  }

  /** The eight bits of a byte in the order they are read. */
  function Wire(b: byte): (w: seq<bool>)
    ensures |w| == 8
  {
    ToWire(b, 8)
  }

  function Saturate(n: nat): nat {
    if n > RESYNC then RESYNC else n
  }

  datatype Fetch =
    | Dry(reader: Reader)
    | Resync(reader: Reader, rest: seq<byte>)
    | Got(code: byte, reader: Reader, rest: seq<byte>)

  /** Drop zero bytes; the first other byte is dropped too and its leading zeros start the new count. */
  function Skip(r: Reader, input: seq<byte>): (f: Fetch)
    ensures !f.Got?
  {
    if input == [] then Dry(Reader(r.pending, RESYNC))
    else if input[0] == 0 then Skip(r, input[1..])
    else Resync(Reader([], LeadingZeros(Wire(input[0]))), input[1..])
  }

  function Take(pending: seq<bool>, zeros: nat, n: nat, rest: seq<byte>): (f: Fetch)
    requires n <= |pending| && n <= 8
  {
    CodeBound(pending[..n]);
    Pow2Monotone(n, 8);
    assert Pow2(8) == 256;
    Got(Code(pending[..n]), Reader(pending[n..], zeros), rest)
  }

  /** Read n bits; `code` is what the code register held before. */
  function GetBits(r: Reader, n: nat, code: byte, input: seq<byte>): (f: Fetch) {
    if n == 0 then Got(code, r, input)
    else if n > 8 then Dry(r)
    else if |r.pending| >= n then Take(r.pending, r.zeros, n, input)
    else if input == [] then Dry(r)
    else
      var w := Wire(input[0]);
      var z := r.zeros + LeadingZeros(w);
      if z >= RESYNC then Skip(r, input)
      else Take(r.pending + w, if input[0] != 0 then TrailingZeros(w) else z, n, input[1..])
  }

  lemma {:induction false} WireZero(b: byte)
    ensures b == 0 <==> Wire(b) == Zeros(8)
    ensures LeadingZeros(Wire(b)) == 8 <==> b == 0
    ensures TrailingZeros(Wire(b)) == 8 <==> b == 0
  {
    assert Pow2(8) == 256;
    FromToWire(b, 8);
    FromToWire(0, 8);
    ToFromWire([], 8);
    assert [] + Zeros(8) == Zeros(8);
    assert LeadingZeros(Wire(b)) == 8 ==> Wire(b) == Zeros(8);
    assert TrailingZeros(Wire(b)) == 8 ==> Wire(b) == Zeros(8);
  }

  lemma GetBitsValid(r: Reader, n: nat, code: byte, input: seq<byte>)
    requires r.Valid()
    ensures GetBits(r, n, code, input).reader.Valid()
  {
    if 0 < n <= 8 && |r.pending| < n && input != [] {
      SkipValid(r, input);
      WireZero(input[0]);
    }
  }

  lemma ReadsOneBit(r: Reader, code: byte, input: seq<byte>)
    requires r.pending != []
    ensures GetBits(r, 1, code, input) == Got(BitVal(r.pending[0]), Reader(r.pending[1..], r.zeros), input)
  {
    var one := [r.pending[0]];
    assert r.pending[..1] == one && one[..0] == [];
    assert Code(one) == 2 * Code(one[..0]) + BitVal(one[0]);
  }

  lemma {:induction false} SkipValid(r: Reader, input: seq<byte>)
    requires r.Valid()
    ensures Skip(r, input).reader.Valid()
    ensures Skip(r, input).Resync? ==> |Skip(r, input).rest| < |input| && Skip(r, input).reader.pending == []
  {
    if input == [] || input[0] != 0 {
    } else {
      SkipValid(r, input[1..]);
    }
  }

  // ---- More input does not change what was already decided -------------------

  lemma {:induction false} SkipAppend(r: Reader, a: seq<byte>, b: seq<byte>)
    ensures match Skip(r, a)
            case Resync(r', rest) => Skip(r, a + b) == Resync(r', rest + b)
            case Dry(r') => r' == Reader(r.pending, RESYNC) && Skip(r, a + b) == Skip(r', b)
    decreases a
  {
    if a == [] {
      assert a + b == b;
      SkipPending(r, Reader(r.pending, RESYNC), b);
    } else {
      assert (a + b)[1..] == a[1..] + b;
      if a[0] == 0 { SkipAppend(r, a[1..], b); }
    }
  }

  lemma {:induction false} SkipPending(r: Reader, q: Reader, b: seq<byte>)
    requires r.pending == q.pending
    ensures Skip(r, b) == Skip(q, b)
  {
    if b == [] || b[0] != 0 {
    } else {
      SkipPending(r, q, b[1..]);
    }
  }

  /** Running dry and reading on later is the same as having had the bytes at once. */
  lemma GetBitsAppend(r: Reader, n: nat, code: byte, a: seq<byte>, b: seq<byte>)
    requires n <= 8 && b != []
    ensures match GetBits(r, n, code, a)
            case Got(c, r', rest) => GetBits(r, n, code, a + b) == Got(c, r', rest + b)
            case Resync(r', rest) => GetBits(r, n, code, a + b) == Resync(r', rest + b)
            case Dry(r') => GetBits(r, n, code, a + b) == GetBits(r', n, code, b)
  {
    hide Wire, LeadingZeros, TrailingZeros, Code;
    if 0 < n && |r.pending| < n {
      if a == [] {
        assert a + b == b;
      } else {
        assert (a + b)[1..] == a[1..] + b;
        SkipAppend(r, a, b);
      }
    }
  }

  // ---- The reader against the plain bit string ------------------------------

  function WireAll(bytes: seq<byte>): (w: seq<bool>)
    ensures |w| == 8 * |bytes|
  {
    if bytes == [] then [] else WireAll(bytes[..|bytes| - 1]) + Wire(bytes[|bytes| - 1])
  }

  ghost predicate ZeroRun(w: seq<bool>, at: nat) {
    at + RESYNC <= |w| && forall i :: at <= i < at + RESYNC ==> !w[i]
  }

  ghost predicate HasZeroRun(w: seq<bool>) {
    exists at :: ZeroRun(w, at)
  }

  /** The reader has consumed exactly `bytes`, delivered exactly the bits `read`,
      holds the rest, and never met a run of 31 zeros. */
  ghost predicate Tracks(r: Reader, bytes: seq<byte>, read: seq<bool>) {
    && WireAll(bytes) == read + r.pending
    && r.zeros == TrailingZeros(WireAll(bytes))
    && !HasZeroRun(WireAll(bytes))
  }

  /** The next byte completes a run of 31 zero bits exactly when the zeros the
      stream ends in and the zeros the byte starts with add up to 31. */
  lemma RunCompletes(w: seq<bool>, v: seq<bool>)
    requires !HasZeroRun(w) && |v| == 8
    ensures HasZeroRun(w + v) <==> TrailingZeros(w) + LeadingZeros(v) >= RESYNC
  {
    var t, l, s := TrailingZeros(w), LeadingZeros(v), w + v;
    if t + l >= RESYNC {
      assert forall i :: |w| - t <= i < |w| ==> !s[i];
      assert forall i :: |w| <= i < |w| + l ==> !s[i] by { assert forall i :: |w| <= i < |s| ==> s[i] == v[i - |w|]; }
      assert ZeroRun(s, |w| - t);
    }
    if HasZeroRun(s) {
      var at: nat :| ZeroRun(s, at);
      if at + RESYNC <= |w| {
        assert forall i :: at <= i < at + RESYNC ==> s[i] == w[i];
        assert ZeroRun(w, at);
      }
      if t < |w| { assert s[|w| - t - 1]; }
      if l < 8 { assert s[|w| + l]; }
    }
  }

  lemma TrailingAfter(w: seq<bool>, v: seq<bool>)
    ensures TrailingZeros(w + v) == if TrailingZeros(v) == |v| then TrailingZeros(w) + |v| else TrailingZeros(v)
    decreases |v|
  {
    if v == [] {
      assert w + v == w;
    } else {
      assert (w + v)[..|w + v| - 1] == w + v[..|v| - 1];
      if !v[|v| - 1] { TrailingAfter(w, v[..|v| - 1]); }
    }
  }

  /** `f` delivered the n bits that follow `read` on the wire, first bit most significant. */
  ghost predicate Delivers(f: Fetch, n: nat, used: seq<byte>, read: seq<bool>, rest: seq<byte>) {
    f.Got? && f.rest == rest &&
    exists bits :: |bits| == n && f.code == Code(bits) && Tracks(f.reader, used, read + bits)
  }

  lemma TakeDelivers(pending: seq<bool>, z: nat, n: nat, rest: seq<byte>, used: seq<byte>, read: seq<bool>)
    requires n <= |pending| && n <= 8 && Tracks(Reader(pending, z), used, read)
    ensures Delivers(Take(pending, z, n, rest), n, used, read, rest)
  {
    var bits := pending[..n];
    assert read + pending == (read + bits) + pending[n..];
    assert Tracks(Reader(pending[n..], z), used, read + bits);
  }

  /** A byte that completes no run of zeros leaves the reader on track. */
  lemma TracksNext(r: Reader, b: byte, bytes: seq<byte>, read: seq<bool>)
    requires Tracks(r, bytes, read) && r.zeros + LeadingZeros(Wire(b)) < RESYNC
    ensures var z := if b != 0 then TrailingZeros(Wire(b)) else r.zeros + 8;
      Tracks(Reader(r.pending + Wire(b), z), bytes + [b], read)
  {
    var w, v, used := WireAll(bytes), Wire(b), bytes + [b];
    assert used[..|used| - 1] == bytes;
    RunCompletes(w, v);
    TrailingAfter(w, v);
    WireZero(b);
    assert read + r.pending + v == read + (r.pending + v);
  }

  /** A read served from the buffer delivers the next bits of the wire. */
  lemma ReadsBuffered(r: Reader, n: nat, code: byte, input: seq<byte>, bytes: seq<byte>, read: seq<bool>)
    requires Tracks(r, bytes, read) && 0 < n <= 8 && |r.pending| >= n
    ensures Delivers(GetBits(r, n, code, input), n, bytes, read, input)
  {
    TakeDelivers(r.pending, r.zeros, n, input, bytes, read);
  }

  lemma FetchTakes(r: Reader, n: nat, code: byte, input: seq<byte>)
    requires 0 < n <= 8 && |r.pending| < n && input != []
    requires r.zeros + LeadingZeros(Wire(input[0])) < RESYNC
    ensures var w := Wire(input[0]);
      GetBits(r, n, code, input) ==
      Take(r.pending + w, if input[0] != 0 then TrailingZeros(w) else r.zeros + 8, n, input[1..])
  {
    WireZero(input[0]);
  }

  /** Without a full run of zeros, so does a read that fetches a byte. */
  lemma ReadsFetched(r: Reader, n: nat, code: byte, input: seq<byte>, bytes: seq<byte>, read: seq<bool>)
    requires Tracks(r, bytes, read) && 0 < n <= 8 && |r.pending| < n && input != []
    requires r.zeros + LeadingZeros(Wire(input[0])) < RESYNC
    ensures Delivers(GetBits(r, n, code, input), n, bytes + [input[0]], read, input[1..])
  {
    var b, rest := input[0], input[1..];
    var z := if b != 0 then TrailingZeros(Wire(b)) else r.zeros + 8;
    var p := r.pending + Wire(b);
    FetchTakes(r, n, code, input);
    TracksNext(r, b, bytes, read);
    TakeDelivers(p, z, n, rest, bytes + [b], read);
  }

  /** A fetch gives up on the stream exactly when its byte completes the first run
      of 31 zero bits. */
  lemma FetchResyncs(r: Reader, n: nat, code: byte, input: seq<byte>, bytes: seq<byte>, read: seq<bool>)
    requires Tracks(r, bytes, read) && 0 < n <= 8 && |r.pending| < n && input != []
    ensures GetBits(r, n, code, input).Got? <==> !HasZeroRun(WireAll(bytes + [input[0]]))
    ensures GetBits(r, n, code, input).Got? <==> r.zeros + LeadingZeros(Wire(input[0])) < RESYNC
  {
    var used := bytes + [input[0]];
    assert used[..|used| - 1] == bytes;
    RunCompletes(WireAll(bytes), Wire(input[0]));
  }
}
