/** The WebSocket frame codec (sections 5.2 and 5.3 of RFC 6455). */
module WsFrame {
  import opened Bits

  const CONTINUATION := 0
  const TEXT := 1
  const BINARY := 2
  const CLOSE := 8
  const PING := 9
  const PONG := 10
  const MAX_MESSAGE_SIZE := 33554432

  type Opcode = o: int | 0 <= o < 16
  type Key = m: seq<byte> | |m| == 4 witness [0, 0, 0, 0]

  datatype Masking = Unmasked | Masked(key: Key)

  datatype Frame = Frame(fin: bool, opcode: Opcode, payload: seq<byte>)

  datatype FrameError = ShortInput | ReservedBits | FragmentedControl | OversizedControl | MessageTooLarge

  datatype Parsed = Bad(error: FrameError, rest: seq<byte>) | Good(frame: Frame, rest: seq<byte>)

  /** XOR with the repeated key; its own inverse. */
  function ApplyMask(key: Key, payload: seq<byte>): (m: seq<byte>)
    ensures |m| == |payload|
  {
    seq(|payload|, i requires 0 <= i < |payload| => XorByte(payload[i], key[i % 4]))
  }

  lemma MaskTwice(key: Key, payload: seq<byte>)
    ensures ApplyMask(key, ApplyMask(key, payload)) == payload
  {
    var m := ApplyMask(key, ApplyMask(key, payload));
    forall i | 0 <= i < |payload|
      ensures m[i] == payload[i]
    {
      XorInvolution(payload[i], key[i % 4]);
    }
    assert m == payload;
  }

  function FinBit(fin: bool): byte { if fin then 128 else 0 }

  /** The length in the second header byte and its extension. */
  function LengthBytes(maskBit: byte, n: nat): seq<byte>
    requires maskBit == 0 || maskBit == 128
  {
    if n < 126 then [maskBit + n]
    else if n <= 0xffff then [maskBit + 126] + BigEndianBytes(n, 2)
    else [maskBit + 127] + BigEndianBytes(n, 8)
  }

  /** A frame as any endpoint may send it. */
  function Encode(f: Frame, masking: Masking): seq<byte> {
    match masking
    case Unmasked => [FinBit(f.fin) + f.opcode] + LengthBytes(0, |f.payload|) + f.payload
    case Masked(key) => [FinBit(f.fin) + f.opcode] + LengthBytes(128, |f.payload|) + (key + ApplyMask(key, f.payload))
  }

  /** What the receiver demands of a frame. */
  predicate Acceptable(f: Frame) {
    && (f.opcode >= CLOSE ==> f.fin && |f.payload| <= 125)
    && |f.payload| <= MAX_MESSAGE_SIZE
  }

  /** How many extension bytes a seven-bit length announces. */
  function ExtSize(short: nat): nat {
    if short == 126 then 2 else if short == 127 then 8 else 0
  }

  function ParseBody(fin: bool, opcode: Opcode, masked: bool, length: nat, input: seq<byte>): (p: Parsed)
    ensures p.Good? ==>
      |p.rest| <= |input| && p.frame.fin == fin && p.frame.opcode == opcode && |p.frame.payload| == length
  {
    if masked && |input| < 4 then Bad(ShortInput, [])
    else
      var rest := if masked then input[4..] else input;
      if |rest| < length then Bad(ShortInput, [])
      else
        var payload := if masked then ApplyMask(input[..4], rest[..length]) else rest[..length];
        Good(Frame(fin, opcode, payload), rest[length..])
  }

  /** Reads one frame off the front of the input. */
  function Parse(input: seq<byte>): (p: Parsed)
    ensures |p.rest| <= |input|
    ensures p.Good? ==> |p.rest| < |input| && Acceptable(p.frame)
  {
    if |input| < 2 then Bad(ShortInput, [])
    else
      var fin, opcode := input[0] >= 128, input[0] % 16;
      if (input[0] / 16) % 8 != 0 then Bad(ReservedBits, input[2..])
      else
        var masked, short := input[1] >= 128, input[1] % 128;
        var ext := ExtSize(short);
        if |input| < 2 + ext then Bad(ShortInput, [])
        else
          var length := if ext == 0 then short else BigEndian(input[2..2 + ext]);
          var rest := input[2 + ext..];
          if opcode >= CLOSE && !fin then Bad(FragmentedControl, rest)
          else if opcode >= CLOSE && length > 125 then Bad(OversizedControl, rest)
          else if length > MAX_MESSAGE_SIZE then Bad(MessageTooLarge, rest)
          else ParseBody(fin, opcode, masked, length, rest)
  }

  lemma LengthParses(maskBit: byte, n: nat)
    requires (maskBit == 0 || maskBit == 128) && n < Pow256(8)
    ensures var b := LengthBytes(maskBit, n);
      && b != [] && (b[0] >= 128 <==> maskBit == 128) && |b| == 1 + ExtSize(b[0] % 128)
      && (if ExtSize(b[0] % 128) == 0 then b[0] % 128 else BigEndian(b[1..])) == n
  {
    hide BigEndianBytes;
    assert Pow256(2) == 65536;
    if n <= 0xffff { BigEndianRoundTrip(n, 2); } else { BigEndianRoundTrip(n, 8); }
  }

  lemma Pow256Eight()
    ensures Pow256(8) > MAX_MESSAGE_SIZE
  {
    assert Pow256(4) == 4294967296;
    assert Pow256(8) == 256 * Pow256(7) && Pow256(7) == 256 * Pow256(6);
    assert Pow256(6) == 256 * Pow256(5) && Pow256(5) == 256 * Pow256(4);
  }

  lemma BodyParses(f: Frame, masking: Masking, tail: seq<byte>)
    ensures var body := if masking.Masked? then masking.key + ApplyMask(masking.key, f.payload) else f.payload;
      ParseBody(f.fin, f.opcode, masking.Masked?, |f.payload|, body + tail) == Good(f, tail)
  {
    if masking.Masked? {
      var key, m := masking.key, ApplyMask(masking.key, f.payload);
      var input := key + m + tail;
      assert input[..4] == key && input[4..] == m + tail;
      assert (m + tail)[..|m|] == m && (m + tail)[|m|..] == tail;
      MaskTwice(key, f.payload);
    } else {
      assert (f.payload + tail)[..|f.payload|] == f.payload && (f.payload + tail)[|f.payload|..] == tail;
    }
  }

  /** Reading back a frame gives the frame and leaves exactly what followed it. */
  lemma RoundTrip(f: Frame, masking: Masking, tail: seq<byte>)
    requires Acceptable(f)
    ensures Parse(Encode(f, masking) + tail) == Good(f, tail)
  {
    hide LengthBytes, BigEndian, ParseBody, ApplyMask, Pow256;
    var maskBit: byte := if masking.Masked? then 128 else 0;
    var b := LengthBytes(maskBit, |f.payload|);
    var body := if masking.Masked? then masking.key + ApplyMask(masking.key, f.payload) else f.payload;
    Pow256Eight();
    LengthParses(maskBit, |f.payload|);
    BodyParses(f, masking, tail);
    HeaderSplits([FinBit(f.fin) + f.opcode], b, body, tail);
  }

  lemma HeaderSplits(first: seq<byte>, b: seq<byte>, body: seq<byte>, tail: seq<byte>)
    requires |first| == 1 && b != []
    ensures var input := first + b + body + tail;
      && input[0] == first[0] && input[1] == b[0]
      && input[2..1 + |b|] == b[1..] && input[1 + |b|..] == body + tail
  {
  }

  /** A frame the receiver does not accept is refused, whatever follows. */
  lemma Refuses(f: Frame, masking: Masking, tail: seq<byte>)
    requires !Acceptable(f) && |f.payload| < Pow256(8)
    ensures Parse(Encode(f, masking) + tail).Bad?
    ensures Parse(Encode(f, masking) + tail).error ==
      if f.opcode >= CLOSE && !f.fin then FragmentedControl
      else if f.opcode >= CLOSE && |f.payload| > 125 then OversizedControl
      else MessageTooLarge
  {
    hide LengthBytes, BigEndian, ParseBody, ApplyMask, Pow256;
    var maskBit: byte := if masking.Masked? then 128 else 0;
    var b := LengthBytes(maskBit, |f.payload|);
    var body := if masking.Masked? then masking.key + ApplyMask(masking.key, f.payload) else f.payload;
    LengthParses(maskBit, |f.payload|);
    HeaderSplits([FinBit(f.fin) + f.opcode], b, body, tail);
  }
}
