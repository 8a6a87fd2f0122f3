/**
 The encrypted console connection: a keystream made by chaining a block cipher over
 zero blocks (section 6.4 of NIST SP 800-38A), and a connection that stops sending
 for good once a socket write fell short.
 */
module CipherStream {
  import opened Bits

  const BLOCK := 16

  type Block = b: seq<byte> | |b| == BLOCK witness seq(BLOCK, _ => 0)

  /** The block cipher under one key; nothing is assumed about it. */
  type Cipher = Block -> Block

  const ZERO: Block := seq(BLOCK, _ => 0)

  function XorBlock(a: Block, b: Block): (r: Block) {
    seq(BLOCK, i requires 0 <= i < BLOCK => XorByte(a[i], b[i]))
  }

  // ---- The keystream -------------------------------------------------------------

  /** The k-th output block: the cipher applied k + 1 times to the IV. */
  function OutputBlock(e: Cipher, iv: Block, k: nat): Block {
    if k == 0 then e(iv) else e(OutputBlock(e, iv, k - 1))
  }

  function KeyByte(e: Cipher, iv: Block, i: nat): byte {
    OutputBlock(e, iv, i / BLOCK)[i % BLOCK]
  }

  /** `data` under the keystream from position `at` on; the same function both ways. */
  function Crypt(e: Cipher, iv: Block, at: nat, data: seq<byte>): (r: seq<byte>)
    ensures |r| == |data|
  {
    seq(|data|, i requires 0 <= i < |data| => XorByte(data[i], KeyByte(e, iv, at + i)))
  }

  lemma CryptTwice(e: Cipher, iv: Block, at: nat, data: seq<byte>)
    ensures Crypt(e, iv, at, Crypt(e, iv, at, data)) == data
  {
    var r := Crypt(e, iv, at, Crypt(e, iv, at, data));
    forall i | 0 <= i < |data|
      ensures r[i] == data[i]
    {
      XorInvolution(data[i], KeyByte(e, iv, at + i));
    }
    assert r == data;
  }

  /** Cutting the data into chunks does not matter. */
  lemma CryptConcat(e: Cipher, iv: Block, at: nat, a: seq<byte>, b: seq<byte>)
    ensures Crypt(e, iv, at, a + b) == Crypt(e, iv, at, a) + Crypt(e, iv, at + |a|, b)
  {
    var l, r := Crypt(e, iv, at, a + b), Crypt(e, iv, at, a) + Crypt(e, iv, at + |a|, b);
    assert forall i :: 0 <= i < |l| ==> l[i] == r[i];
  }

  lemma CryptPrefix(e: Cipher, iv: Block, at: nat, data: seq<byte>, n: nat)
    requires n <= |data|
    ensures Crypt(e, iv, at, data)[..n] == Crypt(e, iv, at, data[..n])
  {
    CryptConcat(e, iv, at, data[..n], data[n..]);
    assert data[..n] + data[n..] == data;
  }

  lemma XorZero(b: Block)
    ensures XorBlock(ZERO, b) == b
  {
    assert forall i :: 0 <= i < BLOCK ==> XorBlock(ZERO, b)[i] == b[i];
  }

  /** The stream object: CBC over zero blocks, handed out byte by byte. */
  class AesStream {
    const cipher: Cipher
    const iv: Block
    var chain: Block
    var buf: Block
    var idx: nat
    ghost var position: nat

    /** After `position` bytes the buffer is the block that the next byte comes from. */
    ghost predicate Valid()
      reads this
    {
      if position == 0 then chain == iv && idx == BLOCK
      else
        var last := position - 1;
        chain == buf == OutputBlock(cipher, iv, last / BLOCK) && idx == last % BLOCK + 1
    }

    constructor (cipher: Cipher, iv: Block)
      ensures Valid() && position == 0 && this.cipher == cipher && this.iv == iv
    {
      this.cipher, this.iv := cipher, iv;
      chain, buf, idx, position := iv, ZERO, BLOCK, 0;
    }

    /** CBC mode over one block: encrypt the input mixed with the previous output. */
    method CryptBlock(input: Block)
      modifies this`chain, this`buf
      ensures chain == buf == cipher(XorBlock(input, old(chain)))
    {
      buf := cipher(XorBlock(input, chain));
      chain := buf;
    }

    /** The next byte of the keystream, filling the buffer when it is used up. */
    method NextByte() returns (b: byte)
      requires Valid()
      modifies this
      ensures Valid() && position == old(position) + 1 && b == KeyByte(cipher, iv, old(position))
    {
      if idx >= BLOCK {
        XorZero(chain);
        CryptBlock(ZERO);
        idx := 0;
      }
      b := buf[idx];
      idx := idx + 1;
      position := position + 1;
    }

    /** n bytes of src under the next n key bytes; dst and src may be one array. */
    method XorKeyStream(dst: array<byte>, src: array<byte>, n: nat)
      requires Valid() && n <= dst.Length && n <= src.Length
      modifies this, dst
      ensures Valid() && position == old(position) + n
      ensures dst[..n] == Crypt(cipher, iv, old(position), old(src[..n]))
      ensures dst[n..] == old(dst[n..])
    {
      hide Valid, KeyByte;
      ghost var plain := src[..n];
      ghost var p0 := position;
      for i := 0 to n
        invariant Valid() && position == p0 + i
        invariant forall j :: 0 <= j < i ==> dst[j] == XorByte(plain[j], KeyByte(cipher, iv, p0 + j))
        invariant forall j :: i <= j < dst.Length ==> dst[j] == old(dst[j])
        invariant forall j :: i <= j < n ==> src[j] == plain[j]
      {
        var key := NextByte();
        dst[i] := XorByte(src[i], key);
      }
      assert dst[..n] == Crypt(cipher, iv, p0, plain);
    }
  }

  // ---- The connection ---------------------------------------------------------------

  /** What a socket write does: how many bytes it took, and whether it reported an error. */
  datatype SocketWrite = SocketWrite(took: nat, failed: bool)

  datatype Sent = Sent(plain: seq<byte>, socket: SocketWrite)

  datatype Line = Line(wire: seq<byte>, broken: bool)

  /** The wire after a sequence of writes, as Write leaves it. */
  function After(e: Cipher, iv: Block, writes: seq<Sent>): Line {
    if writes == [] then Line([], false)
    else
      var line, w := After(e, iv, writes[..|writes| - 1]), writes[|writes| - 1];
      if line.broken then line
      else
        var n := if w.socket.took < |w.plain| then w.socket.took else |w.plain|;
        Line(line.wire + Crypt(e, iv, |line.wire|, w.plain)[..n], w.socket.failed || n != |w.plain|)
  }

  function Asked(writes: seq<Sent>): seq<byte> {
    if writes == [] then [] else Asked(writes[..|writes| - 1]) + writes[|writes| - 1].plain
  }

  function IsPrefix(a: seq<byte>, b: seq<byte>): bool { |a| <= |b| && a == b[..|a|] }

  class Conn {
    const stream: AesStream
    const decryptor: AesStream
    var writeBroken: bool
    var wire: seq<byte>
    /** Every write so far and what the socket did with it. */
    ghost var writes: seq<Sent>

    /** The wire and the latch are those of the writes so far, and what reached the
        peer decrypts to a prefix of what was asked; while the latch is open it is all
        of it and the two ends are in step. */
    ghost predicate Valid()
      reads this, stream
    {
      && stream.Valid()
      && After(stream.cipher, stream.iv, writes) == Line(wire, writeBroken)
      && IsPrefix(Crypt(stream.cipher, stream.iv, 0, wire), Asked(writes))
      && (!writeBroken ==> stream.position == |wire| == |Asked(writes)|)
    }

    constructor (cipher: Cipher, iv: Block, inbound: Cipher, inboundIv: Block)
      ensures Valid() && !writeBroken && wire == [] && writes == [] && fresh(stream) && fresh(decryptor)
      ensures stream.cipher == cipher && stream.iv == iv && stream != decryptor
      ensures decryptor.Valid() && decryptor.cipher == inbound && decryptor.iv == inboundIv && decryptor.position == 0
    {
      stream := new AesStream(cipher, iv);
      decryptor := new AesStream(inbound, inboundIv);
      writeBroken, wire, writes := false, [], [];
    }

    /** Reads whatever arrived, at most a bufferful, and decrypts it in place. */
    method Read(p: array<byte>, arrived: seq<byte>) returns (n: nat)
      requires decryptor.Valid() && |arrived| <= p.Length
      modifies decryptor, p
      ensures decryptor.Valid() && n == |arrived| && decryptor.position == old(decryptor.position) + n
      ensures p[..n] == Crypt(decryptor.cipher, decryptor.iv, old(decryptor.position), arrived)
      ensures p[n..] == old(p[n..])
    {
      n := |arrived|;
      for i := 0 to n
        invariant p[..i] == arrived[..i] && p[n..] == old(p[n..])
        modifies p
      {
        p[i] := arrived[i];
      }
      assert p[..n] == arrived;
      if n > 0 {
        decryptor.XorKeyStream(p, p, n);
      }
    }

    /** Sends p over a socket that may take any part of it. */
    method Write(p: seq<byte>, socket: SocketWrite) returns (n: nat, ok: bool)
      requires Valid() && socket.took <= |p|
      modifies this, stream
      ensures Valid() && writes == old(writes) + [Sent(p, socket)]
      ensures old(writeBroken) ==> !ok && n == 0 && writeBroken && wire == old(wire)
      ensures !old(writeBroken) ==>
        && n == socket.took && ok == (!socket.failed && n == |p|) && writeBroken == !ok
        && wire == old(wire) + Crypt(stream.cipher, stream.iv, |old(wire)|, p)[..n]
    {
      writes := writes + [Sent(p, socket)];
      assert writes[..|writes| - 1] == old(writes);
      if writeBroken {
        assert Asked(writes)[..|wire|] == Asked(old(writes))[..|wire|];
        return 0, false;
      }
      var out := new byte[|p|](i requires 0 <= i < |p| => p[i]);
      assert out[..] == p;
      assert out[..|p|] == out[..];
      stream.XorKeyStream(out, out, |p|);
      ghost var sent := Crypt(stream.cipher, stream.iv, |wire|, p);
      assert out[..] == out[..|p|] == sent;
      n := socket.took;
      Reaches(stream.cipher, stream.iv, wire, Asked(old(writes)), p, n);
      wire := wire + out[..n];
      ok := !socket.failed && n == |p|;
      if !ok {
        writeBroken := true;
      }
    }
  }

  /** Sending part of the next chunk keeps the peer's view a prefix. */
  lemma Reaches(e: Cipher, iv: Block, wire: seq<byte>, asked: seq<byte>, p: seq<byte>, n: nat)
    requires |wire| == |asked| && IsPrefix(Crypt(e, iv, 0, wire), asked) && n <= |p|
    ensures IsPrefix(Crypt(e, iv, 0, wire + Crypt(e, iv, |wire|, p)[..n]), asked + p)
    ensures Crypt(e, iv, 0, wire + Crypt(e, iv, |wire|, p)[..n]) == asked + p[..n]
  {
    var part := Crypt(e, iv, |wire|, p)[..n];
    CryptPrefix(e, iv, |wire|, p, n);
    CryptTwice(e, iv, |wire|, p[..n]);
    CryptConcat(e, iv, 0, wire, part);
    assert asked[..|asked|] == asked;
    assert (asked + p)[..|asked| + n] == asked + p[..n];
  }

  // ---- Whole runs -----------------------------------------------------------------------

  /** The peer decrypts what reached it in chunks of any sizes. */
  function ReadChunks(e: Cipher, iv: Block, at: nat, chunks: seq<seq<byte>>): seq<byte>
    decreases |chunks|
  {
    if chunks == [] then [] else Crypt(e, iv, at, chunks[0]) + ReadChunks(e, iv, at + |chunks[0]|, chunks[1..])
  }

  function Joined(chunks: seq<seq<byte>>): seq<byte> {
    if chunks == [] then [] else chunks[0] + Joined(chunks[1..])
  }

  lemma {:induction false} ChunksJoin(e: Cipher, iv: Block, at: nat, chunks: seq<seq<byte>>)
    ensures ReadChunks(e, iv, at, chunks) == Crypt(e, iv, at, Joined(chunks))
    decreases |chunks|
  {
    hide Crypt;
    if chunks == [] {
    } else {
      CryptConcat(e, iv, at, chunks[0], Joined(chunks[1..]));
      ChunksJoin(e, iv, at + |chunks[0]|, chunks[1..]);
    }
  }

  lemma {:induction false} WiresPrefix(e: Cipher, iv: Block, writes: seq<Sent>)
    ensures var line := After(e, iv, writes);
      && IsPrefix(Crypt(e, iv, 0, line.wire), Asked(writes))
      && (!line.broken ==> |line.wire| == |Asked(writes)|)
  {
    if writes == [] {
    } else {
      var line, w := After(e, iv, writes[..|writes| - 1]), writes[|writes| - 1];
      var asked := Asked(writes[..|writes| - 1]);
      WiresPrefix(e, iv, writes[..|writes| - 1]);
      if !line.broken {
        var n := if w.socket.took < |w.plain| then w.socket.took else |w.plain|;
        Reaches(e, iv, line.wire, asked, w.plain, n);
      } else {
        assert asked[..|line.wire|] == (asked + w.plain)[..|line.wire|];
      }
    }
  }

  /** For every sequence of writes with any partial or failed socket writes, and every
      way the peer's reads cut up what arrived, the peer's plaintext is a prefix of
      everything that was asked to be sent; it is all of it if no write fell short. */
  lemma PeerReadsPrefix(e: Cipher, iv: Block, writes: seq<Sent>, chunks: seq<seq<byte>>)
    requires Joined(chunks) == After(e, iv, writes).wire
    ensures IsPrefix(ReadChunks(e, iv, 0, chunks), Asked(writes))
    ensures !After(e, iv, writes).broken ==> ReadChunks(e, iv, 0, chunks) == Asked(writes)
  {
    ChunksJoin(e, iv, 0, chunks);
    WiresPrefix(e, iv, writes);
    assert Asked(writes)[..|Asked(writes)|] == Asked(writes);
  }
}
