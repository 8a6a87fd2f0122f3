/** A client-side WebSocket connection: one reader position, one writer, two closing flags. */
module WsConn {
  import opened Bits
  import opened WsFrame
  import M = WsMessage

  class Conn {
    var input: seq<byte>
    var peerClosed: bool
    var sentClose: bool
    var attempts: nat
    var wire: seq<byte>
    var closing: bool
    var closed: bool
    const env: M.Env
    /** What was read and written when the socket was dropped. */
    ghost var dropped: (seq<byte>, bool, M.Writer)

    constructor (input: seq<byte>, env: M.Env)
      ensures this.input == input && this.env == env && !peerClosed && !closing && !closed
      ensures Writer() == M.Writer(false, 0, [])
    {
      this.input, this.env := input, env;
      peerClosed, sentClose, closing, closed, attempts, wire := false, false, false, false, 0, [];
    }

    ghost function Writer(): M.Writer
      reads this
    {
      M.Writer(sentClose, attempts, wire)
    }

    /** Reads exactly n bytes or uses up what there is. */
    method ReadFull(n: nat) returns (data: seq<byte>, ok: bool)
      modifies this`input
      ensures ok == (|old(input)| >= n)
      ensures if ok then data == old(input)[..n] && input == old(input)[n..] else input == []
    {
      if |input| < n {
        data, ok, input := [], false, [];
      } else {
        data, ok, input := input[..n], true, input[n..];
      }
    }

    /** The payload, unmasked in place. */
    method ReadPayload(fin: bool, opcode: Opcode, masked: bool, length: nat) returns (p: Parsed)
      modifies this`input
      ensures p == ParseBody(fin, opcode, masked, length, old(input)) && input == p.rest
    {
      var key: Key := [0, 0, 0, 0];
      var ok;
      if masked {
        var raw;
        raw, ok := ReadFull(4);
        if !ok {
          return Bad(ShortInput, input);
        }
        key := raw;
      }
      if length == 0 {
        assert ApplyMask(key, []) == [];
        return Good(Frame(fin, opcode, []), input);
      }
      ghost var rest := input;
      var data;
      data, ok := ReadFull(length);
      if !ok {
        return Bad(ShortInput, input);
      }
      assert data == rest[..length] && input == rest[length..];
      if masked {
        data := Unmask(key, data);
      }
      return Good(Frame(fin, opcode, data), input);
    }

    /** XORs a payload with its key in place. */
    static method Unmask(key: Key, data: seq<byte>) returns (m: seq<byte>)
      ensures m == ApplyMask(key, data)
    {
      var payload := new byte[|data|](i requires 0 <= i < |data| => data[i]);
      for i := 0 to |data|
        invariant forall j :: 0 <= j < |data| ==> payload[j] == if j < i then XorByte(data[j], key[j % 4]) else data[j]
      {
        payload[i] := XorByte(payload[i], key[i % 4]);
      }
      m := payload[..];
      assert m == ApplyMask(key, data);
    }

    static method AppendMasked(out: seq<byte>, key: Key, payload: seq<byte>) returns (r: seq<byte>)
      ensures r == out + ApplyMask(key, payload)
    {
      r := out;
      ghost var m := ApplyMask(key, payload);
      for i := 0 to |payload|
        invariant r == out + m[..i]
      {
        r := r + [XorByte(payload[i], key[i % 4])];
        assert m[..i + 1] == m[..i] + [m[i]];
      }
      assert m[..|payload|] == m;
    }

    method ReadFrame() returns (p: Parsed)
      modifies this`input
      ensures p == Parse(old(input)) && input == p.rest
    {
      hide BigEndian, ParseBody;
      var header, ok := ReadFull(2);
      if !ok {
        return Bad(ShortInput, input);
      }
      var fin, opcode := header[0] >= 128, header[0] % 16;
      if (header[0] / 16) % 8 != 0 {
        return Bad(ReservedBits, input);
      }
      var masked := header[1] >= 128;
      var length: nat := header[1] % 128;
      if length == 126 {
        var ext;
        ext, ok := ReadFull(2);
        if !ok {
          return Bad(ShortInput, input);
        }
        assert ext == old(input)[2..4] && input == old(input)[4..];
        length := BigEndian(ext);
      } else if length == 127 {
        var ext;
        ext, ok := ReadFull(8);
        if !ok {
          return Bad(ShortInput, input);
        }
        assert ext == old(input)[2..10] && input == old(input)[10..];
        length := BigEndian(ext);
      }
      if opcode >= CLOSE {
        if !fin {
          return Bad(FragmentedControl, input);
        }
        if length > 125 {
          return Bad(OversizedControl, input);
        }
      }
      if length > MAX_MESSAGE_SIZE {
        return Bad(MessageTooLarge, input);
      }
      p := ReadPayload(fin, opcode, masked, length);
    }

    /** Refuses data and swallows a second Close once a Close was sent. */
    method WriteFrame(opcode: Opcode, payload: seq<byte>) returns (r: M.WriteResult)
      modifies this`sentClose, this`attempts, this`wire
      ensures (Writer(), r) == M.WriteFrame(env, old(Writer()), opcode, payload)
    {
      hide BigEndianBytes, ApplyMask;
      if sentClose {
        if opcode == CLOSE {
          return M.Acknowledged;
        }
        if opcode < CLOSE {
          return M.Refused;
        }
      }
      if opcode == CLOSE {
        sentClose := true;
      }
      var header := [128 + opcode];
      var n := |payload|;
      if n < 126 {
        header := header + [128 + n];
      } else if n <= 0xffff {
        header := header + [128 + 126] + BigEndianBytes(n, 2);
      } else {
        header := header + [128 + 127] + BigEndianBytes(n, 8);
      }
      var event := env(attempts);
      attempts := attempts + 1;
      match event
      case NoKey => return M.Broken;
      case Socket(key, accepts) =>
        var out := AppendMasked(header + key, key, payload);
        assert header == [128 + opcode] + LengthBytes(128, n);
        assert out == header + (key + ApplyMask(key, payload));
        assert out == Encode(Frame(true, opcode, payload), Masked(key));
        wire := wire + M.Prefix(out, accepts);
        return if accepts >= |out| then M.Sent else M.Broken;
    }

    /** Reads frames until a message is complete, answering control frames on the way. */
    method ReadMessage() returns (result: M.MessageResult)
      modifies this`input, this`peerClosed, this`sentClose, this`attempts, this`wire
      ensures old(peerClosed) ==> result == M.PeerClosed([]) && input == old(input) && Writer() == old(Writer())
      ensures !old(peerClosed) ==>
        M.Reading(result, input, Writer()) == M.ReadFrom(env, old(Writer()), M.Nothing, old(input))
      ensures peerClosed == (old(peerClosed) || result.PeerClosed?)
    {
      hide Parse, M.WriteFrame;
      if peerClosed {
        return M.PeerClosed([]);
      }
      var assembled: seq<byte> := [];
      var fragmented := false;
      while true
        invariant !peerClosed
        invariant M.ReadFrom(env, Writer(), if fragmented then M.Started(assembled) else M.Nothing, input)
               == M.ReadFrom(env, old(Writer()), M.Nothing, old(input))
        decreases |input|
      {
        var parsed := ReadFrame();
        if parsed.Bad? {
          return M.Failed(M.FrameFailed(parsed.error));
        }
        var f := parsed.frame;
        if f.opcode == PING {
          var r := WriteFrame(PONG, f.payload);
          if !M.Ok(r) {
            return M.Failed(M.WriteFailed);
          }
        } else if f.opcode == PONG {
        } else if f.opcode == CLOSE {
          peerClosed := true;
          var _ := WriteFrame(CLOSE, f.payload);
          return M.PeerClosed(f.payload);
        } else if f.opcode == TEXT || f.opcode == BINARY {
          if fragmented {
            return M.Failed(M.Interleaved);
          }
          if f.fin {
            return M.Message(f.payload);
          }
          assembled := f.payload;
          fragmented := true;
        } else if f.opcode == CONTINUATION {
          if !fragmented {
            return M.Failed(M.NoStart);
          }
          if |assembled| + |f.payload| > MAX_MESSAGE_SIZE {
            return M.Failed(M.TooLarge);
          }
          assembled := assembled + f.payload;
          if f.fin {
            return M.Message(assembled);
          }
        } else {
          return M.Failed(M.UnknownOpcode(f.opcode));
        }
      }
    }

    /** Sends a Close once, reads on to the peer's Close or a failed read, and drops the
        socket as that leaves it; a second call does nothing. */
    method Close()
      requires closing ==> closed
      modifies this`input, this`peerClosed, this`sentClose, this`attempts, this`wire
      modifies this`closing, this`closed, this`dropped
      ensures closing && closed
      ensures old(closing) ==>
        input == old(input) && peerClosed == old(peerClosed) && Writer() == old(Writer()) && dropped == old(dropped)
      ensures !old(closing) ==>
        && dropped == (input, peerClosed, Writer())
        && var (w, r) := M.WriteFrame(env, old(Writer()), CLOSE, [3, 232]);
           if old(peerClosed) || !M.Ok(r) then input == old(input) && peerClosed == old(peerClosed) && Writer() == w
           else M.Drained(peerClosed, input, Writer()) == M.Drain(env, w, old(input))
    {
      if closing {
        return;
      }
      closing := true;
      Handshake();
      closed := true;
      dropped := (input, peerClosed, Writer());
    }

    /** The closing handshake proper. */
    method Handshake()
      modifies this`input, this`peerClosed, this`sentClose, this`attempts, this`wire
      ensures var (w, r) := M.WriteFrame(env, old(Writer()), CLOSE, [3, 232]);
        if old(peerClosed) || !M.Ok(r) then input == old(input) && peerClosed == old(peerClosed) && Writer() == w
        else M.Drained(peerClosed, input, Writer()) == M.Drain(env, w, old(input))
    {
      hide Parse, M.WriteFrame;
      var r := WriteFrame(CLOSE, [3, 232]);
      if !M.Ok(r) {
        return;
      }
      ghost var w, all := Writer(), M.Drain(env, Writer(), input);
      var failed := false;
      while !peerClosed && !failed
        invariant old(peerClosed) ==> peerClosed && input == old(input) && !failed && Writer() == w
        invariant !old(peerClosed) && !peerClosed && !failed ==> M.Drain(env, Writer(), input) == all
        invariant !old(peerClosed) && (peerClosed || failed) ==> M.Drained(peerClosed, input, Writer()) == all
        decreases |input|, !failed
      {
        var parsed := ReadFrame();
        if parsed.Bad? {
          failed := true;
        } else if parsed.frame.opcode == CLOSE {
          peerClosed := true;
        } else if parsed.frame.opcode == PING {
          var _ := WriteFrame(PONG, parsed.frame.payload);
        }
      }
    }
  }
}
