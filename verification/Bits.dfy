/**
 Bytes, bitwise operators on natural numbers, and the two readings of a bit
 string that the video stream uses: least significant bit first (the order in
 which bits leave the wire) and most significant bit first (the value of a code).
 */
module Bits {

  type byte = x: int | 0 <= x < 256

  function Pow2(k: nat): (p: nat)
    ensures p >= 1
  {
    if k == 0 then 1 else 2 * Pow2(k - 1)
  }

  function Shr(a: nat, k: nat): nat {
    if k == 0 then a else Shr(a / 2, k - 1)
  }

  function Shl(a: nat, k: nat): nat {
    if k == 0 then a else 2 * Shl(a, k - 1)
  }

  /** k one bits. */
  function Mask(k: nat): nat { Pow2(k) - 1 }

  function BitVal(b: bool): (v: nat)
    ensures v <= 1
  {
    if b then 1 else 0
  }

  function Or(a: nat, b: nat): nat
    decreases a + b
  {
    if a == 0 then b else if b == 0 then a
    else (if a % 2 == 1 || b % 2 == 1 then 1 else 0) + 2 * Or(a / 2, b / 2)
  }

  function And(a: nat, b: nat): nat {
    if a == 0 || b == 0 then 0
    else (if a % 2 == 1 && b % 2 == 1 then 1 else 0) + 2 * And(a / 2, b / 2)
  }

  /** a with every bit of b cleared. */
  function AndNot(a: nat, b: nat): nat {
    if a == 0 then 0
    else (if a % 2 == 1 && b % 2 == 0 then 1 else 0) + 2 * AndNot(a / 2, b / 2)
  }

  function Xor(a: nat, b: nat): nat
    decreases a + b
  {
    if a == 0 then b else if b == 0 then a
    else (if a % 2 != b % 2 then 1 else 0) + 2 * Xor(a / 2, b / 2)
  }

  /** The value of a bit string whose first bit is the least significant. */
  function FromWire(bits: seq<bool>): nat {
    if bits == [] then 0 else BitVal(bits[0]) + 2 * FromWire(bits[1..])
  }

  /** The low n bits of v, least significant first. */
  function ToWire(v: nat, n: nat): (bits: seq<bool>)
    ensures |bits| == n
  {
    if n == 0 then [] else [v % 2 == 1] + ToWire(v / 2, n - 1)
  }

  /** The value of a bit string whose first bit is the most significant. */
  function Code(bits: seq<bool>): nat {
    if bits == [] then 0 else 2 * Code(bits[..|bits| - 1]) + BitVal(bits[|bits| - 1])
  }

  function Zeros(n: nat): (z: seq<bool>)
    ensures |z| == n && forall i :: 0 <= i < n ==> !z[i]
  {
    seq(n, _ => false)
  }

  /** How many zero bits come before the first one bit. */
  function LeadingZeros(bits: seq<bool>): (n: nat)
    ensures n <= |bits|
    ensures forall i :: 0 <= i < n ==> !bits[i]
    ensures n < |bits| ==> bits[n]
  {
    if bits == [] || bits[0] then 0 else 1 + LeadingZeros(bits[1..])
  }

  /** How many zero bits come after the last one bit. */
  function TrailingZeros(bits: seq<bool>): (n: nat)
    ensures n <= |bits|
    ensures forall i :: |bits| - n <= i < |bits| ==> !bits[i]
    ensures n < |bits| ==> bits[|bits| - n - 1]
  {
    if bits == [] || bits[|bits| - 1] then 0 else 1 + TrailingZeros(bits[..|bits| - 1])
  }

  lemma {:induction false} FromWireBound(bits: seq<bool>)
    ensures FromWire(bits) < Pow2(|bits|)
  {
    if bits == [] {
    } else {
      FromWireBound(bits[1..]);
    }
  }

  lemma {:induction false} FromToWire(v: nat, n: nat)
    requires v < Pow2(n)
    ensures FromWire(ToWire(v, n)) == v
  {
    if n == 0 {
    } else {
      FromToWire(v / 2, n - 1);
      assert ToWire(v, n)[1..] == ToWire(v / 2, n - 1);
    }
  }

  lemma {:induction false} ToFromWire(bits: seq<bool>, k: nat)
    ensures ToWire(FromWire(bits), |bits| + k) == bits + Zeros(k)
    decreases |bits| + k
  {
    if bits != [] {
      ToFromWire(bits[1..], k);
      assert bits + Zeros(k) == [bits[0]] + (bits[1..] + Zeros(k));
    } else if k != 0 {
      ToFromWire([], k - 1);
      assert [] + Zeros(k) == [false] + ([] + Zeros(k - 1));
    } else {
      assert [] + Zeros(0) == bits;
    }
  }

  lemma {:induction false} CodeZeros(bits: seq<bool>, k: nat)
    ensures Code(bits + Zeros(k)) == Shl(Code(bits), k)
  {
    if k == 0 {
      assert bits + Zeros(0) == bits;
    } else {
      var all := bits + Zeros(k);
      assert all[..|all| - 1] == bits + Zeros(k - 1);
      CodeZeros(bits, k - 1);
    }
  }

  lemma {:induction false} ShrShl(a: nat, k: nat)
    ensures Shr(Shl(a, k), k) == a
  {
    if k == 0 {
    } else {
      ShrShl(a, k - 1);
    }
  }

  lemma {:induction false} CodeBound(bits: seq<bool>)
    ensures Code(bits) < Pow2(|bits|)
  {
    if bits == [] {
    } else {
      CodeBound(bits[..|bits| - 1]);
    }
  }

  lemma {:induction false} Pow2Monotone(a: nat, b: nat)
    requires a <= b
    ensures Pow2(a) <= Pow2(b)
  {
    if a < b { Pow2Monotone(a, b - 1); }
  }

  lemma OrStep(b: bool, x: nat, y: nat)
    ensures Or(BitVal(b) + 2 * x, 2 * y) == BitVal(b) + 2 * Or(x, y)
  {
  }

  /** Inserting bits above every bit already held appends them. */
  lemma {:induction false} OrAppends(low: seq<bool>, high: seq<bool>)
    ensures Or(FromWire(low), Shl(FromWire(high), |low|)) == FromWire(low + high)
    ensures FromWire(low + high) == FromWire(low) + Shl(FromWire(high), |low|)
  {
    if low == [] {
      assert low + high == high;
    } else {
      OrAppends(low[1..], high);
      assert (low + high)[1..] == low[1..] + high;
      OrStep(low[0], FromWire(low[1..]), Shl(FromWire(high), |low| - 1));
      hide Or;
    }
  }

  /** Splitting an accumulator at bit n splits the bit string at n. */
  lemma {:induction false} SplitAt(bits: seq<bool>, n: nat)
    requires n <= |bits|
    ensures And(FromWire(bits), Mask(n)) == FromWire(bits[..n])
    ensures Shr(FromWire(bits), n) == FromWire(bits[n..])
  {
    if n == 0 {
      assert bits[0..] == bits;
    } else {
      SplitAt(bits[1..], n - 1);
      assert bits[1..][..n - 1] == bits[..n][1..];
      assert bits[1..][n - 1..] == bits[n..];
      assert Mask(n) / 2 == Mask(n - 1);
      assert FromWire(bits) / 2 == FromWire(bits[1..]);
    }
  }

  lemma {:induction false} XorInvolution(a: nat, b: nat)
    ensures Xor(Xor(a, b), b) == a
    decreases a + b
  {
    if a != 0 && b != 0 {
      XorInvolution(a / 2, b / 2);
      assert Xor(a, b) / 2 == Xor(a / 2, b / 2);
    } else if b != 0 {
      XorSelf(b);
    }
  }

  lemma {:induction false} XorSelf(a: nat)
    ensures Xor(a, a) == 0
  {
    if a == 0 {
    } else {
      XorSelf(a / 2);
    }
  }

  lemma {:induction false} XorBound(a: nat, b: nat, k: nat)
    requires a < Pow2(k) && b < Pow2(k)
    ensures Xor(a, b) < Pow2(k)
    decreases k
  {
    if a == 0 || b == 0 {
    } else {
      XorBound(a / 2, b / 2, k - 1);
    }
  }

  function XorByte(a: byte, b: byte): (r: byte) {
    assert Pow2(8) == 256;
    XorBound(a, b, 8);
    Xor(a, b)
  }

  lemma OneMore(k: nat, n: nat)
    ensures (k + 1) * n == k * n + n
  {
  }

  lemma MulNonNeg(a: nat, b: nat)
    ensures a * b >= 0
  {
  }

  // ---- Byte strings as numbers ------------------------------------------------

  function Pow256(n: nat): (p: nat)
    ensures p >= 1
  {
    if n == 0 then 1 else 256 * Pow256(n - 1)
  }

  function BigEndian(b: seq<byte>): nat {
    if b == [] then 0 else 256 * BigEndian(b[..|b| - 1]) + b[|b| - 1]
  }

  function LittleEndian(b: seq<byte>): nat {
    if b == [] then 0 else 256 * LittleEndian(b[1..]) + b[0]
  }

  /** The n low bytes of v, most significant first. */
  function BigEndianBytes(v: nat, n: nat): (b: seq<byte>)
    ensures |b| == n
  {
    if n == 0 then [] else BigEndianBytes(v / 256, n - 1) + [v % 256]
  }

  function LittleEndianBytes(v: nat, n: nat): (b: seq<byte>)
    ensures |b| == n
  {
    if n == 0 then [] else [v % 256] + LittleEndianBytes(v / 256, n - 1)
  }

  lemma BigEndianNext(b: seq<byte>, x: byte)
    ensures BigEndian(b + [x]) == BigEndian(b) * 256 + x
  {
    assert (b + [x])[..|b|] == b;
  }

  lemma BigEndianTwo(x: byte, y: byte)
    ensures BigEndian([x, y]) == x * 256 + y
  {
    BigEndianNext([], x);
    assert [] + [x] == [x];
    BigEndianNext([x], y);
  }

  lemma {:induction false} BigEndianRoundTrip(v: nat, n: nat)
    requires v < Pow256(n)
    ensures BigEndian(BigEndianBytes(v, n)) == v
  {
    if n == 0 {
    } else {
      var b := BigEndianBytes(v / 256, n - 1);
      BigEndianRoundTrip(v / 256, n - 1);
      BigEndianNext(b, v % 256);
      hide BigEndian;
    }
  }

  lemma {:induction false} LittleEndianRoundTrip(v: nat, n: nat)
    requires v < Pow256(n)
    ensures LittleEndian(LittleEndianBytes(v, n)) == v
  {
    if n == 0 {
    } else {
      var b := LittleEndianBytes(v, n);
      LittleEndianRoundTrip(v / 256, n - 1);
      assert b[1..] == LittleEndianBytes(v / 256, n - 1);
    }
  }
}
