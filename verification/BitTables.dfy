/** The byte-indexed tables of the bit reader, filled in by shifting each index through eight bits. */
module BitTables {
  import opened Bits
  import opened BitReader

  /** The byte with its bits in the opposite order. */
  function Reverse(b: byte): (r: byte)
  {
    CodeBound(Wire(b));
    assert Pow2(8) == 256;
    Code(Wire(b))
  }

  /** The prefix of a byte's bits that has been shifted out after k rounds. */
  ghost predicate Shifted(i: byte, k: nat, v: nat, rev: nat, right: nat, left: nat) {
    && k <= 8 && v == Shr(i, k)
    && rev == Code(Wire(i)[..k])
    && right == (if LeadingZeros(Wire(i)[..k]) == k then 8 else LeadingZeros(Wire(i)[..k]))
    && left == (if TrailingZeros(Wire(i)[..k]) == k then 8 else 8 - k + TrailingZeros(Wire(i)[..k]))
  }

  lemma {:induction false} WireBit(v: nat, n: nat, k: nat)
    requires k < n
    ensures ToWire(v, n)[k] == (Shr(v, k) % 2 == 1)
    ensures Shr(v, k + 1) == Shr(v, k) / 2
    decreases k
  {
    if k == 0 {
    } else {
      WireBit(v / 2, n - 1, k - 1);
    }
  }

  lemma {:induction false} LeadingGrows(w: seq<bool>, b: bool)
    ensures LeadingZeros(w + [b]) == if LeadingZeros(w) < |w| then LeadingZeros(w) else if b then |w| else |w| + 1
  {
    if w == [] {
    } else {
      assert (w + [b])[1..] == w[1..] + [b];
      if !w[0] { LeadingGrows(w[1..], b); }
    }
  }

  lemma ShiftStep(i: byte, k: nat, v: nat, rev: nat, right: nat, left: nat)
    requires Shifted(i, k, v, rev, right, left) && k < 8
    ensures var one := v % 2 == 1;
      Shifted(i, k + 1, v / 2, rev * 2 + BitVal(one),
              if one && right > k then k else right, if one then 7 - k else left)
    ensures rev * 2 + BitVal(v % 2 == 1) < 256
  {
    var w := Wire(i);
    var a, b := w[..k], w[k];
    WireBit(i, 8, k);
    assert w[..k + 1] == a + [b];
    assert (a + [b])[..k] == a;
    LeadingGrows(a, b);
    CodeBound(a + [b]);
    Pow2Monotone(k + 1, 8);
    assert Pow2(8) == 256;
  }

  lemma ShiftStart(i: byte)
    ensures Shifted(i, 0, i, 0, 8, 8)
  {
    assert Wire(i)[..0] == [];
  }

  lemma ShiftDone(i: byte, v: nat, rev: nat, right: nat, left: nat)
    requires Shifted(i, 8, v, rev, right, left)
    ensures rev == Reverse(i) && right == LeadingZeros(Wire(i)) && left == TrailingZeros(Wire(i))
  {
    assert Wire(i)[..8] == Wire(i);
  }

  /** The table entries of one byte. */
  method ShiftOut(i: byte) returns (rev: nat, right: nat, left: nat)
    ensures rev == Reverse(i) && right == LeadingZeros(Wire(i)) && left == TrailingZeros(Wire(i))
  {
    hide Shifted, Reverse, Wire, LeadingZeros, TrailingZeros, Code;
    right, left, rev := 8, 8, 0;
    var v: nat := i;
    ShiftStart(i);
    for bit := 0 to 8
      invariant Shifted(i, bit, v, rev, right, left)
    {
      ShiftStep(i, bit, v, rev, right, left);
      rev := (rev * 2) % 256;
      if v % 2 != 0 {
        if right > bit { right := bit; }
        rev := rev + 1;
        left := 7 - bit;
      }
      v := v / 2;
    }
    ShiftDone(i, v, rev, right, left);
  }

  /** The reversal, right and left tables of the decoder, entry by entry. */
  datatype Entry = Entry(reversal: nat, right: nat, left: nat)

  ghost function EntryFor(i: byte): Entry {
    Entry(Reverse(i), LeadingZeros(Wire(i)), TrailingZeros(Wire(i)))
  }

  class ByteTables {
    const entry: array<Entry>

    ghost predicate Valid()
      reads entry
    {
      entry.Length == 256 && forall i: byte :: entry[i] == EntryFor(i)
    }

    constructor ()
      ensures Valid() && fresh(entry)
    {
      hide Reverse, Wire, LeadingZeros, TrailingZeros;
      entry := new Entry[256](_ => Entry(0, 8, 8));
      new;
      for i := 0 to 256
        invariant forall j: byte :: j < i ==> entry[j] == EntryFor(j)
      {
        var rev, r, l := ShiftOut(i);
        entry[i] := Entry(rev, r, l);
      }
    }
  }

  lemma WireValue(b: byte)
    ensures FromWire(Wire(b)) == b
  {
    assert Pow2(8) == 256;
    FromToWire(b, 8);
  }

  /** Inserting a byte above the buffered bits appends its bits to them. */
  lemma FetchAccumulates(acc: nat, pending: seq<bool>, b: byte)
    requires acc == FromWire(pending)
    ensures Or(acc, Shl(b, |pending|)) == FromWire(pending + Wire(b))
  {
    hide Wire, Shl, Or, FromWire;
    OrAppends(pending, Wire(b));
    WireValue(b);
  }

  /** Masking, reversing and shifting down the low n bits gives their code. */
  lemma ReadAccumulator(acc: nat, pending: seq<bool>, n: nat)
    requires acc == FromWire(pending) && 0 < n <= 8 && n <= |pending|
    ensures And(acc, Mask(n)) < 256 && Shr(acc, n) == FromWire(pending[n..])
    ensures Shr(Reverse(And(acc, Mask(n))), 8 - n) == Code(pending[..n])
  {
    hide Wire, Shl, And, FromWire, Code, Shr, Zeros;
    var t := pending[..n];
    SplitAt(pending, n);
    LowFits(t);
    WireOfLow(t);
    CodeZeros(t, 8 - n);
    ShrShl(Code(t), 8 - n);
  }

  lemma LowFits(t: seq<bool>)
    requires |t| <= 8
    ensures FromWire(t) < 256
  {
    FromWireBound(t);
    Pow2Monotone(|t|, 8);
    assert Pow2(8) == 256;
  }

  lemma WireOfLow(t: seq<bool>)
    requires |t| <= 8 && FromWire(t) < 256
    ensures Wire(FromWire(t)) == t + Zeros(8 - |t|)
  {
    hide FromWire, Zeros;
    var k := 8 - |t|;
    assert ToWire(FromWire(t), |t| + k) == t + Zeros(k) by { ToFromWire(t, k); }
    hide ToWire;
    assert |t| + k == 8;
  }
}
