/** The variable-byte format: how one unsigned value becomes a group of
    bytes, how a buffer is the concatenation of the groups, how the decoder's
    accumulator reads a buffer back, and the delta form of sorted input. */
module Vbyte {

  import opened Common

  // ---------------------------------------------------------------- encoding

  /** The group of one value: its 7-bit digits, least significant first.
      Every digit but the last is written as is (high bit clear); the last
      is written plus 128 (high bit set), which ends the group. */
  function EncodeValue(v: nat): (r: seq<Byte>)
    ensures |r| >= 1
  {
    if v < 128 then [v + 128] else [v % 128] + EncodeValue(v / 128)
  }

  /** A group has exactly one high-bit byte, at its end. */
  lemma {:induction false} GroupFraming(v: nat)
    ensures EncodeValue(v)[|EncodeValue(v)| - 1] >= 128
    ensures forall i :: 0 <= i < |EncodeValue(v)| - 1 ==> EncodeValue(v)[i] < 128
  {
    if v >= 128 {
      GroupFraming(v / 128);
      assert EncodeValue(v) == [v % 128] + EncodeValue(v / 128);
    }
  }

  /** A buffer holds the groups of the values, one after the other. */
  function Encode(vs: seq<nat>): (bs: seq<Byte>)
    ensures |bs| >= |vs|
    ensures bs == [] <==> vs == []
  {
    if vs == [] then [] else Encode(vs[..|vs| - 1]) + EncodeValue(vs[|vs| - 1])
  }

  /** Number of bytes with the high bit set. */
  function HighBytes(bs: seq<Byte>): (n: nat)
  {
    if bs == [] then 0 else (if bs[0] >= 128 then 1 else 0) + HighBytes(bs[1..])
  }

  /** A group has at most k bytes exactly when the value has at most k
      base-128 digits. */
  lemma {:induction false} EncodeValueLength(v: nat, k: nat)
    requires k >= 1
    ensures |EncodeValue(v)| <= k <==> v < Pow128(k)
  {
    if v >= 128 && k >= 2 {
      EncodeValueLength(v / 128, k - 1);
    } else if v < 128 {
      Pow128Grows(k);
    }
  }

  lemma {:induction false} Pow128Grows(k: nat)
    requires k >= 1
    ensures Pow128(k) >= 128
  {
    if k > 1 {
      Pow128Grows(k - 1);
    }
  }

  /** The sizes the format promises: one byte below 128, two below 16384,
      and never more than ten for a 64-bit value. */
  lemma EncodedSizes(v: nat)
    ensures v < 128 ==> EncodeValue(v) == [v + 128]
    ensures 128 <= v < 16384 ==> |EncodeValue(v)| == 2
    ensures IsU64(v) ==> |EncodeValue(v)| <= 10
  {
    EncodeValueLength(v, 1);
    EncodeValueLength(v, 2);
    Pow128Ten();
    EncodeValueLength(v, 10);
  }

  /** 2^64 <= 128^10: ten groups hold any 64-bit value. */
  lemma Pow128Ten()
    ensures U64Limit <= Pow128(10)
  {
    assert Pow128(2) == 0x4000;
    assert Pow128(4) == 0x1000_0000 by { assert Pow128(4) == 128 * (128 * Pow128(2)); }
    assert Pow128(6) == 0x400_0000_0000 by { assert Pow128(6) == 128 * (128 * Pow128(4)); }
    assert Pow128(8) == 0x100_0000_0000_0000 by { assert Pow128(8) == 128 * (128 * Pow128(6)); }
    assert Pow128(10) == 128 * (128 * Pow128(8));
  }

  /** The largest 64-bit value needs all ten bytes: a buffer of eight bytes
      per value, as the program allocates, can be too small. */
  lemma LargestValueNeedsTen()
    ensures |EncodeValue(U64Limit - 1)| == 10
    ensures |Encode([U64Limit - 1])| > 8 * 1
  {
    Pow128Ten();
    assert Pow128(9) == 0x8000_0000_0000_0000 by {
      assert Pow128(9) == 128 * (128 * (128 * (128 * (128 * (128 * (128 * (128 * (128 * Pow128(0)))))))));
    }
    EncodeValueLength(U64Limit - 1, 10);
    EncodeValueLength(U64Limit - 1, 9);
    assert [U64Limit - 1][..0] == [];
  }

  /** Framing: a buffer holds exactly one high-bit byte per value, and a
      non-empty buffer ends with one. */
  lemma {:induction false} EncodeFraming(vs: seq<nat>)
    ensures HighBytes(Encode(vs)) == |vs|
    ensures vs != [] ==> Encode(vs)[|Encode(vs)| - 1] >= 128
  {
    if vs != [] {
      var init, v := vs[..|vs| - 1], vs[|vs| - 1];
      var e, g := Encode(init), EncodeValue(v);
      assert Encode(vs) == e + g;
      EncodeFraming(init);
      HighBytesAppend(e, g);
      HighBytesOfGroup(v);
      GroupFraming(v);
      assert (e + g)[|e + g| - 1] == g[|g| - 1];
    }
  }

  lemma {:induction false} HighBytesAppend(a: seq<Byte>, b: seq<Byte>)
    ensures HighBytes(a + b) == HighBytes(a) + HighBytes(b)
  {
    if a == [] {
      assert a + b == b;
    } else {
      assert (a + b)[1..] == a[1..] + b;
      HighBytesAppend(a[1..], b);
    }
  }

  lemma {:induction false} HighBytesOfGroup(v: nat)
    ensures HighBytes(EncodeValue(v)) == 1
  {
    if v >= 128 {
      HighBytesOfGroup(v / 128);
      assert EncodeValue(v)[1..] == EncodeValue(v / 128);
    }
  }

  /** With 64-bit values the buffer needs at most ten bytes per value. */
  lemma {:induction false} EncodeLengthBound(vs: seq<nat>)
    requires AllU64(vs)
    ensures |Encode(vs)| <= 10 * |vs|
  {
    if vs != [] {
      EncodeLengthBound(vs[..|vs| - 1]);
      EncodedSizes(vs[|vs| - 1]);
    }
  }

  // ---------------------------------------------------------------- decoding

  /** The decoder's state: the values emitted so far, the accumulated part
      of the current value and the number of groups read into it. */
  datatype Decoder = Decoder(decompressed: seq<nat>, num: nat, numbytes: nat)

  const Start: Decoder := Decoder([], 0, 0)

  /** One byte: a high-bit byte adds its last digit and emits the value; any
      other byte adds a digit at weight 128^numbytes. */
  function Step(d: Decoder, byte: Byte): (next: Decoder)
    ensures d.decompressed <= next.decompressed
    ensures |next.decompressed| == |d.decompressed| + (if byte > 127 then 1 else 0)
    ensures next.numbytes == (if byte > 127 then 0 else d.numbytes + 1)
  {
    if byte > 127 then
      Decoder(d.decompressed + [d.num + DigitValue(byte - 128, d.numbytes)], 0, 0)
    else
      Decoder(d.decompressed, d.num + DigitValue(byte, d.numbytes), d.numbytes + 1)
  }

  /** The decoder run over a buffer, left to right. */
  function Run(d: Decoder, bs: seq<Byte>): (final: Decoder)
    ensures d.decompressed <= final.decompressed
    decreases |bs|
  {
    if bs == [] then d else Run(Step(d, bs[0]), bs[1..])
  }

  /** A buffer that ends inside a group: `pending` digits had no terminator. */
  datatype DecodeError = Truncated(pending: nat)

  /** The values of a buffer, or the truncation error when the last group
      has no terminating byte. */
  function Decode(bs: seq<Byte>): (r: Result<seq<nat>, DecodeError>)
    ensures bs == [] ==> r == Success([])
    ensures r.Success? <==> Run(Start, bs).numbytes == 0
    ensures r.Failure? ==> r.error.pending > 0 && r.error.pending == Run(Start, bs).numbytes
  {
    var d := Run(Start, bs);
    if d.numbytes == 0 then Success(d.decompressed) else Failure(Truncated(d.numbytes))
  }

  lemma {:induction false} RunAppend(d: Decoder, a: seq<Byte>, b: seq<Byte>)
    ensures Run(d, a + b) == Run(Run(d, a), b)
    decreases |a|
  {
    if a == [] {
      assert a + b == b;
    } else {
      assert (a + b)[1..] == a[1..] + b;
      RunAppend(Step(d, a[0]), a[1..], b);
    }
  }

  /** Reading one group adds v at the current weight and emits the sum. */
  lemma {:induction false} RunGroup(d: Decoder, v: nat)
    ensures Run(d, EncodeValue(v))
         == Decoder(d.decompressed + [d.num + DigitValue(v, d.numbytes)], 0, 0)
    decreases v
  {
    if v >= 128 {
      var q, r := v / 128, v % 128;
      var d' := Step(d, r);
      assert d' == Decoder(d.decompressed, d.num + DigitValue(r, d.numbytes), d.numbytes + 1);
      assert EncodeValue(v)[1..] == EncodeValue(q);
      RunGroup(d', q);
      DigitWeights(v, d.numbytes);
    }
  }

  /** Splitting off the low digit: v at weight k is its low digit at
      weight k plus the rest at weight k + 1. */
  lemma DigitWeights(v: nat, k: nat)
    ensures DigitValue(v % 128, k) + DigitValue(v / 128, k + 1) == DigitValue(v, k)
  {
    var p := Pow128(k);
    assert Pow128(k + 1) == 128 * p;
    var q, r := v / 128, v % 128;
    calc {
      DigitValue(r, k) + DigitValue(q, k + 1);
      r * p + q * (128 * p);
      { assert q * (128 * p) == (128 * q) * p; }
      r * p + (128 * q) * p;
      (r + 128 * q) * p;
    }
  }

  lemma {:induction false} RunEncode(vs: seq<nat>)
    ensures Run(Start, Encode(vs)) == Decoder(vs, 0, 0)
  {
    if vs != [] {
      var init, v := vs[..|vs| - 1], vs[|vs| - 1];
      assert Encode(vs) == Encode(init) + EncodeValue(v);
      RunEncode(init);
      RunAppend(Start, Encode(init), EncodeValue(v));
      RunGroup(Decoder(init, 0, 0), v);
      assert init + [v] == vs;
    }
  }

  /** Round trip: decoding an encoded buffer gives back the values in order. */
  lemma RoundTrip(vs: seq<nat>)
    ensures Decode(Encode(vs)) == Success(vs)
  {
    RunEncode(vs);
  }

  /** The decoder emits exactly one value per high-bit byte. */
  lemma {:induction false} RunCountsHighBytes(d: Decoder, bs: seq<Byte>)
    ensures |Run(d, bs).decompressed| == |d.decompressed| + HighBytes(bs)
    decreases |bs|
  {
    if bs != [] {
      RunCountsHighBytes(Step(d, bs[0]), bs[1..]);
    }
  }

  /** An empty buffer is not an error; a buffer fails to decode exactly when
      its last byte leaves a group open; a decoded buffer has one value per
      high-bit byte. */
  lemma DecodeOutcome(bs: seq<Byte>)
    ensures bs == [] ==> Decode(bs) == Success([])
    ensures Decode(bs).Failure? <==> bs != [] && bs[|bs| - 1] < 128
    ensures Decode(bs).Success? ==> |Decode(bs).value| == HighBytes(bs)
  {
    RunCountsHighBytes(Start, bs);
    if bs != [] {
      var init, last := bs[..|bs| - 1], bs[|bs| - 1];
      assert init + [last] == bs;
      RunAppend(Start, init, [last]);
    }
  }

  /** The decoder as the program writes it: whatever is emitted, with an
      open group at the end dropped without notice. */
  function DecodeAsWritten(bs: seq<Byte>): (vs: seq<nat>)
    ensures |vs| == HighBytes(bs)
    ensures Decode(bs).Success? ==> Decode(bs).value == vs
  {
    RunCountsHighBytes(Start, bs);
    Run(Start, bs).decompressed
  }

  /** A trailing group without terminator vanishes in the program's
      decoder: the buffer reads as if the tail were absent, while Decode
      reports it. */
  lemma SilentDropAsWritten(vs: seq<nat>, tail: seq<Byte>)
    requires tail != []
    requires forall i :: 0 <= i < |tail| ==> tail[i] < 128
    ensures DecodeAsWritten(Encode(vs) + tail) == vs
    ensures Decode(Encode(vs) + tail) == Failure(Truncated(|tail|))
  {
    RunEncode(vs);
    RunAppend(Start, Encode(vs), tail);
    RunOpenGroup(Decoder(vs, 0, 0), tail);
  }

  lemma {:induction false} RunOpenGroup(d: Decoder, tail: seq<Byte>)
    requires forall i :: 0 <= i < |tail| ==> tail[i] < 128
    ensures Run(d, tail).decompressed == d.decompressed
    ensures Run(d, tail).numbytes == d.numbytes + |tail|
    decreases |tail|
  {
    if tail != [] {
      RunOpenGroup(Step(d, tail[0]), tail[1..]);
    }
  }

  // ------------------------------------------------------------ delta form

  /** Gaps of a sorted sequence: the first value itself, then each value
      minus the one before it (the sortedness is what keeps every gap a
      natural number). */
  function Deltas(s: seq<nat>): (d: seq<nat>)
    requires Sorted(s)
    ensures |d| == |s|
  {
    seq(|s|, i requires 0 <= i < |s| => s[i] - Before(s, i))
  }

  /** The first gap is the smallest value and no gap exceeds its value, so
      the gaps of 64-bit values are 64-bit values. */
  lemma DeltasBounds(s: seq<nat>)
    requires Sorted(s)
    ensures |s| > 0 ==> Deltas(s)[0] == s[0]
    ensures forall i :: 0 <= i < |s| ==> Deltas(s)[0] <= s[i] && Deltas(s)[i] <= s[i]
    ensures AllU64(s) ==> AllU64(Deltas(s))
  {
  }

  /** Running sums: the inverse of Deltas. */
  function PrefixSums(d: seq<nat>): (s: seq<nat>)
    ensures |s| == |d|
  {
    if d == [] then []
    else
      var p := PrefixSums(d[..|d| - 1]);
      p + [Before(p, |p|) + d[|d| - 1]]
  }

  /** The element before position i, or 0 before the first. */
  function Before(s: seq<nat>, i: nat): (p: nat)
    requires i <= |s|
  {
    if i == 0 then 0 else s[i - 1]
  }

  /** Each running sum is the one before plus its summand. */
  lemma {:induction false} PrefixSumsStep(d: seq<nat>)
    ensures forall i :: 0 <= i < |d| ==> PrefixSums(d)[i] == Before(PrefixSums(d), i) + d[i]
  {
    if d != [] {
      var n, init := |d|, d[..|d| - 1];
      PrefixSumsStep(init);
      var p, s := PrefixSums(init), PrefixSums(d);
      assert s == p + [Before(p, n - 1) + d[n - 1]];
      forall i | 0 <= i < n
        ensures s[i] == Before(s, i) + d[i]
      {
        if i < n - 1 {
          assert s[i] == p[i] && d[i] == init[i] && Before(s, i) == Before(p, i);
        } else {
          assert Before(s, i) == Before(p, i);
        }
      }
    }
  }

  /** Running sums are ascending. */
  lemma {:induction false} PrefixSumsSorted(d: seq<nat>)
    ensures Sorted(PrefixSums(d))
  {
    if d != [] {
      var n, init := |d|, d[..|d| - 1];
      PrefixSumsSorted(init);
      var p, s := PrefixSums(init), PrefixSums(d);
      assert s == p + [Before(p, n - 1) + d[n - 1]];
      forall i, j | 0 <= i < j < n
        ensures s[i] <= s[j]
      {
        assert s[i] == p[i];
        if j < n - 1 {
          assert s[j] == p[j];
        } else {
          assert p[i] <= p[n - 2];
        }
      }
    }
  }

  /** Summing the gaps of a sorted sequence rebuilds it. */
  lemma PrefixSumsOfDeltas(s: seq<nat>)
    requires Sorted(s)
    ensures PrefixSums(Deltas(s)) == s
  {
    var d := Deltas(s);
    var p := PrefixSums(d);
    PrefixSumsStep(d);
    var i := 0;
    while i < |s|
      invariant i <= |s|
      invariant forall j :: 0 <= j < i ==> p[j] == s[j]
    {
      assert Before(p, i) == Before(s, i);
      assert d[i] == s[i] - Before(s, i);
      assert p[i] == Before(p, i) + d[i];
      i := i + 1;
    }
    assert |p| == |s|;
  }

  /** The gaps of running sums are the summands: Deltas and PrefixSums are
      inverse bijections between sequences and sorted sequences. */
  lemma {:induction false} DeltasOfPrefixSums(d: seq<nat>)
    ensures Sorted(PrefixSums(d))
    ensures Deltas(PrefixSums(d)) == d
  {
    PrefixSumsStep(d);
    PrefixSumsSorted(d);
    var s := PrefixSums(d);
    forall i | 0 <= i < |d|
      ensures Deltas(s)[i] == d[i]
    {
    }
  }

  /** Decoding in delta mode: the running sums of the decoded gaps. */
  function DecodeDelta(bs: seq<Byte>): (r: Result<seq<nat>, DecodeError>)
  {
    match Decode(bs)
    case Success(d) => Success(PrefixSums(d))
    case Failure(e) => Failure(e)
  }

  /** Delta round trip: the gaps of a sorted sequence, encoded and decoded
      in delta mode, give back the sorted sequence. */
  lemma DeltaRoundTrip(s: seq<nat>)
    requires Sorted(s)
    ensures DecodeDelta(Encode(Deltas(s))) == Success(s)
  {
    RoundTrip(Deltas(s));
    PrefixSumsOfDeltas(s);
  }
}
