/** The program's compression and decompression routines, with the file
    reading and writing replaced by in-memory buffers: `memblock` is the
    buffer read from the input file, `compressed` (its first `bytes` bytes)
    is what would be written out. */
module Compression {

  import opened Common
  import opened Bits
  import opened Vbyte
  import opened Sorting

  /** The arithmetic encoder (`num % 128`, `num /= 128`). The output buffer
      holds ten bytes per value, enough for any 64-bit value. */
  method Compress(memblock: array<nat>) returns (compressed: array<Byte>, bytes: nat)
    requires AllU64(memblock[..])
    ensures compressed.Length == 10 * memblock.Length
    ensures bytes <= compressed.Length
    ensures compressed[..bytes] == Encode(memblock[..])
  {
    compressed := new Byte[10 * memblock.Length];
    bytes := 0;
    for i := 0 to memblock.Length
      invariant bytes <= 10 * i
      invariant compressed[..bytes] == Encode(memblock[..i])
    {
      EncodedSizes(memblock[i]);
      assert memblock[..i + 1] == memblock[..i] + [memblock[i]];
      bytes := EmitGroup(compressed, bytes, memblock[i]);
    }
    assert memblock[..] == memblock[..memblock.Length];
  }

  /** One pass of the arithmetic encoder's inner loop: the group of `num`
      is written at index `bytes`, and the index moves past it. */
  method EmitGroup(compressed: array<Byte>, bytes: nat, v: nat) returns (next: nat)
    requires bytes + |EncodeValue(v)| <= compressed.Length
    modifies compressed
    ensures next == bytes + |EncodeValue(v)|
    ensures compressed[..next] == old(compressed[..bytes]) + EncodeValue(v)
  {
    ghost var target := compressed[..bytes] + EncodeValue(v);
    var num := v;
    next := bytes;
    while true
      invariant next <= compressed.Length
      invariant compressed[..next] + EncodeValue(num) == target
      decreases num
    {
      ghost var before, group := compressed[..next], EncodeValue(num);
      var byte := num % 128;
      if num < 128 {
        assert group == [byte + 128];
        compressed[next] := byte + 128;
        next := next + 1;
        assert compressed[..next] == before + group;
        break;
      }
      assert group == [byte] + EncodeValue(num / 128);
      compressed[next] := byte;
      next := next + 1;
      assert compressed[..next] == before + [byte];
      num := num / 128;
    }
  }

  /** The masking encoder (`num & 0x7F`, `num >> 7`): it writes exactly the
      bytes the arithmetic encoder writes. */
  method Compress2(memblock: array<nat>) returns (compressed: array<Byte>, bytes: nat)
    requires AllU64(memblock[..])
    ensures compressed.Length == 10 * memblock.Length
    ensures bytes <= compressed.Length
    ensures compressed[..bytes] == Encode(memblock[..])
  {
    compressed := new Byte[10 * memblock.Length];
    bytes := 0;
    for i := 0 to memblock.Length
      invariant bytes <= 10 * i
      invariant compressed[..bytes] == Encode(memblock[..i])
    {
      EncodedSizes(memblock[i]);
      assert memblock[..i + 1] == memblock[..i] + [memblock[i]];
      bytes := EmitGroupMasked(compressed, bytes, memblock[i]);
    }
    assert memblock[..] == memblock[..memblock.Length];
  }

  /** One pass of the masking encoder's inner loop. */
  method EmitGroupMasked(compressed: array<Byte>, bytes: nat, v: nat) returns (next: nat)
    requires bytes + |EncodeValue(v)| <= compressed.Length
    modifies compressed
    ensures next == bytes + |EncodeValue(v)|
    ensures compressed[..next] == old(compressed[..bytes]) + EncodeValue(v)
  {
    ghost var target := compressed[..bytes] + EncodeValue(v);
    var num := v;
    next := bytes;
    while true
      invariant next <= compressed.Length
      invariant compressed[..next] + EncodeValue(num) == target
      decreases num
    {
      ghost var before, group := compressed[..next], EncodeValue(num);
      MaskAndShift7(num);
      var byte := And(num, 0x7F);
      if num < 128 {
        assert group == [byte + 128];
        compressed[next] := byte + 128;
        next := next + 1;
        assert compressed[..next] == before + group;
        break;
      }
      assert group == [byte] + EncodeValue(ShiftRight(num, 7));
      compressed[next] := byte;
      next := next + 1;
      assert compressed[..next] == before + [byte];
      num := ShiftRight(num, 7);
    }
  }

  /** The gap loop of the sorted compressor: `diff[i] = num - prev`. */
  method ComputeDeltas(memblock: array<nat>) returns (diff: array<nat>)
    requires Sorted(memblock[..])
    ensures diff[..] == Deltas(memblock[..])
  {
    ghost var gaps := Deltas(memblock[..]);
    diff := new nat[memblock.Length];
    var prev := 0;
    for i := 0 to memblock.Length
      invariant prev == Before(memblock[..], i)
      invariant forall k :: 0 <= k < i ==> diff[k] == gaps[k]
    {
      var num := memblock[i];
      assert gaps[i] == num - prev;
      diff[i] := num - prev;
      prev := num;
    }
    assert diff[..] == gaps;
  }

  /** The sorted compressor: sort the values in place, take the gaps and
      encode them with the masking encoder. */
  method SortCompress(memblock: array<nat>) returns (compressed: array<Byte>, bytes: nat)
    requires AllU64(memblock[..])
    modifies memblock
    ensures Sorted(memblock[..]) && multiset(memblock[..]) == old(multiset(memblock[..]))
    ensures bytes <= compressed.Length == 10 * memblock.Length
    ensures compressed[..bytes] == Encode(Deltas(memblock[..]))
  {
    Sort(memblock);
    PermutationKeepsU64(old(memblock[..]), memblock[..]);
    var diff := ComputeDeltas(memblock);
    DeltasBounds(memblock[..]);
    compressed, bytes := Compress2(diff);
  }

  /** The decoder loop: accumulate 7-bit digits least significant first,
      emit on each high-bit byte. A buffer that ends inside a group is
      reported as truncated. */
  method Decompress(memblock: array<Byte>) returns (r: Result<seq<nat>, DecodeError>)
    ensures r == Decode(memblock[..])
  {
    var decompressed: seq<nat> := [];
    var num: nat := 0;
    var numbytes: nat := 0;
    for i := 0 to memblock.Length
      invariant Run(Decoder(decompressed, num, numbytes), memblock[i..]) == Run(Start, memblock[..])
    {
      var byte := memblock[i];
      assert memblock[i..][1..] == memblock[i + 1..];
      if byte > 127 {
        num := num + DigitValue(byte - 128, numbytes);
        decompressed := decompressed + [num];
        num := 0;
        numbytes := 0;
      } else {
        num := num + DigitValue(byte, numbytes);
        numbytes := numbytes + 1;
      }
    }
    if numbytes == 0 {
      r := Success(decompressed);
    } else {
      r := Failure(Truncated(numbytes));
    }
  }
}
