# Variable-byte posting-list codec and proximity intersection, in Dafny

This project models the two algorithms of a small information-retrieval
experiment and proves their properties:

- **The vbyte codec** (`ex1.cpp`, with the decoder repeated in `ex2.cpp`).
  An unsigned 64-bit value is written as its 7-bit digits, least significant
  first. Every digit but the last is a byte below 128. The last digit is
  written plus 128, and that high bit ends the value's group. The sorted
  mode sorts the values, replaces each by its gap to the previous one
  (the first by itself), and encodes the gaps. The decoder accumulates
  digits at weight 128^k and emits a value on each byte above 127.
- **The proximity intersection** (`ex2.cpp`). Both decoded lists are sorted.
  A two-cursor scan then records every value `b` of the second list that lies
  in the inclusive window `[a - lower, a + upper]` of some value `a` of the
  first list. It reports how many it recorded.

Modules, one per concern:

- `common.dfy` (`Common`): bytes, the 64-bit bound, powers of 128, sortedness, `Result`.
- `bits.dfy` (`Bits`): bitwise AND and right shift on naturals, defined bit by bit.
- `vbyte.dfy` (`Vbyte`): the format as functions, with lemmas about it:
  - `EncodeValue` and `Encode` for writing;
  - the decoder's accumulator (`Decoder`, `Step`, `Run`) and `Decode` for reading;
  - `Deltas` and `PrefixSums` for the sorted mode.
- `sorting.dfy` (`Sorting`): the in-place sort that stands for `std::sort`.
- `compression.dfy` (`Compression`): the program's loops as methods over
  arrays, each proved equal to the functions above:
  - `compress`, `compress2` and `sortCompress`;
  - the gap loop;
  - `decompress`.
- `proximity.dfy` (`Proximity`): the window predicate, the specification
  `Matches`, the scan `Intersect`, and `ProximityIntersection`. The last
  decodes both buffers, sorts them in place and scans.

Reading files becomes a parameter: `memblock` is the buffer the program
reads, and `compressed[..bytes]` is what it writes out. The raw input values
are naturals. Where the 64-bit width matters (the output buffer size), they
are required to lie below 2^64.

The decoder in `ex2.cpp` (lines 29-46) is the same loop as the one in
`ex1.cpp`. `Compression.Decompress` models both, and
`Proximity.ProximityIntersection` calls it the way `proximityIntersection`
calls `decompress`.

The program has no delta-mode decoder. `Vbyte.DecodeDelta` (decode, then
take running sums) is the inverse that the sorted mode is proved against.

For A = [10, 50, 100], B = [8, 12, 60, 95, 200], lower = 2 and upper = 5,
the scan records two values, 8 and 12. 60 lies between the windows of 50
and 100, and 95 lies below the window [98, 105] of 100.
`Proximity.WorkedExample` proves this.

## Model

| member | source | states |
|---|---|---|
| `Bits.AndLowMask` | ex1.cpp:80 | Masking with k one-bits keeps the remainder modulo 2^k. |
| `Bits.ShiftRightIsDiv` | ex1.cpp:90 | Shifting right by k bits divides by 2^k. |
| `Bits.MaskAndShift7` | ex1.cpp:80-90 | `num & 0x7F` equals `num % 128` and `num >> 7` equals `num / 128` for every natural, so the masking and the arithmetic encoder take the same steps. |
| `Vbyte.EncodeValue` | ex1.cpp:79-91 | Every value writes a non-empty group: even 0 writes its terminating byte. |
| `Vbyte.GroupFraming` | ex1.cpp:79-91 | In a value's group the last byte is at least 128 and every earlier byte is below 128, so each group has exactly one high-bit byte, at its end. |
| `Vbyte.Encode` | ex1.cpp:76-92 | The buffer is the values' groups in input order, as the outer loop writes them. Its contract: at least one byte per value, and the buffer is empty exactly when there are no values. |
| `Vbyte.EncodeValueLength` | ex1.cpp:80-90 | A group has at most k bytes exactly when the value is below 128^k: its length is the number of base-128 digits. |
| `Vbyte.EncodedSizes` | ex1.cpp:82-90 | A value below 128 encodes to the single byte v + 128. A value from 128 to 16383 takes two bytes. A 64-bit value takes at most ten. |
| `Vbyte.LargestValueNeedsTen` | ex1.cpp:73 | 2^64 - 1 needs ten bytes, more than the eight per value the program allocates. |
| `Vbyte.EncodeFraming` | ex1.cpp:76-92 | An encoded buffer has exactly one high-bit byte per value. A non-empty buffer ends with one. |
| `Vbyte.EncodeLengthBound` | ex1.cpp:74-91 | The byte count of a buffer of n 64-bit values is at most 10 n. |
| `Vbyte.Step` | ex1.cpp:179-189 | One byte of the decoder loop (the same body as ex2.cpp:34-45). Values already emitted are kept. A byte above 127 emits exactly one value and resets `numbytes` to 0. Any other byte emits nothing and adds one to `numbytes`. |
| `Vbyte.Run` | ex1.cpp:178-190 | The decoder loop over a buffer, left to right, from any state. It only appends: values already emitted are never taken back. |
| `Vbyte.Decode` | ex1.cpp:176-190 | The decoder's outcome with the truncation reported. An empty buffer gives no values. Decoding succeeds exactly when no digits are pending after the last byte. Otherwise it returns `Failure(Truncated(n))`, where n > 0 is the number of pending digits. |
| `Vbyte.DecodeAsWritten` | ex1.cpp:178-190 | What the program keeps: the emitted values, with pending digits dropped. It has one value per high-bit byte and agrees with `Decode` whenever `Decode` succeeds. |
| `Vbyte.RunGroup` | ex1.cpp:181-188 | Reading one group adds its value at the current weight 128^numbytes, emits the sum and resets both accumulators. |
| `Vbyte.RoundTrip` | ex1.cpp:176-190 | Decoding the encoder's output gives back the original values, in order. |
| `Vbyte.RunCountsHighBytes` | ex1.cpp:181-185 | The decoder emits exactly one value per byte above 127. |
| `Vbyte.DecodeOutcome` | ex1.cpp:176-190 | An empty buffer decodes to no values. Decoding fails exactly when the buffer ends with a byte below 128. A decoded buffer yields one value per high-bit byte. |
| `Vbyte.SilentDropAsWritten` | ex1.cpp:178-190 | The decoder as written returns the values of `Encode(vs) + tail` as just `vs` when the tail has no terminator. `Decode` reports `Truncated` with the tail's length. |
| `Vbyte.Deltas` | ex1.cpp:123-127 | There is one gap per sorted value, and no gap underflows. |
| `Vbyte.DeltasBounds` | ex1.cpp:121-126 | The first gap equals the first, smallest value and is no larger than any value. No gap exceeds its value. The gaps of 64-bit values are 64-bit values. |
| `Vbyte.PrefixSumsOfDeltas` | ex1.cpp:121-127 | The running sum of the gaps rebuilds the sorted sequence exactly. |
| `Vbyte.DeltasOfPrefixSums` | ex1.cpp:121-127 | Running sums are sorted and their gaps are the summands. Gaps and running sums are inverse to each other. |
| `Vbyte.DeltaRoundTrip` | ex1.cpp:119-148 | Encoding the gaps of a sorted sequence and decoding in delta mode gives the sorted sequence back. |
| `Sorting.Sort` | ex1.cpp:119 | The array ends up ascending and a permutation of what it held. |
| `Compression.Compress` | ex1.cpp:27-46 | The arithmetic encoder writes exactly `Encode` of the input into a buffer of ten bytes per value. Its byte counter ends at the total group length and stays within the buffer. |
| `Compression.EmitGroup` | ex1.cpp:33-45 | One pass of the `% 128` / `/= 128` loop appends exactly the value's group at `bytes` and advances the counter by its length. |
| `Compression.Compress2` | ex1.cpp:73-92 | The masking encoder writes exactly `Encode` of the input, so its bytes are identical to those of `Compress` for every input. |
| `Compression.EmitGroupMasked` | ex1.cpp:79-91 | One pass of the `& 0x7F` / `>> 7` loop appends exactly the value's group. |
| `Compression.ComputeDeltas` | ex1.cpp:120-127 | The `diff`/`prev` loop fills `diff` with the gaps of the sorted buffer. |
| `Compression.SortCompress` | ex1.cpp:119-148 | The buffer ends sorted and permuted. The output is the encoding of its gaps and fits in ten bytes per value. |
| `Compression.Decompress` | ex1.cpp:174-190 | The `num`/`numbytes` loop returns `Decode` of the buffer: the values, or `Truncated` when a group is left open. |
| `Proximity.InWindow` | ex2.cpp:68 | The corrected window test. b is in the window exactly when b <= a + upper and a <= b + lower, with no subtraction. When a <= lower the lower end is 0, so only b <= a + upper is tested. |
| `Proximity.InWindowAsWritten` | ex2.cpp:68 | The program's test in unsigned 64-bit arithmetic. When a < lower, `a - lower` wraps to 2^64 - (lower - a), so only b at or above that value pass. |
| `Proximity.Matches` | ex2.cpp:64-78 | What the scan must record: the values of B, in B's order and with B's repetitions, that lie in the window of some a. Its contract: no more values than B has. |
| `Proximity.WrappedLowerEndRejects` | ex2.cpp:68 | With `a - lower` wrapping modulo 2^64, a = 1, lower = 2 rejects b = 0, which lies in the window [0, 1]. |
| `Proximity.NoWrapAgrees` | ex2.cpp:68 | When `a - lower` and `a + upper` do not wrap, the program's test and the window test agree. |
| `Proximity.MatchesCount` | ex2.cpp:64-78 | Each occurrence in B is recorded exactly when some a has it in its window, and at most once: a value's multiplicity in the result is its multiplicity in B if matched, else 0. |
| `Proximity.MatchesMembers` | ex2.cpp:68-70 | A value is recorded if and only if it is in B and lies in the inclusive window of some a in A. |
| `Proximity.MatchesDrawnFromB` | ex2.cpp:69-70 | The recorded values form a sub-multiset of B: each value is recorded at most as often as it occurs in B, so there are no more than \|B\|. |
| `Proximity.MatchesSorted` | ex2.cpp:57-70 | For sorted B the recorded sequence is sorted. |
| `Proximity.MatchesEmpty` | ex2.cpp:64-80 | If either list is empty, nothing is recorded. |
| `Proximity.MatchesPermutation` | ex2.cpp:57-58 | Reordering either list leaves the recorded multiset, and so the count, unchanged. Sorting first does not change the answer. |
| `Proximity.BelowWindow` | ex2.cpp:75-76 | Advancing iB past a b below `a - lower` loses no match: later values of A only raise the window. |
| `Proximity.PastLastWindow` | ex2.cpp:64 | When A is exhausted, every remaining b lies above all windows. Stopping then loses no match. |
| `Proximity.Intersect` | ex2.cpp:60-78 | For sorted lists the scan records exactly `Matches(A, B)`, in B's order. The loop ends within \|A\| + \|B\| iterations. That bound comes from the loop's measure \|A\| - iA + \|B\| - iB and its invariant `steps == iA + iB`. The ensures clause on the ghost counter `steps` does not tie it to the number of iterations. |
| `Proximity.WorkedExample` | ex2.cpp:64-78 | A = [10, 50, 100], B = [8, 12, 60, 95, 200], lower 2, upper 5 records [8, 12]. |
| `Proximity.ProximityIntersection` | ex2.cpp:52-81 | The intersection fails exactly when one of the buffers fails to decode. Otherwise it returns the number of values of B matched by A. |

## Left out

- File and console input/output are not modelled: opening, `tellg`/`seekg`/`read`/`write`, the `.vb`, `.sorted.vb` and `.dec` names, the `"F" + N + ".vb"` naming, the pairs file, `argv`/`atoi`, timing and the printed reports. The buffers are parameters.
- `decompress2` (ex1.cpp:200-236) is not modelled. It accumulates the most significant group first, so it is not the inverse of this encoder. It also casts a value to a pointer, and `main` refers to an undeclared `sctime`.
- Compression.Decompress: each digit's weight is computed exactly. The program's `byte << (numbytes * 7)` is evaluated in `int` and overflows past 31 bits. A malformed over-long group decodes to a natural at or above 2^64, not a value reduced modulo 2^64.
- Proximity.ProximityIntersection: `lower` and `upper` are naturals, not signed `int`. The wrap-around of `a + upper` near 2^64 is not modelled. An unopenable file, which the program reads as an empty list, is not modelled either.
- Sorting.Sort: `std::sort` (introsort) is replaced by an insertion sort with the same contract (ascending, a permutation). The choice of algorithm is not modelled.
- The values read from the raw file are given as naturals below 2^64. Reading 8-byte records in native byte order is not modelled.
- Loop counters (`i`, `bytes`, `iA`, `iB`) are unbounded. The program's `int` counters would overflow only on inputs beyond 2^31 bytes.

## Findings

| source | as written | input that shows it | evidently intended | confidence | as-written member | corrected member |
|---|---|---|---|---|---|---|
| ex1.cpp:73 | The output buffer is `new char[size]`, eight bytes per 64-bit value (also ex1.cpp:27 and ex1.cpp:129). | A file holding the single value 2^64 - 1 writes ten bytes into an eight-byte buffer. | Room for ten bytes per value. | High; not executed. | `Vbyte.LargestValueNeedsTen` | `Compression.Compress2` |
| ex1.cpp:178-190 | A trailing group with no high-bit terminator is dropped without notice. | `Encode(vs) + [5]` decodes to `vs`, the same as `Encode(vs)`. | Report a truncated buffer. | High; not executed. | `Vbyte.SilentDropAsWritten` | `Compression.Decompress` |
| ex2.cpp:68 | `a - lower` is computed in unsigned 64-bit arithmetic and wraps when a < lower. | A = [1], B = [0], lower = 2, upper = 0: 0 lies in [0, 1] but is not counted. | The lower end saturates at 0. | High; not executed. | `Proximity.WrappedLowerEndRejects` | `Proximity.Intersect` |
