/** The proximity intersection: which values of one posting list lie
    within a window around some value of another. */
module Proximity {

  import opened Common
  import opened Vbyte
  import opened Sorting
  import opened Compression

  /** b lies in the inclusive window [a - lower, a + upper]; the lower end
      is taken in the integers, so it saturates at 0 for naturals. */
  predicate InWindow(a: nat, b: nat, lower: nat, upper: nat)
    ensures InWindow(a, b, lower, upper) <==> a <= b + lower && b <= a + upper
    ensures a <= lower ==> (InWindow(a, b, lower, upper) <==> b <= a + upper)
  {
    a - lower <= b <= a + upper
  }

  /** The window test as the program computes it in unsigned 64-bit
      arithmetic, where `a - lower` and `a + upper` wrap around modulo 2^64. */
  predicate InWindowAsWritten(a: nat, b: nat, lower: nat, upper: nat)
    ensures a < lower <= a + U64Limit && InWindowAsWritten(a, b, lower, upper)
         ==> b >= U64Limit - (lower - a)
  {
    b <= (a + upper) % U64Limit && b >= (a - lower) % U64Limit
  }

  /** Near 0 the wrapped lower end rejects a value that is in the window:
      a = 1, lower = 2 puts 0 in [0, 1], but `a - lower` wraps to 2^64 - 1. */
  lemma WrappedLowerEndRejects()
    ensures InWindow(1, 0, 2, 0)
    ensures !InWindowAsWritten(1, 0, 2, 0)
  {
  }

  /** Away from the wrap-around both tests agree. */
  lemma NoWrapAgrees(a: nat, b: nat, lower: nat, upper: nat)
    requires lower <= a && a + upper < U64Limit
    ensures InWindowAsWritten(a, b, lower, upper) <==> InWindow(a, b, lower, upper)
  {
  }

  /** Some value of A has b in its window. */
  predicate Matched(A: seq<nat>, b: nat, lower: nat, upper: nat)
  {
    exists k :: 0 <= k < |A| && InWindow(A[k], b, lower, upper)
  }

  /** The values of B, in B's order and with B's repetitions, that lie in
      the window of some value of A. */
  function Matches(A: seq<nat>, B: seq<nat>, lower: nat, upper: nat): (m: seq<nat>)
    ensures |m| <= |B|
  {
    if B == [] then []
    else
      Matches(A, B[..|B| - 1], lower, upper)
        + (if Matched(A, B[|B| - 1], lower, upper) then [B[|B| - 1]] else [])
  }

  lemma {:induction false} MatchesAppend(A: seq<nat>, X: seq<nat>, Y: seq<nat>, lower: nat, upper: nat)
    ensures Matches(A, X + Y, lower, upper) == Matches(A, X, lower, upper) + Matches(A, Y, lower, upper)
    decreases |Y|
  {
    if Y == [] {
      assert X + Y == X;
    } else {
      var init := Y[..|Y| - 1];
      assert (X + Y)[..|X + Y| - 1] == X + init;
      MatchesAppend(A, X, init, lower, upper);
    }
  }

  /** Each occurrence in B is kept exactly when it is matched: the
      multiplicity of x in the result is its multiplicity in B if x is
      matched, and 0 otherwise. */
  lemma {:induction false} MatchesCount(A: seq<nat>, B: seq<nat>, lower: nat, upper: nat, x: nat)
    ensures multiset(Matches(A, B, lower, upper))[x]
         == if Matched(A, x, lower, upper) then multiset(B)[x] else 0
  {
    if B != [] {
      var init := B[..|B| - 1];
      MatchesCount(A, init, lower, upper, x);
      assert B == init + [B[|B| - 1]];
    }
  }

  /** A value is in the result exactly when it is in B and matched. */
  lemma {:induction false} MatchesMembers(A: seq<nat>, B: seq<nat>, lower: nat, upper: nat, x: nat)
    ensures x in Matches(A, B, lower, upper) <==> x in B && Matched(A, x, lower, upper)
  {
    MatchesCount(A, B, lower, upper, x);
    assert x in Matches(A, B, lower, upper) <==> multiset(Matches(A, B, lower, upper))[x] > 0;
    assert x in B <==> multiset(B)[x] > 0;
  }

  /** The result is drawn from B: a sub-multiset of B, so at most as long. */
  lemma {:induction false} MatchesDrawnFromB(A: seq<nat>, B: seq<nat>, lower: nat, upper: nat)
    ensures multiset(Matches(A, B, lower, upper)) <= multiset(B)
    ensures |Matches(A, B, lower, upper)| <= |B|
    ensures forall x :: x in Matches(A, B, lower, upper) ==> x in B
  {
    if B != [] {
      var init, last := B[..|B| - 1], B[|B| - 1];
      assert B == init + [last];
      MatchesDrawnFromB(A, init, lower, upper);
    }
  }

  /** The result of a sorted B is sorted. */
  lemma {:induction false} MatchesSorted(A: seq<nat>, B: seq<nat>, lower: nat, upper: nat)
    requires Sorted(B)
    ensures Sorted(Matches(A, B, lower, upper))
  {
    if B != [] {
      var init, last := B[..|B| - 1], B[|B| - 1];
      assert B == init + [last];
      MatchesSorted(A, init, lower, upper);
      MatchesDrawnFromB(A, init, lower, upper);
      var m := Matches(A, init, lower, upper);
      var tail := if Matched(A, last, lower, upper) then [last] else [];
      var r := m + tail;
      forall i, j | 0 <= i < j < |r|
        ensures r[i] <= r[j]
      {
        assert r[i] == m[i] && r[i] in init;
        if j < |m| {
          assert r[j] == m[j];
        }
      }
    }
  }

  /** With either list empty there is nothing to report. */
  lemma {:induction false} MatchesEmpty(A: seq<nat>, B: seq<nat>, lower: nat, upper: nat)
    requires A == [] || B == []
    ensures Matches(A, B, lower, upper) == []
  {
    if B != [] {
      MatchesEmpty(A, B[..|B| - 1], lower, upper);
    }
  }

  /** The count does not depend on the order of either list. */
  lemma MatchesPermutation(A: seq<nat>, A': seq<nat>, B: seq<nat>, B': seq<nat>, lower: nat, upper: nat)
    requires multiset(A) == multiset(A') && multiset(B) == multiset(B')
    ensures multiset(Matches(A, B, lower, upper)) == multiset(Matches(A', B', lower, upper))
    ensures |Matches(A, B, lower, upper)| == |Matches(A', B', lower, upper)|
  {
    forall x
      ensures multiset(Matches(A, B, lower, upper))[x] == multiset(Matches(A', B', lower, upper))[x]
    {
      MatchesCount(A, B, lower, upper, x);
      MatchesCount(A', B', lower, upper, x);
      SameMatched(A, A', lower, upper, x);
    }
    assert multiset(Matches(A, B, lower, upper)) == multiset(Matches(A', B', lower, upper));
    assert |multiset(Matches(A, B, lower, upper))| == |multiset(Matches(A', B', lower, upper))|;
  }

  lemma SameMatched(A: seq<nat>, A': seq<nat>, lower: nat, upper: nat, b: nat)
    requires multiset(A) == multiset(A')
    ensures Matched(A, b, lower, upper) <==> Matched(A', b, lower, upper)
  {
    if Matched(A, b, lower, upper) {
      var k :| 0 <= k < |A| && InWindow(A[k], b, lower, upper);
      assert A[k] in multiset(A');
      var k' :| 0 <= k' < |A'| && A'[k'] == A[k];
    }
    if Matched(A', b, lower, upper) {
      var k :| 0 <= k < |A'| && InWindow(A'[k], b, lower, upper);
      assert A'[k] in multiset(A);
      var k' :| 0 <= k' < |A| && A[k'] == A'[k];
    }
  }

  /** The two-cursor scan over sorted lists. Each step either records the
      current b and moves past it, moves past an a that every remaining b
      has left behind, or moves past a b below the current window. */
  method Intersect(lower: nat, upper: nat, numA: seq<nat>, numB: seq<nat>)
    returns (intersection: seq<nat>, ghost steps: nat)
    requires Sorted(numA) && Sorted(numB)
    ensures intersection == Matches(numA, numB, lower, upper)
    ensures steps <= |numA| + |numB|
  {
    intersection := [];
    steps := 0;
    var iA, iB := 0, 0;
    while iA < |numA| && iB < |numB|
      invariant iA <= |numA| && iB <= |numB|
      invariant steps == iA + iB
      invariant intersection == Matches(numA, numB[..iB], lower, upper)
      invariant 0 < iA && iB < |numB| ==> numA[iA - 1] + upper < numB[iB]
      decreases |numA| - iA + |numB| - iB
    {
      var a, b := numA[iA], numB[iB];
      assert numB[..iB + 1][..iB] == numB[..iB];
      if b <= a + upper && a - lower <= b {
        assert Matched(numA, b, lower, upper);
        intersection := intersection + [b];
        iB := iB + 1;
      } else if b > a + upper {
        iA := iA + 1;
      } else {
        BelowWindow(numA, iA, b, lower, upper);
        iB := iB + 1;
      }
      steps := steps + 1;
    }
    if iB < |numB| {
      PastLastWindow(numA, numB, iB, lower, upper);
    } else {
      assert numB[..iB] == numB;
    }
  }

  /** A b below the window of A[iA] and above the windows of all earlier
      values of A is matched by no value of A: later values only raise the
      window's lower end. */
  lemma BelowWindow(A: seq<nat>, iA: nat, b: nat, lower: nat, upper: nat)
    requires Sorted(A) && iA < |A|
    requires b < A[iA] - lower
    requires 0 < iA ==> A[iA - 1] + upper < b
    ensures !Matched(A, b, lower, upper)
  {
    forall k | 0 <= k < |A|
      ensures !InWindow(A[k], b, lower, upper)
    {
      if k >= iA {
        assert A[iA] <= A[k];
      } else {
        assert A[k] <= A[iA - 1];
      }
    }
  }

  /** When the last value of A lies more than `upper` below B[iB], nothing
      from iB on is matched. */
  lemma PastLastWindow(A: seq<nat>, B: seq<nat>, iB: nat, lower: nat, upper: nat)
    requires Sorted(A) && Sorted(B) && iB < |B|
    requires 0 < |A| ==> A[|A| - 1] + upper < B[iB]
    ensures Matches(A, B, lower, upper) == Matches(A, B[..iB], lower, upper)
  {
    var rest := B[iB..];
    assert B == B[..iB] + rest;
    MatchesAppend(A, B[..iB], rest, lower, upper);
    forall k, j | 0 <= k < |A| && 0 <= j < |rest|
      ensures A[k] + upper < rest[j]
    {
      assert rest[j] == B[iB + j];
      assert A[k] <= A[|A| - 1];
      assert B[iB] <= B[iB + j];
    }
    NoneLeft(A, rest, lower, upper);
  }

  /** Once every value of A lies more than `upper` below every remaining b,
      no remaining b is matched. */
  lemma {:induction false} NoneLeft(A: seq<nat>, rest: seq<nat>, lower: nat, upper: nat)
    requires forall k, j :: 0 <= k < |A| && 0 <= j < |rest| ==> A[k] + upper < rest[j]
    ensures Matches(A, rest, lower, upper) == []
  {
    if rest != [] {
      NoneLeft(A, rest[..|rest| - 1], lower, upper);
      assert !Matched(A, rest[|rest| - 1], lower, upper);
    }
  }

  /** The worked example: with A = [10, 50, 100], B = [8, 12, 60, 95, 200],
      lower = 2 and upper = 5, only 8 and 12 (in [8, 15]) are recorded;
      95 lies below [98, 105]. */
  lemma WorkedExample()
    ensures Matches([10, 50, 100], [8, 12, 60, 95, 200], 2, 5) == [8, 12]
  {
    var A, B := [10, 50, 100], [8, 12, 60, 95, 200];
    assert Matched(A, 8, 2, 5) && Matched(A, 12, 2, 5) by {
      assert InWindow(A[0], 8, 2, 5) && InWindow(A[0], 12, 2, 5);
    }
    OutsideEveryWindow(A, 60);
    OutsideEveryWindow(A, 95);
    OutsideEveryWindow(A, 200);
    assert B[..1] == [8] && B[..1][..0] == [];
    assert Matches(A, B[..1], 2, 5) == [8];
    assert B[..2] == [8, 12] && B[..2][..1] == B[..1];
    assert Matches(A, B[..2], 2, 5) == [8, 12];
    assert B[..3] == [8, 12, 60] && B[..3][..2] == B[..2];
    assert Matches(A, B[..3], 2, 5) == [8, 12];
    assert B[..4] == [8, 12, 60, 95] && B[..4][..3] == B[..3];
    assert Matches(A, B[..4], 2, 5) == [8, 12];
  }

  /** 60, 95 and 200 lie outside the windows (lower 2, upper 5) of 10, 50
      and 100. */
  lemma OutsideEveryWindow(A: seq<nat>, b: nat)
    requires A == [10, 50, 100] && b in {60, 95, 200}
    ensures !Matched(A, b, 2, 5)
  {
    forall k | 0 <= k < |A|
      ensures !InWindow(A[k], b, 2, 5)
    {
      assert A[k] == 10 || A[k] == 50 || A[k] == 100;
    }
  }

  /** The whole intersection of two compressed posting lists: decode both,
      sort both in place, scan, and report the number of recorded values.
      A list that fails to decode makes the intersection fail. */
  method ProximityIntersection(lower: nat, upper: nat, fileA: array<Byte>, fileB: array<Byte>)
    returns (r: Result<nat, DecodeError>)
    ensures r.Success? <==> Decode(fileA[..]).Success? && Decode(fileB[..]).Success?
    ensures r.Success? ==>
      r.value == |Matches(Decode(fileA[..]).value, Decode(fileB[..]).value, lower, upper)|
  {
    var decodedA := Decompress(fileA);
    if decodedA.Failure? {
      return Failure(decodedA.error);
    }
    var decodedB := Decompress(fileB);
    if decodedB.Failure? {
      return Failure(decodedB.error);
    }
    var numA := ToArray(decodedA.value);
    var numB := ToArray(decodedB.value);
    Sort(numA);
    Sort(numB);
    var intersection;
    ghost var steps;
    intersection, steps := Intersect(lower, upper, numA[..], numB[..]);
    MatchesPermutation(decodedA.value, numA[..], decodedB.value, numB[..], lower, upper);
    r := Success(|intersection|);
  }

  /** A fresh array holding the values of a decoded list. */
  method ToArray(s: seq<nat>) returns (a: array<nat>)
    ensures fresh(a) && a[..] == s
  {
    a := new nat[|s|](i requires 0 <= i < |s| => s[i]);
  }
}
