// Range partitioning used by `Dispatch`: `jobCount` indices are cut into
// groups of `groupSize`, and the closure of group `g` calls the user job once
// for each index of `[g * groupSize, min(g * groupSize + groupSize, jobCount))`,
// in increasing order.
//
// The original computes in 32-bit unsigned arithmetic. The functions suffixed
// `AsWritten` keep its wrap-around; the unsuffixed ones compute the same
// quantities without overflow and are the ones the rest of the model uses.
// `AsWrittenAgreesWithoutOverflow` shows the two coincide whenever
// `jobCount + groupSize - 1` fits in 32 bits.

module Dispatch {

  const Uint32Modulus: int := 0x1_0000_0000

  type Uint32 = x: int | 0 <= x < Uint32Modulus

  /** The argument handed to the user job for one index of a dispatched range. */
  datatype JobDispatchArgs = JobDispatchArgs(jobIndex: Uint32, groupIndex: Uint32)

  // ---------------------------------------------------------------------------
  // The arithmetic as written, with 32-bit wrap-around

  /** `(jobCount + groupSize - 1) / groupSize` evaluated in uint32. */
  function GroupCountAsWritten(jobCount: Uint32, groupSize: Uint32): Uint32
    requires groupSize > 0
  {
    ((jobCount + groupSize - 1) % Uint32Modulus) / groupSize
  }

  /** `groupIndex * groupSize` evaluated in uint32. */
  function GroupJobOffsetAsWritten(groupSize: Uint32, groupIndex: Uint32): Uint32
  {
    (groupIndex * groupSize) % Uint32Modulus
  }

  /** `min(groupJobOffset + groupSize, jobCount)` evaluated in uint32. */
  function GroupJobEndAsWritten(jobCount: Uint32, groupSize: Uint32, groupIndex: Uint32): Uint32
  {
    var sum := (GroupJobOffsetAsWritten(groupSize, groupIndex) + groupSize) % Uint32Modulus;
    if sum < jobCount then sum else jobCount
  }

  /** With `jobCount + groupSize - 1` near 2^32 the group count wraps to zero: no group is dispatched. */
  lemma GroupCountWraps()
    ensures GroupCountAsWritten(0xFFFF_FFFF, 2) == 0
    ensures GroupCount(0xFFFF_FFFF, 2) == 0x8000_0000
  {
  }

  // ---------------------------------------------------------------------------
  // The arithmetic without overflow

  /** Multiplying both sides by a non-negative factor keeps an inequality. */
  lemma MulMono(a: int, b: int, d: nat)
    ensures a <= b ==> a * d <= b * d
  {
  }

  /** Division is determined by quotient and remainder. */
  lemma DivUnique(n: int, d: int, q: int, r: int)
    requires d > 0 && 0 <= r < d && n == q * d + r
    ensures n / d == q
  {
    var q', r' := n / d, n % d;
    assert n == q' * d + r';
    MulMono(q' + 1, q, d);
    MulMono(q + 1, q', d);
    assert (q' + 1) * d == q' * d + d;
    assert (q + 1) * d == q * d + d;
  }

  /** `(j + d - 1) / d` is the least `q` with `q * d >= j`, and never exceeds `j`. */
  lemma CeilDiv(j: nat, d: nat)
    requires d > 0
    ensures ((j + d - 1) / d) * d >= j
    ensures j > 0 ==> ((j + d - 1) / d - 1) * d < j
    ensures (j + d - 1) / d <= j
  {
  }

  /** The number of groups: the fewest groups of `groupSize` that cover `jobCount` indices (the ceiling of the quotient). */
  function GroupCount(jobCount: nat, groupSize: nat): (count: nat)
    requires groupSize > 0
    ensures count * groupSize >= jobCount
    ensures jobCount > 0 ==> (count - 1) * groupSize < jobCount
    ensures count <= jobCount
    ensures count == 0 <==> jobCount == 0
  {
    CeilDiv(jobCount, groupSize);
    (jobCount + groupSize - 1) / groupSize
  }

  /** The first index of group `groupIndex`. */
  function GroupJobOffset(groupSize: nat, groupIndex: nat): nat
  {
    groupIndex * groupSize
  }

  /** One past the last index of group `groupIndex`. */
  function GroupJobEnd(jobCount: nat, groupSize: nat, groupIndex: nat): nat
  {
    var sum := GroupJobOffset(groupSize, groupIndex) + groupSize;
    if sum < jobCount then sum else jobCount
  }

  /** For `k < groupSize`, index `g * groupSize + k` belongs to group `g`. */
  lemma DivWithinGroup(g: nat, groupSize: nat, k: nat)
    requires k < groupSize
    ensures (g * groupSize + k) / groupSize == g
  {
    DivUnique(g * groupSize + k, groupSize, g, k);
  }

  /** Every group of a dispatch is a non-empty range, and consecutive groups abut. */
  lemma GroupRangeNonEmpty(jobCount: nat, groupSize: nat, groupIndex: nat)
    requires groupSize > 0
    requires groupIndex < GroupCount(jobCount, groupSize)
    ensures GroupJobOffset(groupSize, groupIndex) < GroupJobEnd(jobCount, groupSize, groupIndex) <= jobCount
    ensures GroupJobEnd(jobCount, groupSize, groupIndex) - GroupJobOffset(groupSize, groupIndex) <= groupSize
    ensures groupIndex + 1 < GroupCount(jobCount, groupSize) ==>
              GroupJobEnd(jobCount, groupSize, groupIndex) == GroupJobOffset(groupSize, groupIndex + 1)
    ensures groupIndex + 1 == GroupCount(jobCount, groupSize) ==> GroupJobEnd(jobCount, groupSize, groupIndex) == jobCount
  {
    var count := GroupCount(jobCount, groupSize);
    MulMono(groupIndex, count - 1, groupSize);
    MulMono(groupIndex + 1, count - 1, groupSize);
    assert (groupIndex + 1) * groupSize == groupIndex * groupSize + groupSize;
  }

  /** The overflow guard the arithmetic needs: `jobCount + groupSize - 1` fits in 32 bits. */
  predicate NoOverflow(jobCount: nat, groupSize: nat)
  {
    jobCount + groupSize - 1 < Uint32Modulus
  }

  /** A value that fits in 32 bits is unchanged by the wrap-around. */
  lemma ModIdentity(x: int)
    requires 0 <= x < Uint32Modulus
    ensures x % Uint32Modulus == x
  {
  }

  /** Within a dispatch without overflow, `groupJobOffset + groupSize` fits in 32 bits. */
  lemma GroupEndFits(jobCount: nat, groupSize: nat, groupIndex: nat)
    requires groupSize > 0 && NoOverflow(jobCount, groupSize)
    requires groupIndex < GroupCount(jobCount, groupSize)
    ensures GroupJobOffset(groupSize, groupIndex) + groupSize < Uint32Modulus
  {
  }

  /** Without overflow, the uint32 arithmetic of JobSystem.cpp:170 and 181-182 computes exactly the intended values. */
  lemma AsWrittenAgreesWithoutOverflow(jobCount: Uint32, groupSize: Uint32, groupIndex: Uint32)
    requires groupSize > 0 && NoOverflow(jobCount, groupSize)
    requires groupIndex < GroupCount(jobCount, groupSize)
    ensures GroupCountAsWritten(jobCount, groupSize) == GroupCount(jobCount, groupSize)
    ensures GroupJobOffsetAsWritten(groupSize, groupIndex) == GroupJobOffset(groupSize, groupIndex)
    ensures GroupJobEndAsWritten(jobCount, groupSize, groupIndex) == GroupJobEnd(jobCount, groupSize, groupIndex)
  {
    assert GroupCountAsWritten(jobCount, groupSize) == GroupCount(jobCount, groupSize) by {
      ModIdentity(jobCount + groupSize - 1);
    }
    var offset := GroupJobOffset(groupSize, groupIndex);
    GroupEndFits(jobCount, groupSize, groupIndex);
    assert GroupJobOffsetAsWritten(groupSize, groupIndex) == offset by {
      ModIdentity(offset);
    }
    ModIdentity(offset + groupSize);
  }

  /** Whenever `jobCount + groupSize - 1` overflows, the uint32 group count is zero although there is work: the whole dispatch is dropped. */
  lemma AsWrittenDropsDispatchOnOverflow(jobCount: Uint32, groupSize: Uint32)
    requires groupSize > 0 && !NoOverflow(jobCount, groupSize)
    ensures GroupCountAsWritten(jobCount, groupSize) == 0
    ensures GroupCount(jobCount, groupSize) > 0
  {
    var sum := jobCount + groupSize - 1;
    var wrapped := sum - Uint32Modulus;
    assert 0 <= wrapped < groupSize;
    DivUnique(sum, Uint32Modulus, 1, wrapped);
    assert sum % Uint32Modulus == wrapped by {
      assert sum == (sum / Uint32Modulus) * Uint32Modulus + sum % Uint32Modulus;
    }
    DivUnique(wrapped, groupSize, 0, wrapped);
  }

  // ---------------------------------------------------------------------------
  // What one group closure does, and what a whole dispatch does

  /** The calls the closure of group `groupIndex` makes, in order. */
  function GroupInvocations(jobCount: Uint32, groupSize: Uint32, groupIndex: Uint32): seq<JobDispatchArgs>
  {
    var offset := GroupJobOffset(groupSize, groupIndex);
    var end := GroupJobEnd(jobCount, groupSize, groupIndex);
    if offset < end then
      seq(end - offset, k requires 0 <= k < end - offset => JobDispatchArgs(offset + k, groupIndex))
    else
      []
  }

  /** The loop of the group closure: one call of the user job for each index of the group, in increasing order. */
  method RunGroup(jobCount: Uint32, groupSize: Uint32, groupIndex: Uint32) returns (calls: seq<JobDispatchArgs>)
    ensures calls == GroupInvocations(jobCount, groupSize, groupIndex)
    ensures forall k :: 0 <= k < |calls| ==>
              calls[k].jobIndex == GroupJobOffset(groupSize, groupIndex) + k && calls[k].groupIndex == groupIndex
  {
    var groupJobOffset := GroupJobOffset(groupSize, groupIndex);
    var groupJobEnd := GroupJobEnd(jobCount, groupSize, groupIndex);
    calls := [];
    var i := groupJobOffset;
    while i < groupJobEnd
      invariant i == groupJobOffset || groupJobOffset < i <= groupJobEnd
      invariant |calls| == i - groupJobOffset
      invariant forall k :: 0 <= k < |calls| ==> calls[k].jobIndex == groupJobOffset + k && calls[k].groupIndex == groupIndex
    {
      calls := calls + [JobDispatchArgs(i, groupIndex)];
      i := i + 1;
    }
  }

  /** The calls of groups `0 .. n - 1`, one group after the other. */
  function InvocationsOfGroups(jobCount: Uint32, groupSize: Uint32, n: nat): seq<JobDispatchArgs>
    requires n <= Uint32Modulus
  {
    if n == 0 then [] else InvocationsOfGroups(jobCount, groupSize, n - 1) + GroupInvocations(jobCount, groupSize, n - 1)
  }

  /** Every index below `jobCount` once, in increasing order, each with its group `jobIndex / groupSize`. */
  function WholeRange(jobCount: Uint32, groupSize: Uint32): seq<JobDispatchArgs>
    requires groupSize > 0
  {
    seq(jobCount, i requires 0 <= i < jobCount => JobDispatchArgs(i, i / groupSize))
  }

  /** The calls of group `g` are exactly the slice `[offset, end)` of the whole range: each in group `jobIndex / groupSize`. */
  lemma GroupIsSlice(jobCount: Uint32, groupSize: Uint32, g: Uint32)
    requires groupSize > 0
    requires g < GroupCount(jobCount, groupSize)
    ensures GroupJobOffset(groupSize, g) < GroupJobEnd(jobCount, groupSize, g) <= jobCount
    ensures GroupInvocations(jobCount, groupSize, g) ==
              WholeRange(jobCount, groupSize)[GroupJobOffset(groupSize, g)..GroupJobEnd(jobCount, groupSize, g)]
  {
    GroupRangeNonEmpty(jobCount, groupSize, g);
    var offset := GroupJobOffset(groupSize, g);
    var end := GroupJobEnd(jobCount, groupSize, g);
    var group := GroupInvocations(jobCount, groupSize, g);
    var whole := WholeRange(jobCount, groupSize);
    forall k | 0 <= k < end - offset
      ensures group[k] == whole[offset + k]
    {
      DivWithinGroup(g, groupSize, k);
    }
  }

  /** One past the last index covered by groups `0 .. n - 1`. */
  function Covered(jobCount: nat, groupSize: nat, n: nat): (end: nat)
    ensures end <= jobCount
  {
    if n == 0 then 0 else GroupJobEnd(jobCount, groupSize, n - 1)
  }

  /** The first `n` groups make exactly the calls for the indices they cover, in order. */
  lemma {:induction false} GroupsCoverPrefix(jobCount: Uint32, groupSize: Uint32, n: nat)
    requires groupSize > 0
    requires n <= GroupCount(jobCount, groupSize)
    ensures InvocationsOfGroups(jobCount, groupSize, n) == WholeRange(jobCount, groupSize)[..Covered(jobCount, groupSize, n)]
  {
    if n > 0 {
      var g := n - 1;
      GroupsCoverPrefix(jobCount, groupSize, g);
      GroupIsSlice(jobCount, groupSize, g);
      var offset := GroupJobOffset(groupSize, g);
      if g > 0 {
        GroupRangeNonEmpty(jobCount, groupSize, g - 1);
      }
      assert Covered(jobCount, groupSize, g) == offset;
      var whole := WholeRange(jobCount, groupSize);
      var end := GroupJobEnd(jobCount, groupSize, g);
      assert whole[..offset] + whole[offset..end] == whole[..end];
    }
  }

  /** The groups of a dispatch partition `[0, jobCount)`: contiguous, exhaustive, increasing, each index once, in group `jobIndex / groupSize`. */
  lemma DispatchPartitionsRange(jobCount: Uint32, groupSize: Uint32)
    requires groupSize > 0
    ensures InvocationsOfGroups(jobCount, groupSize, GroupCount(jobCount, groupSize)) == WholeRange(jobCount, groupSize)
    ensures |InvocationsOfGroups(jobCount, groupSize, GroupCount(jobCount, groupSize))| == jobCount
    ensures forall i :: 0 <= i < |InvocationsOfGroups(jobCount, groupSize, GroupCount(jobCount, groupSize))| ==>
              InvocationsOfGroups(jobCount, groupSize, GroupCount(jobCount, groupSize))[i].jobIndex == i &&
              InvocationsOfGroups(jobCount, groupSize, GroupCount(jobCount, groupSize))[i].groupIndex == i / groupSize
  {
    var count := GroupCount(jobCount, groupSize);
    GroupsCoverPrefix(jobCount, groupSize, count);
    if count > 0 {
      GroupRangeNonEmpty(jobCount, groupSize, count - 1);
    }
    assert Covered(jobCount, groupSize, count) == jobCount;
    var whole := WholeRange(jobCount, groupSize);
    assert InvocationsOfGroups(jobCount, groupSize, count) == whole;
    assert |whole| == jobCount;
  }
}
