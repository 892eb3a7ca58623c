/**
 The Benjamini-Hochberg correction engine, working in place on an array of Value objects
 as the Go function works on its slice of TestStatistic handles: it sorts the array, writes each
 record's critical value and raw adjusted p-value, then repairs the adjusted values with repeated
 forward scans until they are monotone. Each step is proved against module Adjustment.
 */
module FalseDiscovery {
  import opened Values
  import opened Adjustment

  /** The nil return and the two errors of the Go function. */
  datatype Outcome = Ok | FdrOutOfRange | NotConverged

  /** sort.Slice by ascending p-value, as an insertion sort; ties may end up in any order. */
  method SortByP(a: array<Value>)
    modifies a
    ensures SortedByP(a[..])
    ensures multiset(a[..]) == old(multiset(a[..]))
  {
    var i := 0;
    while i < a.Length
      invariant 0 <= i <= a.Length
      invariant SortedByP(a[..i])
      invariant multiset(a[..]) == old(multiset(a[..]))
    {
      Insert(a, i);
      i := i + 1;
    }
  }

  /** One step of the insertion sort: a[i] sinks into the sorted prefix a[..i]. */
  method Insert(a: array<Value>, i: nat)
    requires i < a.Length && SortedByP(a[..i])
    modifies a
    ensures SortedByP(a[..i + 1])
    ensures multiset(a[..]) == old(multiset(a[..]))
  {
    var j := i;
    while 0 < j && a[j].pValue < a[j - 1].pValue
      invariant 0 <= j <= i
      invariant forall k, l :: 0 <= k < l <= i && l != j ==> a[k].pValue <= a[l].pValue
      invariant multiset(a[..]) == old(multiset(a[..]))
    {
      Swap(a, j);
      j := j - 1;
    }
  }

  /** Exchanges a[j - 1] and a[j]: a permutation of the array. */
  method Swap(a: array<Value>, j: nat)
    requires 0 < j < a.Length
    modifies a
    ensures a[..] == old(a[..])[j - 1 := old(a[j])][j := old(a[j - 1])]
    ensures multiset(a[..]) == old(multiset(a[..]))
  {
    a[j - 1], a[j] := a[j], a[j - 1];
  }

  /** The first loop: rank k+1 of n gets critical value (k+1)/n FDR and raw estimate min(1, n/(k+1) p). */
  method AssignRanks(fdr: real, a: array<Value>)
    requires Distinct(a[..])
    modifies a[..]
    ensures forall k :: 0 <= k < a.Length ==> a[k].criticalValue == CriticalValue(fdr, a.Length, k)
    ensures AdjustedOf(a[..]) == Raw(PValues(a[..]))
  {
    var nTests := a.Length;
    for k := 0 to nTests
      invariant forall j :: 0 <= j < k ==> a[j].criticalValue == CriticalValue(fdr, nTests, j)
      invariant forall j :: 0 <= j < k ==> a[j].adjustedPValue == RawAdjusted(nTests, j, a[j].pValue)
    {
      var kRank := 1 + k;
      assert forall j :: 0 <= j < k ==> a[j] != a[k];
      a[k].SetCriticalValue(kRank as real / nTests as real * fdr);
      a[k].SetAdjustedPValue(Min(1.0, nTests as real / kRank as real * a[k].P()));
      assert a[k].adjustedPValue == RawAdjusted(nTests, k, a[k].pValue);
    }
  }

  /**
   One forward scan of the repair loop. lastP always holds the value last read, which is the
   current value of the slot to the left; the first slot is compared with 0.0, and since it is not
   negative the scan never writes before the start of the array. The scan leaves Pass of the
   values it started from and reports a fix exactly when they were not monotone.
   */
  method Scan(a: array<Value>) returns (backtracked: bool)
    requires Distinct(a[..])
    requires 0 < a.Length ==> 0.0 <= a[0].adjustedPValue
    modifies a[..]
    ensures forall k :: 0 <= k < a.Length ==> a[k].criticalValue == old(a[k].criticalValue)
    ensures AdjustedOf(a[..]) == Pass(old(AdjustedOf(a[..])))
    ensures backtracked <==> !NonDecreasing(old(AdjustedOf(a[..])))
  {
    ghost var t := AdjustedOf(a[..]);
    ghost var p := Pass(t);
    var lastP := 0.0;
    backtracked := false;
    for k := 0 to a.Length
      invariant forall j :: 0 <= j < k - 1 ==> a[j].adjustedPValue == p[j]
      invariant forall j :: 0 <= j < a.Length && k - 1 <= j ==> a[j].adjustedPValue == t[j]
      invariant k == 0 ==> lastP == 0.0
      invariant 0 < k ==> lastP == t[k - 1]
      invariant backtracked <==> DescentBefore(t, k)
      invariant forall j :: 0 <= j < a.Length ==> a[j].criticalValue == old(a[j].criticalValue)
    {
      if 0 < k {
        PassAt(t, k - 1);
      }
      var x := a[k].AdjustedP();
      if x < lastP {
        DistinctAt(a[..], k - 1);
        // Non-monotone: the slot to the left takes the current, smaller value.
        a[k - 1].SetAdjustedPValue(x);
        backtracked := true;
      }
      lastP := x;
    }
    if 0 < a.Length {
      PassAt(t, a.Length - 1);
    }
    DescentBeforeMeaning(t, a.Length);
    assert t[..a.Length] == t;
  }

  /**
   The monotonicity repair: scans repeated until one makes no fix, giving up when scan number 201
   (0-based) still makes one. It converges exactly when 201 scans leave the values monotone, and
   then holds their suffix minimum; otherwise it stops after 202 scans, which can only happen for
   more than 202 values.
   */
  method RepairMonotonicity(a: array<Value>) returns (converged: bool)
    requires Distinct(a[..])
    requires forall k :: 0 <= k < a.Length ==> 0.0 <= a[k].adjustedPValue
    modifies a[..]
    ensures forall k :: 0 <= k < a.Length ==> a[k].criticalValue == old(a[k].criticalValue)
    ensures converged <==> NonDecreasing(Passes(old(AdjustedOf(a[..])), 201))
    ensures converged ==> AdjustedOf(a[..]) == SuffixMins(old(AdjustedOf(a[..])))
    ensures !converged ==> 202 < a.Length && AdjustedOf(a[..]) == Passes(old(AdjustedOf(a[..])), 202)
  {
    ghost var s := AdjustedOf(a[..]);
    var i := 0;
    while true
      invariant 0 <= i <= 201
      invariant AdjustedOf(a[..]) == Passes(s, i)
      invariant forall k :: 0 <= k < a.Length ==> a[k].criticalValue == old(a[k].criticalValue)
      decreases 201 - i
    {
      PassesBounds(s, i);
      SuffixMinNonNegative(s);
      var backtracked := Scan(a);
      if !backtracked {
        PassFixpoint(Passes(s, i));
        PassesStable(s, i, 201);
        MonotonePassesIsSuffixMins(s, i);
        return true;
      }
      if i > 200 {
        if a.Length <= 202 {
          PassesConverge(s, 201);
        }
        return false;
      }
      i := i + 1;
    }
  }

  /**
   BenjaminiHochberg: an FDR outside (0, 1) is rejected before anything is touched. Otherwise the
   array ends as an ascending permutation of its input, every critical value is (k+1)/n FDR, and on
   success every adjusted value is the Benjamini-Hochberg adjusted p-value of its position.
   */
  method BenjaminiHochberg(fdr: real, a: array<Value>) returns (r: Outcome)
    requires Distinct(a[..])
    requires 0.0 < fdr < 1.0 ==> forall k :: 0 <= k < a.Length ==> 0.0 <= a[k].pValue
    modifies a, a[..]
    ensures r == FdrOutOfRange <==> fdr >= 1.0 || fdr <= 0.0
    ensures r == FdrOutOfRange ==>
      && a[..] == old(a[..])
      && forall k :: 0 <= k < a.Length ==>
           a[k].criticalValue == old(a[k].criticalValue) && a[k].adjustedPValue == old(a[k].adjustedPValue)
    ensures r != FdrOutOfRange ==>
      && multiset(a[..]) == old(multiset(a[..]))
      && SortedByP(a[..])
      && (forall k :: 0 <= k < a.Length ==> a[k].criticalValue == CriticalValue(fdr, a.Length, k))
      && (r == Ok <==> NonDecreasing(Passes(Raw(PValues(a[..])), 201)))
    ensures r == Ok ==> AdjustedOf(a[..]) == BhAdjusted(PValues(a[..]))
    ensures r == Ok ==> forall k :: 0 <= k < a.Length && a[k].Significant() ==> a[k].adjustedPValue < fdr
    ensures r == NotConverged ==>
      202 < a.Length && AdjustedOf(a[..]) == Passes(Raw(PValues(a[..])), 202)
  {
    if fdr >= 1.0 || fdr <= 0.0 {
      return FdrOutOfRange;
    }
    SortByP(a);
    PermutationKeeps(old(a[..]), a[..]);
    AssignRanks(fdr, a);
    ghost var ps := PValues(a[..]);
    var converged := RepairMonotonicity(a);
    if !converged {
      return NotConverged;
    }
    forall k | 0 <= k < a.Length && a[k].Significant()
      ensures a[k].adjustedPValue < fdr
    {
      SignificantBelowFdr(ps, fdr, k);
    }
    return Ok;
  }

  /** What a reordering keeps: distinctness, membership, and non-negative p-values. */
  lemma PermutationKeeps(vs: seq<Value>, ws: seq<Value>)
    requires multiset(ws) == multiset(vs) && Distinct(vs)
    ensures Distinct(ws)
    ensures forall k :: 0 <= k < |ws| ==> ws[k] in vs
    ensures (forall k :: 0 <= k < |vs| ==> 0.0 <= vs[k].pValue) ==> forall k :: 0 <= k < |ws| ==> 0.0 <= ws[k].pValue
  {
    DistinctPermutation(vs, ws);
    forall k | 0 <= k < |ws|
      ensures ws[k] in vs
    {
      assert ws[k] in multiset(ws);
    }
  }

  /**
   A batch of 203 or more records sharing one p-value c with 0 < c <= 1/n is valid input, yet
   BenjaminiHochberg cannot return Ok for it: by its postcondition Ok needs 201 scans to leave the
   raw estimates monotone, and for such a batch they do not.
   */
  lemma TiedBatchNotConverged(vs: seq<Value>, c: real)
    requires 203 <= |vs| && 0.0 < c && |vs| as real * c <= 1.0
    requires forall k :: 0 <= k < |vs| ==> vs[k].pValue == c
    ensures !NonDecreasing(Passes(Raw(PValues(vs)), 201))
  {
    assert PValues(vs) == Tied(|vs|, c);
    TiedPValuesExhaustCap(|vs|, c);
  }

  /**
   The single right-to-left running-minimum sweep that the repeated scans approximate: each slot
   takes its right neighbour's final value when that is smaller. It always finishes, with the
   suffix minimum, whatever the size of the batch.
   */
  method RepairBySweep(a: array<Value>)
    requires Distinct(a[..])
    modifies a[..]
    ensures forall k :: 0 <= k < a.Length ==> a[k].criticalValue == old(a[k].criticalValue)
    ensures AdjustedOf(a[..]) == SuffixMins(old(AdjustedOf(a[..])))
  {
    ghost var s := AdjustedOf(a[..]);
    ghost var m := SuffixMins(s);
    if a.Length == 0 {
      return;
    }
    var k := a.Length - 1;
    while 0 < k
      invariant 0 <= k < a.Length
      invariant forall j :: k <= j < a.Length ==> a[j].adjustedPValue == m[j]
      invariant forall j :: 0 <= j < k ==> a[j].adjustedPValue == s[j]
      invariant forall j :: 0 <= j < a.Length ==> a[j].criticalValue == old(a[j].criticalValue)
    {
      SuffixMinsStep(s, k);
      DistinctAt(a[..], k - 1);
      CarryMin(a[k - 1], a[k]);
      k := k - 1;
    }
  }

  /** One step of the sweep: the left slot keeps the smaller of its own value and its right neighbour's. */
  method CarryMin(left: Value, right: Value)
    requires left != right
    modifies left`adjustedPValue
    ensures left.adjustedPValue == Min(old(left.adjustedPValue), right.adjustedPValue)
  {
    var x := right.AdjustedP();
    if x < left.AdjustedP() {
      // The running minimum moves one slot to the left.
      left.SetAdjustedPValue(x);
    }
  }

  /**
   BenjaminiHochberg with the repair done by one sweep: the same validation, order and critical
   values, and on every valid FDR the Benjamini-Hochberg adjusted p-values, with no convergence error.
   */
  method BenjaminiHochbergSweep(fdr: real, a: array<Value>) returns (r: Outcome)
    requires Distinct(a[..])
    modifies a, a[..]
    ensures r != NotConverged
    ensures r == FdrOutOfRange <==> fdr >= 1.0 || fdr <= 0.0
    ensures r == FdrOutOfRange ==>
      && a[..] == old(a[..])
      && forall k :: 0 <= k < a.Length ==>
           a[k].criticalValue == old(a[k].criticalValue) && a[k].adjustedPValue == old(a[k].adjustedPValue)
    ensures r == Ok ==>
      && multiset(a[..]) == old(multiset(a[..]))
      && SortedByP(a[..])
      && (forall k :: 0 <= k < a.Length ==> a[k].criticalValue == CriticalValue(fdr, a.Length, k))
      && AdjustedOf(a[..]) == BhAdjusted(PValues(a[..]))
  {
    if fdr >= 1.0 || fdr <= 0.0 {
      return FdrOutOfRange;
    }
    SortByP(a);
    PermutationKeeps(old(a[..]), a[..]);
    AssignRanks(fdr, a);
    RepairBySweep(a);
    return Ok;
  }
}
