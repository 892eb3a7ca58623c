/**
 The arithmetic of the Benjamini-Hochberg step-up procedure over exact reals, and of the
 repair loop that makes the adjusted p-values monotone. Everything here is a pure function of
 the sorted p-values; the engine in module FalseDiscovery is proved against it.
 Positions are 0-based, so the 1-based rank of position k is k + 1.
 */
module Adjustment {

  /** math.Min on the reals (no NaN, no signed zero). */
  function Min(x: real, y: real): real
  {
    if x <= y then x else y
  }

  /** Critical value of the hypothesis at 0-based sorted position k of n: (k+1)/n times the FDR. */
  function CriticalValue(fdr: real, n: nat, k: nat): real
    requires k < n
  {
    (k + 1) as real / n as real * fdr
  }

  /** Raw step-up estimate before repair: n/(k+1) times p, capped at 1. */
  function RawAdjusted(n: nat, k: nat, p: real): (q: real)
    requires k < n
    ensures q <= 1.0
    ensures q <= n as real / (k + 1) as real * p
    ensures 0.0 <= p ==> 0.0 <= q
  {
    Min(1.0, n as real / (k + 1) as real * p)
  }

  /** The raw estimates of a whole sorted batch. */
  function Raw(ps: seq<real>): (r: seq<real>)
    ensures |r| == |ps|
    ensures forall k :: 0 <= k < |ps| ==> r[k] == RawAdjusted(|ps|, k, ps[k])
  {
    seq(|ps|, k requires 0 <= k < |ps| => RawAdjusted(|ps|, k, ps[k]))
  }

  /** Every value is at most its right neighbour: the condition under which a repair pass makes no fix. */
  predicate NonDecreasing(s: seq<real>)
  {
    forall j :: 0 <= j < |s| - 1 ==> s[j] <= s[j + 1]
  }

  /** Whether a left-to-right read of the first k values meets one below its left neighbour. */
  predicate DescentBefore(t: seq<real>, k: nat)
    requires k <= |t|
  {
    if k < 2 then false else DescentBefore(t, k - 1) || t[k - 1] < t[k - 2]
  }

  /** A read of the first k values meets a descent exactly when they are not monotone. */
  lemma {:induction false} DescentBeforeMeaning(t: seq<real>, k: nat)
    requires k <= |t|
    ensures DescentBefore(t, k) <==> !NonDecreasing(t[..k])
  {
    if k == 0 {
      assert t[..0] == [];
    } else {
      DescentBeforeMeaning(t, k - 1);
      NonDecreasingPrefix(t, k - 1);
    }
  }

  /** A prefix stays monotone one element longer exactly when the new element is at least its left neighbour. */
  lemma NonDecreasingPrefix(t: seq<real>, k: nat)
    requires k < |t|
    ensures NonDecreasing(t[..k + 1]) <==> NonDecreasing(t[..k]) && (k == 0 || t[k - 1] <= t[k])
  {
    var u, w := t[..k + 1], t[..k];
    if k > 0 && NonDecreasing(w) && t[k - 1] <= t[k] {
      forall j | 0 <= j < k
        ensures u[j] <= u[j + 1]
      {
        if j + 1 < k {
          assert w[j] <= w[j + 1];
        }
      }
    }
    if NonDecreasing(u) && k > 0 {
      assert u[k - 1] <= u[k];
      forall j | 0 <= j < k - 1
        ensures w[j] <= w[j + 1]
      {
        assert u[j] <= u[j + 1];
      }
    }
  }

  /** The least of s[k..]. */
  function SuffixMin(s: seq<real>, k: nat): (m: real)
    requires k < |s|
    ensures forall j :: k <= j < |s| ==> m <= s[j]
    decreases |s| - k
  {
    if k == |s| - 1 then s[k] else Min(s[k], SuffixMin(s, k + 1))
  }

  /** The minimum is one of the values it ranges over. */
  lemma {:induction false} SuffixMinAttained(s: seq<real>, k: nat)
    requires k < |s|
    ensures exists j :: k <= j < |s| && SuffixMin(s, k) == s[j]
    decreases |s| - k
  {
    if k < |s| - 1 && s[k] > SuffixMin(s, k + 1) {
      SuffixMinAttained(s, k + 1);
      var j :| k + 1 <= j < |s| && SuffixMin(s, k + 1) == s[j];
      assert SuffixMin(s, k) == s[j];
    } else {
      assert SuffixMin(s, k) == s[k];
    }
  }

  lemma SuffixMinNonNegative(s: seq<real>)
    requires forall j :: 0 <= j < |s| ==> 0.0 <= s[j]
    ensures forall k :: 0 <= k < |s| ==> 0.0 <= SuffixMin(s, k)
  {
    forall k | 0 <= k < |s|
      ensures 0.0 <= SuffixMin(s, k)
    {
      SuffixMinAttained(s, k);
    }
  }

  /** The running minimum taken from the right end: the canonical monotone repair of s. */
  function SuffixMins(s: seq<real>): (r: seq<real>)
    ensures |r| == |s|
    ensures NonDecreasing(r)
    ensures forall k :: 0 <= k < |s| ==> r[k] == SuffixMin(s, k) && r[k] <= s[k]
  {
    seq(|s|, k requires 0 <= k < |s| => SuffixMin(s, k))
  }

  /** The running minimum one slot further left: the smaller of that slot's value and the minimum so far. */
  lemma SuffixMinsStep(s: seq<real>, k: nat)
    requires 0 < k < |s|
    ensures SuffixMins(s)[k - 1] == Min(s[k - 1], SuffixMins(s)[k])
  {
  }

  /**
   The Benjamini-Hochberg adjusted p-values of an ascending batch: at position k, the least
   raw estimate at or after k. They never exceed 1, never exceed the raw estimate and never decrease.
   */
  function BhAdjusted(ps: seq<real>): (q: seq<real>)
    ensures |q| == |ps|
    ensures NonDecreasing(q)
    ensures forall k :: 0 <= k < |ps| ==> q[k] <= Raw(ps)[k] <= 1.0
    ensures forall k :: 0 <= k < |ps| ==> q[k] == SuffixMin(Raw(ps), k)
  {
    SuffixMins(Raw(ps))
  }

  /**
   One forward scan of the repair loop, in closed form. The scan reads slot k before anything
   can write it and compares it with slot k-1, which it has not written yet; so slot j ends up
   holding its right neighbour's value when that is smaller, and its own value otherwise.
   */
  function Pass(t: seq<real>): (r: seq<real>)
    ensures |r| == |t|
  {
    seq(|t|, j requires 0 <= j < |t| => if j + 1 < |t| && t[j + 1] < t[j] then t[j + 1] else t[j])
  }

  lemma PassAt(t: seq<real>, j: nat)
    requires j < |t|
    ensures Pass(t)[j] == if j + 1 < |t| && t[j + 1] < t[j] then t[j + 1] else t[j]
  {
  }

  /** A scan only ever lowers a value, and only to its right neighbour's value. */
  lemma PassLowers(t: seq<real>)
    ensures forall j :: 0 <= j < |t| ==> Pass(t)[j] <= t[j]
    ensures forall j :: 0 <= j < |t| ==> Pass(t)[j] == t[j] || (j + 1 < |t| && Pass(t)[j] == t[j + 1])
  {
  }

  /** The state of the adjusted values after m complete scans. */
  function Passes(t: seq<real>, m: nat): (r: seq<real>)
    ensures |r| == |t|
  {
    if m == 0 then t else Pass(Passes(t, m - 1))
  }

  /** A scan makes no change exactly when the values are already monotone. */
  lemma PassFixpoint(t: seq<real>)
    ensures Pass(t) == t <==> NonDecreasing(t)
  {
    if NonDecreasing(t) {
      assert forall j :: 0 <= j < |t| ==> Pass(t)[j] == t[j];
    } else {
      var j :| 0 <= j < |t| - 1 && t[j] > t[j + 1];
      assert Pass(t)[j] != t[j];
    }
  }

  /** Once monotone, further scans change nothing. */
  lemma {:induction false} PassesStable(t: seq<real>, i: nat, m: nat)
    requires i <= m && NonDecreasing(Passes(t, i))
    ensures Passes(t, m) == Passes(t, i)
    decreases m
  {
    if m > i {
      PassesStable(t, i, m - 1);
      PassFixpoint(Passes(t, i));
    }
  }

  /** Scans never lower a value below the least value to its right, nor raise one above its start. */
  lemma {:induction false} PassesBounds(s: seq<real>, m: nat)
    ensures forall j :: 0 <= j < |s| ==> SuffixMin(s, j) <= Passes(s, m)[j] <= s[j]
  {
    if m > 0 {
      PassesBounds(s, m - 1);
      var t := Passes(s, m - 1);
      forall j | 0 <= j < |s|
        ensures SuffixMin(s, j) <= Pass(t)[j] <= s[j]
      {
        PassAt(t, j);
        assert SuffixMin(s, j) <= t[j] <= s[j];
        if j + 1 < |s| {
          assert SuffixMin(s, j) == Min(s[j], SuffixMin(s, j + 1));
          assert SuffixMin(s, j + 1) <= t[j + 1];
        }
      }
    }
  }

  /** After m scans the last m+1 slots hold their final values: each scan settles one more slot. */
  lemma {:induction false} PassesSettle(s: seq<real>, m: nat)
    ensures forall j :: 0 <= j < |s| && |s| - 1 - m <= j ==> Passes(s, m)[j] == SuffixMin(s, j)
  {
    if m > 0 {
      PassesSettle(s, m - 1);
      PassesBounds(s, m - 1);
      var t := Passes(s, m - 1);
      forall j | 0 <= j < |s| && |s| - 1 - m <= j
        ensures Pass(t)[j] == SuffixMin(s, j)
      {
        PassAt(t, j);
        if j + 1 < |s| {
          SettleStep(s[j], t[j], SuffixMin(s, j + 1), SuffixMin(s, j));
        }
      }
    }
  }

  /**
   One slot of a scan, once its right neighbour holds its final value m1: a value squeezed
   between the slot's final value and its raw value s ends at the final value.
   */
  lemma SettleStep(s: real, t: real, m1: real, m: real)
    requires m == Min(s, m1) && m <= t <= s
    ensures (if m1 < t then m1 else t) == m
  {
  }

  /** n - 1 scans always suffice to reach the canonical suffix minimum. */
  lemma PassesConverge(s: seq<real>, m: nat)
    requires |s| <= m + 1
    ensures Passes(s, m) == SuffixMins(s)
  {
    PassesSettle(s, m);
  }

  /** A monotone sequence squeezed between the suffix minimum and s is the suffix minimum. */
  lemma MonotoneBetweenBoundsIsSuffixMins(s: seq<real>, t: seq<real>)
    requires |t| == |s| && NonDecreasing(t)
    requires forall j :: 0 <= j < |s| ==> SuffixMin(s, j) <= t[j] <= s[j]
    ensures t == SuffixMins(s)
  {
    forall j | 0 <= j < |s|
      ensures t[j] == SuffixMin(s, j)
    {
      AtMostSuffixMin(s, t, j);
    }
  }

  lemma {:induction false} AtMostSuffixMin(s: seq<real>, t: seq<real>, j: nat)
    requires |t| == |s| && NonDecreasing(t) && j < |s|
    requires forall i :: 0 <= i < |s| ==> t[i] <= s[i]
    ensures t[j] <= SuffixMin(s, j)
    decreases |s| - j
  {
    if j + 1 < |s| {
      AtMostSuffixMin(s, t, j + 1);
    }
  }

  /** The fixpoint the repair loop stops at is the canonical one. */
  lemma MonotonePassesIsSuffixMins(s: seq<real>, m: nat)
    requires NonDecreasing(Passes(s, m))
    ensures Passes(s, m) == SuffixMins(s)
  {
    PassesBounds(s, m);
    MonotoneBetweenBoundsIsSuffixMins(s, Passes(s, m));
  }

  /** Comparing the scaled p-value with q is comparing p with the critical value for q. */
  lemma ScaleCompare(n: nat, k: nat, p: real, q: real)
    requires k < n
    ensures n as real / (k + 1) as real * p <= q <==> p <= CriticalValue(q, n, k)
    ensures n as real / (k + 1) as real * p < q <==> p < CriticalValue(q, n, k)
  {
    var a, b := (k + 1) as real, n as real;
    assert (a / b) * (b / a) == 1.0;
    assert (a / b) * (b / a * p) == p;
    assert (b / a) * (a / b * q) == q;
  }

  /** Below a cap under 1, the capped estimate is at most q exactly when p is at most the critical value for q. */
  lemma RawVsCritical(n: nat, k: nat, p: real, q: real)
    requires k < n && q < 1.0
    ensures RawAdjusted(n, k, p) <= q <==> p <= CriticalValue(q, n, k)
  {
    ScaleCompare(n, k, p, q);
  }

  /**
   The adjusted p-values reproduce the step-up rule of Benjamini and Hochberg (1995): the
   hypothesis at position k has adjusted value at most q exactly when some hypothesis at or after
   k has its p-value at most that position's critical value for q.
   */
  lemma StepUp(ps: seq<real>, q: real, k: nat)
    requires q < 1.0 && k < |ps|
    ensures BhAdjusted(ps)[k] <= q <==> exists j :: k <= j < |ps| && ps[j] <= CriticalValue(q, |ps|, j)
  {
    var n := |ps|;
    var raw := Raw(ps);
    if BhAdjusted(ps)[k] <= q {
      SuffixMinAttained(raw, k);
      var j :| k <= j < n && SuffixMin(raw, k) == raw[j];
      RawVsCritical(n, j, ps[j], q);
    }
    if exists j :: k <= j < n && ps[j] <= CriticalValue(q, n, j) {
      var j :| k <= j < n && ps[j] <= CriticalValue(q, n, j);
      RawVsCritical(n, j, ps[j], q);
    }
  }

  /** A hypothesis that Significant() flags has an adjusted p-value below the FDR. */
  lemma SignificantBelowFdr(ps: seq<real>, fdr: real, k: nat)
    requires k < |ps| && ps[k] < CriticalValue(fdr, |ps|, k)
    ensures BhAdjusted(ps)[k] < fdr
  {
    ScaleCompare(|ps|, k, ps[k], fdr);
  }

  /** First fixture of the library's tests: already monotone, so no value is repaired. */
  lemma FixtureNoRepair()
    ensures NonDecreasing(Raw([0.01, 0.03, 0.05, 0.12, 0.2, 0.3]))
    ensures BhAdjusted([0.01, 0.03, 0.05, 0.12, 0.2, 0.3]) == [0.06, 0.09, 0.10, 0.18, 0.24, 0.3]
  {
    var raw := Raw([0.01, 0.03, 0.05, 0.12, 0.2, 0.3]);
    assert raw == [0.06, 0.09, 0.10, 0.18, 0.24, 0.3];
    MonotoneBetweenBoundsIsSuffixMins(raw, raw);
  }

  /** Second fixture: B's raw estimate 0.008662839 is repaired down to C's 0.008498. */
  lemma FixtureRepair()
    ensures !NonDecreasing(Raw([0.001052588, 0.002887613, 0.004249, 0.2431061, 0.4909836, 0.589325]))
    ensures BhAdjusted([0.001052588, 0.002887613, 0.004249, 0.2431061, 0.4909836, 0.589325])
         == [0.006315528, 0.008498, 0.008498, 0.36465915, 0.58918032, 0.589325]
  {
    var ps := [0.001052588, 0.002887613, 0.004249, 0.2431061, 0.4909836, 0.589325];
    var raw := Raw(ps);
    assert raw == [0.006315528, 0.008662839, 0.008498, 0.36465915, 0.58918032, 0.589325];
    assert raw[1] > raw[2];
    var adj := [0.006315528, 0.008498, 0.008498, 0.36465915, 0.58918032, 0.589325];
    assert Pass(raw) == adj;
    assert Pass(adj) == adj;
    PassFixpoint(adj);
    MonotonePassesIsSuffixMins(raw, 1);
  }

  /**
   Third fixture: two repairs, A down to B's 0.0299856 and F down to G's 5.949081952/7; every
   adjusted value lies within the tests' tolerance of 1e-7 of the expected one.
   */
  lemma FixtureSomeSignificant(ps: seq<real>, expected: seq<real>)
    requires ps == [0.006920873, 0.0074964, 0.190987137, 0.204375554, 0.376956048, 0.742802872, 0.743635244, 0.883128442]
    requires expected == [0.0299856, 0.0299856, 0.4087511, 0.4087511, 0.6031297, 0.8498689, 0.8498689, 0.8831284]
    ensures !NonDecreasing(Raw(ps))
    ensures forall k :: 0 <= k < 8 ==> -0.0000001 <= BhAdjusted(ps)[k] - expected[k] <= 0.0000001
  {
    var adj := [0.0299856, 0.0299856, 0.408751108, 0.408751108, 0.6031296768, 5.949081952 / 7.0, 5.949081952 / 7.0, 0.883128442];
    SomeSignificantRepair(ps, adj);
    SomeSignificantTolerance(adj, expected);
  }

  /** The exact adjusted values of the third fixture against the rounded expected ones. */
  lemma SomeSignificantTolerance(adj: seq<real>, expected: seq<real>)
    requires adj == [0.0299856, 0.0299856, 0.408751108, 0.408751108, 0.6031296768, 5.949081952 / 7.0, 5.949081952 / 7.0, 0.883128442]
    requires expected == [0.0299856, 0.0299856, 0.4087511, 0.4087511, 0.6031297, 0.8498689, 0.8498689, 0.8831284]
    ensures forall k :: 0 <= k < 8 ==> -0.0000001 <= adj[k] - expected[k] <= 0.0000001
  {
  }

  /** The third fixture's raw estimates need one scan, which lowers A and F. */
  lemma SomeSignificantRepair(ps: seq<real>, adj: seq<real>)
    requires ps == [0.006920873, 0.0074964, 0.190987137, 0.204375554, 0.376956048, 0.742802872, 0.743635244, 0.883128442]
    requires adj == [0.0299856, 0.0299856, 0.408751108, 0.408751108, 0.6031296768, 5.949081952 / 7.0, 5.949081952 / 7.0, 0.883128442]
    ensures !NonDecreasing(Raw(ps))
    ensures BhAdjusted(ps) == adj
  {
    var raw := Raw(ps);
    assert raw[0] == 0.055366984 && raw[1] == 0.0299856 && raw[2] == 0.509299032 && raw[3] == 0.408751108;
    assert raw[4] == 0.6031296768 && raw[5] == 5.942422976 / 6.0 && raw[6] == adj[6] && raw[7] == 0.883128442;
    assert raw[0] > raw[1];
    forall j | 0 <= j < 8
      ensures Pass(raw)[j] == adj[j]
    {
      PassAt(raw, j);
    }
    OneScanRepairs(raw, adj);
  }

  /** Values that one scan makes monotone are repaired to the result of that scan. */
  lemma OneScanRepairs(raw: seq<real>, adj: seq<real>)
    requires |adj| == |raw| && forall j :: 0 <= j < |raw| ==> Pass(raw)[j] == adj[j]
    requires NonDecreasing(adj)
    ensures SuffixMins(raw) == adj
  {
    assert Pass(raw) == adj;
    assert Passes(raw, 1) == adj;
    MonotonePassesIsSuffixMins(raw, 1);
  }

  /** Every value is strictly below all values to its left. */
  predicate StrictlyDecreasing(s: seq<real>)
  {
    forall i, j :: 0 <= i < j < |s| ==> s[j] < s[i]
  }

  /** On a strictly decreasing sequence, m scans move each value m slots to the left, the last value filling in. */
  lemma {:induction false} PassesShift(s: seq<real>, m: nat, j: nat)
    requires StrictlyDecreasing(s) && j < |s|
    ensures Passes(s, m)[j] == s[if j + m < |s| then j + m else |s| - 1]
  {
    if m > 0 {
      var t := Passes(s, m - 1);
      PassesShift(s, m - 1, j);
      PassAt(t, j);
      if j + 1 < |s| {
        PassesShift(s, m - 1, j + 1);
        if j + m < |s| {
          assert t[j] == s[j + m - 1] && t[j + 1] == s[j + m];
          assert s[j + m] < s[j + m - 1];
        } else {
          assert t[j] == s[|s| - 1] && t[j + 1] == s[|s| - 1];
        }
      }
    }
  }

  /** A strictly decreasing run of length n is not repaired by fewer than n - 1 scans. */
  lemma DecreasingOutlastsPasses(s: seq<real>, m: nat)
    requires StrictlyDecreasing(s) && m + 1 < |s|
    ensures !NonDecreasing(Passes(s, m))
  {
    PassesShift(s, m, 0);
    PassesShift(s, m, 1);
  }

  lemma QuotientShrinks(b: real, a: real, a': real)
    requires 0.0 < b && 0.0 < a < a'
    ensures b / a' < b / a
  {
    assert b / a' * a' == b;
    assert b / a * a == b;
  }

  /** A batch of n p-values all equal to c. */
  function Tied(n: nat, c: real): (ps: seq<real>)
    ensures |ps| == n && forall k :: 0 <= k < n ==> ps[k] == c
  {
    seq(n, _ => c)
  }

  /** The uncapped estimates n/(k+1) c of n tied p-values c. */
  function Shares(n: nat, c: real): (r: seq<real>)
    ensures |r| == n
  {
    seq(n, k requires 0 <= k < n => n as real / (k + 1) as real * c)
  }

  /** With n c <= 1 the cap at 1 never bites: the raw estimates of a tied batch are its shares. */
  lemma TiedRaw(n: nat, c: real)
    requires 0.0 < c && n as real * c <= 1.0
    ensures Raw(Tied(n, c)) == Shares(n, c)
  {
    var raw, sh := Raw(Tied(n, c)), Shares(n, c);
    forall k | 0 <= k < n
      ensures raw[k] == sh[k]
    {
      var t := n as real / (k + 1) as real * c;
      ShareUncapped(n as real, (k + 1) as real, c);
      assert Tied(n, c)[k] == c;
      assert RawAdjusted(n, k, c) == t;
    }
  }

  /** A share b/a c with a >= 1 is at most b c, so at most 1 when b c is. */
  lemma ShareUncapped(b: real, a: real, c: real)
    requires 0.0 < b && 1.0 <= a && 0.0 < c && b * c <= 1.0
    ensures b / a * c <= 1.0
  {
    if a > 1.0 {
      QuotientShrinks(b, 1.0, a);
      ScaleStrict(b / a, b / 1.0, c);
    }
  }

  /** Shares strictly decrease along the ranks. */
  lemma SharesDecreasing(n: nat, c: real)
    requires 0.0 < c
    ensures StrictlyDecreasing(Shares(n, c))
  {
    var sh := Shares(n, c);
    forall i, j | 0 <= i < j < n
      ensures sh[j] < sh[i]
    {
      ShareShrinks(n as real, (i + 1) as real, (j + 1) as real, c);
    }
  }

  /** n tied p-values c with 0 < c <= 1/n give strictly decreasing raw estimates. */
  lemma TiedRawDecreasing(n: nat, c: real)
    requires 0.0 < c && n as real * c <= 1.0
    ensures StrictlyDecreasing(Raw(Tied(n, c)))
  {
    TiedRaw(n, c);
    SharesDecreasing(n, c);
  }

  /** b/a c shrinks as a grows. */
  lemma ShareShrinks(b: real, a: real, a': real, c: real)
    requires 0.0 < b && 0.0 < a < a' && 0.0 < c
    ensures b / a' * c < b / a * c
  {
    QuotientShrinks(b, a, a');
    ScaleStrict(b / a', b / a, c);
  }

  lemma ScaleStrict(x: real, y: real, c: real)
    requires x < y && 0.0 < c
    ensures x * c < y * c
  {
  }

  /**
   The repair loop gives up when 202 scans leave the values non-monotone (scan index 201 still
   makes a fix). For every batch of n >= 203 tied p-values c with 0 < c <= 1/n, that happens.
   */
  lemma TiedPValuesExhaustCap(n: nat, c: real)
    requires 203 <= n && 0.0 < c && n as real * c <= 1.0
    ensures !NonDecreasing(Passes(Raw(Tied(n, c)), 201))
  {
    TiedRawDecreasing(n, c);
    DecreasingOutlastsPasses(Raw(Tied(n, c)), 201);
  }
}
