/**
 The annotated hypothesis of the library: an identifier, the raw p-value, and the two
 values the Benjamini-Hochberg engine writes back, the critical value and the adjusted p-value.
 Go passes it around as *Value, so it is a class here: several slots of a slice may hold
 the same object, and the engine updates it in place.
 */
module Values {

  class Value {
    /** Display label; "" when the input has no identifier column. */
    const id: string
    /** The raw p-value. Go offers no setter for it, so it never changes after construction. */
    const pValue: real
    /** Written by the correction engine; zero until then. */
    var criticalValue: real
    /** Written by the correction engine; zero until then. */
    var adjustedPValue: real

    /** The composite literal `&Value{ID: id, pValue: p}`: the other fields take Go's zero value. */
    constructor (id: string, p: real)
      ensures this.id == id && pValue == p
      ensures criticalValue == 0.0 && adjustedPValue == 0.0
    {
      this.id := id;
      pValue := p;
      criticalValue := 0.0;
      adjustedPValue := 0.0;
    }

    method SetAdjustedPValue(x: real)
      modifies this`adjustedPValue
      ensures AdjustedP() == x
      ensures CriticalValue() == old(CriticalValue())
    {
      adjustedPValue := x;
    }

    method SetCriticalValue(x: real)
      modifies this`criticalValue
      ensures CriticalValue() == x
      ensures AdjustedP() == old(AdjustedP())
    {
      criticalValue := x;
    }

    function AdjustedP(): real
      reads this
    {
      adjustedPValue
    }

    function P(): real
    {
      pValue
    }

    /** A result is significant when its raw p-value lies strictly below its critical value. */
    predicate Significant()
      reads this
    {
      if pValue < criticalValue then true else false
    }

    function CriticalValue(): real
      reads this
    {
      criticalValue
    }
  }

  /** No object occurs twice: what Go needs for the per-position writes not to clobber each other. */
  ghost predicate Distinct(vs: seq<Value>)
  {
    forall i, j :: 0 <= i < j < |vs| ==> vs[i] != vs[j]
  }

  /** The raw p-values, position by position. */
  function PValues(vs: seq<Value>): (ps: seq<real>)
    ensures |ps| == |vs|
    ensures forall k :: 0 <= k < |vs| ==> ps[k] == vs[k].pValue
  {
    seq(|vs|, k requires 0 <= k < |vs| => vs[k].pValue)
  }

  /** The adjusted p-values currently stored, position by position. */
  ghost function AdjustedOf(vs: seq<Value>): (r: seq<real>)
    reads vs
    ensures |r| == |vs|
    ensures forall k :: 0 <= k < |vs| ==> r[k] == vs[k].adjustedPValue
  {
    seq(|vs|, k requires 0 <= k < |vs| reads vs => vs[k].adjustedPValue)
  }

  /** Ascending by p-value; how ties are ordered is left open, as sort.Slice is not stable. */
  ghost predicate SortedByP(vs: seq<Value>)
  {
    forall i, j :: 0 <= i < j < |vs| ==> vs[i].pValue <= vs[j].pValue
  }

  /** Appending an object not yet present keeps the objects distinct. */
  lemma DistinctAppend(vs: seq<Value>, v: Value)
    requires Distinct(vs) && v !in vs
    ensures Distinct(vs + [v])
  {
  }

  /** In a distinct sequence the object at position i occurs nowhere else. */
  lemma DistinctAt(vs: seq<Value>, i: nat)
    requires Distinct(vs) && i < |vs|
    ensures forall j :: 0 <= j < |vs| && j != i ==> vs[j] != vs[i]
  {
    forall j | 0 <= j < |vs| && j != i
      ensures vs[j] != vs[i]
    {
      if j < i {
        assert vs[j] != vs[i];
      } else {
        assert vs[i] != vs[j];
      }
    }
  }

  lemma {:induction false} DistinctCountsOnce(vs: seq<Value>, v: Value)
    requires Distinct(vs)
    ensures multiset(vs)[v] <= 1
  {
    if vs != [] {
      assert vs == [vs[0]] + vs[1..];
      assert Distinct(vs[1..]);
      DistinctCountsOnce(vs[1..], v);
      if vs[0] == v {
        assert v !in vs[1..];
      }
    }
  }

  lemma {:induction false} RepeatCountsTwice(vs: seq<Value>, i: nat, j: nat)
    requires i < j < |vs| && vs[i] == vs[j]
    ensures multiset(vs)[vs[i]] >= 2
  {
    assert vs == vs[..j] + [vs[j]] + vs[j+1..];
    assert vs[i] in vs[..j];
  }

  /** A reordering of distinct objects is still made of distinct objects. */
  lemma DistinctPermutation(vs: seq<Value>, ws: seq<Value>)
    requires Distinct(vs) && multiset(ws) == multiset(vs)
    ensures Distinct(ws)
  {
    forall i, j | 0 <= i < j < |ws|
      ensures ws[i] != ws[j]
    {
      if ws[i] == ws[j] {
        RepeatCountsTwice(ws, i, j);
        DistinctCountsOnce(vs, ws[i]);
        assert false;
      }
    }
  }
}
