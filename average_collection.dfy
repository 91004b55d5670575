/** utils/src/average_collection.rs: a growable collection of numbers that caches its mean.
    Every change to the values clears the cache; asking for the average refills it. The
    numbers are modelled as integers and the f64 mean as the exact real quotient. */
module AverageCollection {
  import opened Wrappers

  function Sum(s: seq<int>): int
  {
    if s == [] then 0 else Sum(s[..|s| - 1]) + s[|s| - 1]
  }

  /** The mean of a non-empty sequence: its sum over its length. */
  function Mean(s: seq<int>): real
    requires s != []
  {
    Sum(s) as real / |s| as real
  }

  class AverageCollection {
    var values: seq<int>
    /** The cached mean, `None` until average() computes it. */
    var average: Option<real>

    /** Whenever the cache holds a value, it is the mean of the current values. */
    ghost predicate Valid()
      reads this
    {
      average.Some? ==> values != [] && average.value == Mean(values)
    }

    /** from: the given values, nothing cached. */
    constructor From(value: seq<int>)
      ensures values == value && average == None && Valid()
    {
      values := value;
      average := None;
    }

    /** add: the value goes at the end and the cache is cleared. */
    method Add(value: int)
      modifies this
      ensures values == old(values) + [value] && average == None && Valid()
    {
      average := None;
      values := values + [value];
    }

    /** pop: the last value is removed and returned, `None` when there is none; the cache is
        cleared either way. */
    method Pop() returns (r: Option<int>)
      modifies this
      ensures old(values) == [] ==> r == None && values == []
      ensures old(values) != [] ==>
        r == Some(old(values)[|old(values)| - 1]) && values == old(values)[..|old(values)| - 1]
      ensures average == None && Valid()
    {
      average := None;
      if values == [] {
        r := None;
      } else {
        r := Some(values[|values| - 1]);
        values := values[..|values| - 1];
      }
    }

    /** average: `None` for no values, otherwise the mean, computed only when nothing is
        cached and then kept; a cached mean is returned as it is. */
    method Average() returns (r: Option<real>)
      requires Valid()
      modifies this
      ensures values == old(values) && Valid()
      ensures r == if values == [] then None else Some(Mean(values))
      ensures average == r
      ensures old(average).Some? ==> average == old(average)
    {
      if average == None && values != [] {
        var mean := CalcAverage();
        average := Some(mean);
      }
      r := average;
    }

    /** calc_average: the sum of the values, starting from the first, over their count. An
        empty collection panics. */
    method CalcAverage() returns (r: real)
      requires values != []
      ensures r == Mean(values)
    {
      var sum := values[0];
      var n := 1;
      assert values[..1] == [values[0]];
      while n < |values|
        invariant 1 <= n <= |values|
        invariant sum == Sum(values[..n])
        decreases |values| - n
      {
        assert values[..n + 1][..n] == values[..n];
        sum := sum + values[n];
        n := n + 1;
      }
      assert values[..n] == values;
      r := sum as real / |values| as real;
    }
  }

  // ---------------------------------------------------------------------------
  // Properties of the mean

  lemma SumAppend(s: seq<int>, x: int)
    ensures Sum(s + [x]) == Sum(s) + x
  {
    assert (s + [x])[..|s|] == s;
  }

  /** The mean lies between the smallest and the largest value. */
  lemma {:induction false} SumBounds(s: seq<int>, lo: int, hi: int)
    requires forall k | 0 <= k < |s| :: lo <= s[k] <= hi
    ensures |s| * lo <= Sum(s) <= |s| * hi
    decreases |s|
  {
    if s != [] {
      var init := s[..|s| - 1];
      assert forall k | 0 <= k < |init| :: init[k] == s[k];
      SumBounds(init, lo, hi);
    }
  }

  lemma MeanBounds(s: seq<int>, lo: int, hi: int)
    requires s != [] && forall k | 0 <= k < |s| :: lo <= s[k] <= hi
    ensures lo as real <= Mean(s) <= hi as real
  {
    SumBounds(s, lo, hi);
    Scaled(|s|, lo);
    Scaled(|s|, hi);
    QuotientBounds(Sum(s) as real, |s| as real, lo as real, hi as real);
  }

  lemma Scaled(n: int, x: int)
    ensures (n * x) as real == n as real * x as real
  {
  }

  lemma QuotientBounds(sum: real, n: real, lo: real, hi: real)
    requires n > 0.0 && n * lo <= sum <= n * hi
    ensures lo <= sum / n <= hi
  {
    assert lo == (n * lo) / n && hi == (n * hi) / n;
    DivideMonotone(n * lo, sum, n);
    DivideMonotone(sum, n * hi, n);
  }

  lemma DivideMonotone(a: real, b: real, n: real)
    requires a <= b && n > 0.0
    ensures a / n <= b / n
  {
    assert b / n - a / n == (b - a) / n;
  }

  /** Adding a value moves the mean to the weighted combination of the old mean and the
      value, the update the cache would need instead of a recomputation. */
  lemma MeanAppend(s: seq<int>, x: int)
    requires s != []
    ensures Mean(s + [x]) == (|s| as real * Mean(s) + x as real) / (|s| + 1) as real
  {
    SumAppend(s, x);
    var n := |s| as real;
    assert n * (Sum(s) as real / n) == Sum(s) as real;
  }

  /** The mean of equal values is that value. */
  lemma {:induction false} MeanConstant(s: seq<int>, x: int)
    requires s != [] && forall k | 0 <= k < |s| :: s[k] == x
    ensures Mean(s) == x as real
  {
    MeanBounds(s, x, x);
  }

  /** The test average_cache and the examples of average's documentation, step by step. */
  method AverageCache() returns (first: Option<real>, second: Option<real>, popped: seq<Option<int>>,
    last: Option<real>, doc: Option<real>, empty: Option<real>)
    ensures first == Some(5.0) && second == Some(7.5)
    ensures popped == [Some(10), Some(5), None] && last == None
    ensures doc == Some(2.0) && empty == None
  {
    var collection := new AverageCollection.From([5]);
    assert collection.average == None;
    assert Sum([5]) == 5 by {
      assert [5][..0] == [];
    }
    first := collection.Average();
    assert collection.average == Some(5.0);
    collection.Add(10);
    assert collection.average == None;
    assert collection.values == [5, 10];
    assert Sum([5, 10]) == 15 by {
      SumAppend([5], 10);
      assert [5] + [10] == [5, 10];
    }
    second := collection.Average();
    assert collection.average == Some(7.5);
    var p1 := collection.Pop();
    assert collection.average == None;
    assert [5, 10][..1] == [5];
    var p2 := collection.Pop();
    var p3 := collection.Pop();
    popped := [p1, p2, p3];
    last := collection.Average();
    var data := new AverageCollection.From([1, 2, 3]);
    assert Sum([1, 2, 3]) == 6 by {
      assert [1, 2, 3][..2] == [1, 2] && [1, 2][..1] == [1] && [1][..0] == [];
    }
    doc := data.Average();
    var none := new AverageCollection.From([]);
    empty := none.Average();
  }
}
