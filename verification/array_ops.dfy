/**
 The array primitives the RT60 routine is built from, over exact reals:
 element sum, reversal (`a[::-1]`), running sum (`np.cumsum`), the maximum
 (`np.max`), evenly spaced samples (`np.linspace`) and the index list of a
 boolean mask (`np.where(mask)[0]`).
 */
module ArrayOps {

  /** Sum of all elements, left to right. */
  function Sum(s: seq<real>): real
  {
    if s == [] then 0.0 else s[0] + Sum(s[1..])
  }

  lemma {:induction false} SumAppend(a: seq<real>, b: seq<real>)
    ensures Sum(a + b) == Sum(a) + Sum(b)
  {
    if a == [] {
      assert a + b == b;
    } else {
      assert (a + b)[1..] == a[1..] + b;
      SumAppend(a[1..], b);
    }
  }

  /** `s[::-1]`: element k of the result is element |s|-1-k of `s`. */
  function Reverse(s: seq<real>): (r: seq<real>)
    ensures |r| == |s|
    ensures forall k :: 0 <= k < |s| ==> r[k] == s[|s| - 1 - k]
  {
    if s == [] then [] else Reverse(s[1..]) + [s[0]]
  }

  /** Reversal does not change the sum. */
  lemma {:induction false} SumReverse(s: seq<real>)
    ensures Sum(Reverse(s)) == Sum(s)
  {
    if s != [] {
      SumReverse(s[1..]);
      SumAppend(Reverse(s[1..]), [s[0]]);
      assert [s[0]][1..] == [];
    }
  }

  /** The running total that `np.cumsum` accumulates, starting from `acc`. */
  function RunningTotals(acc: real, s: seq<real>): (r: seq<real>)
    ensures |r| == |s|
    decreases |s|
  {
    if s == [] then [] else [acc + s[0]] + RunningTotals(acc + s[0], s[1..])
  }

  /** `np.cumsum(s)`: entry k is the sum of the first k+1 elements. */
  function CumSum(s: seq<real>): (r: seq<real>)
    ensures |r| == |s|
    ensures forall k {:trigger r[k]} :: 0 <= k < |s| ==> r[k] == Sum(s[..k + 1])
  {
    assert forall k :: 0 <= k < |s| ==> RunningTotals(0.0, s)[k] == Sum(s[..k + 1]) by {
      forall k | 0 <= k < |s| ensures RunningTotals(0.0, s)[k] == Sum(s[..k + 1]) {
        RunningTotalsAt(0.0, s, k);
      }
    }
    RunningTotals(0.0, s)
  }

  lemma {:induction false} RunningTotalsAt(acc: real, s: seq<real>, k: nat)
    requires k < |s|
    ensures RunningTotals(acc, s)[k] == acc + Sum(s[..k + 1])
    decreases k
  {
    assert Sum(s[..k + 1]) == s[0] + Sum(s[..k + 1][1..]);
    if k == 0 {
      assert s[..1][1..] == [];
    } else {
      RunningTotalsAt(acc + s[0], s[1..], k - 1);
      assert s[..k + 1][1..] == s[1..][..k];
    }
  }

  /** The first |s|-i elements of the reversal are the reversal of s[i..], so they have its sum. */
  lemma ReversedPrefixSum(s: seq<real>, i: nat)
    requires i < |s|
    ensures Sum(Reverse(s)[..|s| - i]) == Sum(s[i..])
  {
    ReversePrefix(s, i);
    SumReverse(s[i..]);
  }

  lemma {:induction false} ReversePrefix(s: seq<real>, i: nat)
    requires i < |s|
    ensures Reverse(s)[..|s| - i] == Reverse(s[i..])
  {
    assert forall k :: 0 <= k < |s| - i ==> Reverse(s)[..|s| - i][k] == Reverse(s[i..])[k];
  }

  /**
   `np.cumsum(s[::-1])[::-1]`, the reverse cumulative sum: entry i is the sum
   of everything from i to the end.
   */
  function SuffixSum(s: seq<real>): (r: seq<real>)
    ensures |r| == |s|
    ensures forall i {:trigger r[i]} :: 0 <= i < |s| ==> r[i] == Sum(s[i..])
  {
    assert forall i :: 0 <= i < |s| ==> Sum(Reverse(s)[..|s| - i]) == Sum(s[i..]) by {
      forall i | 0 <= i < |s| ensures Sum(Reverse(s)[..|s| - i]) == Sum(s[i..]) {
        ReversedPrefixSum(s, i);
      }
    }
    Reverse(CumSum(Reverse(s)))
  }

  /** The reverse cumulative sum of non-negative values is non-negative. */
  lemma SuffixSumNonNegative(s: seq<real>)
    requires forall k :: 0 <= k < |s| ==> s[k] >= 0.0
    ensures forall i :: 0 <= i < |s| ==> SuffixSum(s)[i] >= 0.0
  {
    forall i | 0 <= i < |s|
      ensures SuffixSum(s)[i] >= 0.0
    {
      SumNonNegative(s[i..]);
    }
  }

  lemma {:induction false} SumNonNegative(s: seq<real>)
    requires forall k :: 0 <= k < |s| ==> s[k] >= 0.0
    ensures Sum(s) >= 0.0
  {
    if s != [] {
      SumNonNegative(s[1..]);
    }
  }

  /** `np.max(s)`: an element of `s` that no element exceeds. */
  function SeqMax(s: seq<real>): (r: real)
    requires |s| >= 1
    ensures forall i :: 0 <= i < |s| ==> s[i] <= r
    ensures exists i :: 0 <= i < |s| && s[i] == r
  {
    if |s| == 1 then s[0]
    else
      var m := SeqMax(s[1..]);
      if s[0] >= m then s[0] else m
  }

  /**
   `np.linspace(start, stop, num)`: `num` evenly spaced values from `start` to
   `stop`, both included; a single value is `start`.
   */
  function Linspace(start: real, stop: real, num: nat): (r: seq<real>)
    ensures |r| == num
    ensures num >= 1 ==> r[0] == start
    ensures num >= 2 ==> r[num - 1] == stop
  {
    if num == 1 then [start]
    else
      var step := (stop - start) / ((num - 1) as real);
      seq(num, k requires 0 <= k < num => start + (k as real) * step)
  }

  /** With two or more values, value k is `start` plus k equal steps of (stop - start) / (num - 1). */
  lemma LinspaceAt(start: real, stop: real, num: nat, k: nat)
    requires 2 <= num && k < num
    ensures Linspace(start, stop, num)[k] == start + (k as real) * ((stop - start) / ((num - 1) as real))
  {
  }

  /** Every value of an increasing `linspace` lies between its endpoints, and all but the first lie above `start`. */
  lemma LinspaceBounds(start: real, stop: real, num: nat, k: nat)
    requires start <= stop && k < num
    ensures start <= Linspace(start, stop, num)[k] <= stop
    ensures 1 <= k && start < stop ==> start < Linspace(start, stop, num)[k]
  {
    if num >= 2 {
      LinspaceAt(start, stop, num, k);
      StepBounds(stop - start, (num - 1) as real, k as real);
    }
  }

  /** A `linspace` from `start` up to a larger `stop` is strictly increasing. */
  lemma LinspaceIncreasing(start: real, stop: real, num: nat, i: nat, j: nat)
    requires start < stop && i < j < num
    ensures Linspace(start, stop, num)[i] < Linspace(start, stop, num)[j]
  {
    var step := (stop - start) / ((num - 1) as real);
    LinspaceAt(start, stop, num, i);
    LinspaceAt(start, stop, num, j);
    StepBounds(stop - start, (num - 1) as real, 1.0);
    assert step > 0.0;
    var gap := ((j - i) as real) - 1.0;
    assert gap >= 0.0;
    assert gap * step >= 0.0;
    assert (j as real) * step - (i as real) * step == gap * step + step;
  }

  /** k steps of d/m, for 0 <= k <= m, stay within [0, d]; one or more steps of a positive d are positive. */
  lemma StepBounds(d: real, m: real, k: real)
    requires d >= 0.0 && m >= 1.0 && 0.0 <= k <= m
    ensures 0.0 <= k * (d / m) <= d
    ensures k >= 1.0 && d > 0.0 ==> k * (d / m) > 0.0
  {
    var step := d / m;
    assert step * m == d;
    assert step >= 0.0;
    assert (m - k) * step >= 0.0;
  }

  /**
   `np.where(mask)[0]`: the indices at which `mask` holds, each once, in
   increasing order.
   */
  function Where(mask: seq<bool>): (r: seq<nat>)
    ensures forall k :: 0 <= k < |r| ==> r[k] < |mask| && mask[r[k]]
    ensures forall i :: 0 <= i < |mask| && mask[i] ==> i in r
    ensures forall a, b :: 0 <= a < b < |r| ==> r[a] < r[b]
  {
    if mask == [] then []
    else
      var last := |mask| - 1;
      Where(mask[..last]) + (if mask[last] then [last] else [])
  }

  /** The first index `np.where` reports is the least index at which the mask holds. */
  lemma WhereFirst(mask: seq<bool>)
    ensures |Where(mask)| > 0 <==> exists i :: 0 <= i < |mask| && mask[i]
    ensures |Where(mask)| > 0 ==> forall j :: 0 <= j < Where(mask)[0] ==> !mask[j]
  {
  }
}
