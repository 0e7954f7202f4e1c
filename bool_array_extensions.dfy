/** The bounded linear search of Chummer/Backend/Static/Extensions/BoolArrayExtensions.cs. */
module BoolArrayExtensions {
  import opened Common

  datatype SearchResult = Index(i: int) | ArgumentNull

  /** The clamped lower bound: a negative start is raised to 0. */
  function ClampFrom(from: int): nat {
    if from < 0 then 0 else from
  }

  /** The clamped upper bound: an end beyond the array is lowered to its length. */
  function ClampTo(to: int, length: nat): int {
    if to > length then length else to
  }

  /** Some index of `s` in `[lo, hi)` holds `value`. */
  predicate HasMatch(s: seq<bool>, value: bool, lo: int, hi: int) {
    exists k :: lo <= k < hi && 0 <= k < |s| && s[k] == value
  }

  /**
   * `FirstMatching(array, value, from, to)`: the first index in `[max(from, 0), min(to, length))`
   * whose element is `value`, or -1 when there is none; a null array is an ArgumentNullException.
   */
  method FirstMatching(a: array?<bool>, value: bool, from: Int32, to: Int32) returns (r: SearchResult)
    ensures a == null <==> r == ArgumentNull
    ensures a != null ==> r.Index?
    ensures a != null && r.Index? && r.i >= 0 ==>
      ClampFrom(from) <= r.i < ClampTo(to, a.Length) && a[r.i] == value &&
      forall k :: ClampFrom(from) <= k < r.i ==> a[k] != value
    ensures a != null && r.Index? ==>
      (r.i == -1 <==> !HasMatch(a[..], value, ClampFrom(from), ClampTo(to, a.Length)))
    ensures a != null && r.Index? ==> r.i >= -1
  {
    if a == null {
      return ArgumentNull;
    }
    var hi := to;
    if hi > a.Length {
      hi := a.Length;
    }
    var i := from;
    if i < 0 {
      i := 0;
    }
    while i < hi
      invariant ClampFrom(from) <= i
      invariant i <= hi || i == ClampFrom(from)
      invariant forall k :: ClampFrom(from) <= k < i && k < hi ==> a[k] != value
    {
      if a[i] == value {
        return Index(i);
      }
      i := i + 1;
    }
    assert !HasMatch(a[..], value, ClampFrom(from), ClampTo(to, a.Length)) by {
      forall k | ClampFrom(from) <= k < ClampTo(to, a.Length) && 0 <= k < a.Length
        ensures a[..][k] != value
      {
      }
    }
    return Index(-1);
  }

  /** The default arguments `from = 0`, `to = int.MaxValue` search the whole array. */
  method FirstMatchingWholeArray(a: array<bool>, value: bool) returns (r: SearchResult)
    requires a.Length <= IntMaxValue
    ensures r.Index?
    ensures r.i == -1 <==> value !in a[..]
    ensures r.i >= 0 ==> r.i < a.Length && a[r.i] == value && value !in a[..r.i]
  {
    r := FirstMatching(a, value, 0, IntMaxValue);
    if r.i >= 0 {
      assert value !in a[..r.i] by {
        forall k | 0 <= k < r.i ensures a[..r.i][k] != value {
        }
      }
    } else {
      assert value !in a[..] by {
        assert !HasMatch(a[..], value, 0, a.Length);
        forall k | 0 <= k < a.Length ensures a[..][k] != value {
          if a[..][k] == value {
            assert HasMatch(a[..], value, 0, a.Length);
          }
        }
      }
    }
  }
}
