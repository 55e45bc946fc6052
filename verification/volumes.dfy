/** Flat label volumes and the ascending distinct-value listing (numpy's `unique`) that both the
    fragment corrector and the fragment filter iterate over. */
module Volumes {

  /** A label volume flattened to one dimension; label 0 is background. No operation here depends
      on the voxel order. */
  type Volume = seq<nat>

  predicate StrictlyIncreasing(s: seq<nat>) {
    forall i, j :: 0 <= i < j < |s| ==> s[i] < s[j]
  }

  /** The values of a sequence, as a set. */
  ghost function Elements(s: seq<nat>): set<nat> {
    set x | x in s
  }

  /** Inserts `x` into an ascending duplicate-free list, keeping it so. */
  function InsertSorted(x: nat, s: seq<nat>): (r: seq<nat>)
    requires StrictlyIncreasing(s)
    ensures StrictlyIncreasing(r)
    ensures forall y :: y in r <==> y == x || y in s
  {
    if |s| == 0 then [x]
    else if x < s[0] then [x] + s
    else if x == s[0] then s
    else
      var t := InsertSorted(x, s[1..]);
      assert forall k :: 0 <= k < |t| ==> s[0] < t[k] by {
        forall k | 0 <= k < |t| ensures s[0] < t[k] {
          assert t[k] in t;
          if t[k] != x {
            var m :| 0 <= m < |s[1..]| && s[1..][m] == t[k];
            assert s[m + 1] == t[k];
          }
        }
      }
      [s[0]] + t
  }

  /** `np.unique`: the distinct values of `s` in ascending order. */
  function Unique(s: seq<nat>): (r: seq<nat>)
    ensures StrictlyIncreasing(r)
    ensures forall x :: x in r <==> x in s
  {
    if |s| == 0 then [] else InsertSorted(s[0], Unique(s[1..]))
  }

  /** A duplicate-free list is as long as the set of its values is large. */
  lemma {:induction false} DistinctLength(s: seq<nat>)
    requires StrictlyIncreasing(s)
    ensures |Elements(s)| == |s|
  {
    if |s| > 0 {
      DistinctLength(s[1..]);
      assert Elements(s) == {s[0]} + Elements(s[1..]);
      assert s[0] !in Elements(s[1..]);
    }
  }

}
