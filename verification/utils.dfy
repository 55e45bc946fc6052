/** Fragment filtering by mean affinity, and the affinity neighbourhood offsets. */
module Utils {
  import opened Volumes

  /** Affinities with the channel axis first: `affs[c][i]` is channel `c` at voxel `i`. */
  type Affinities = seq<seq<real>>

  /** Every channel covers the fragment volume voxel for voxel. */
  predicate SameShape(affs: Affinities, frags: Volume) {
    forall c :: 0 <= c < |affs| ==> |affs[c]| == |frags|
  }

  /** The sum of the first `n` channels at voxel `i`. */
  function ChannelSum(affs: Affinities, i: nat, n: nat): real
    requires n <= |affs|
    requires forall c :: 0 <= c < |affs| ==> i < |affs[c]|
  {
    if n == 0 then 0.0 else ChannelSum(affs, i, n - 1) + affs[n - 1][i]
  }

  /** The mean over the channels at each of the `size` voxels. */
  function AverageAffinities(affs: Affinities, size: nat): (avg: seq<real>)
    requires |affs| > 0
    requires forall c :: 0 <= c < |affs| ==> |affs[c]| == size
    ensures |avg| == size
  {
    seq(size, i requires 0 <= i < size => ChannelSum(affs, i, |affs|) / (|affs| as real))
  }

  /** The number of voxels of fragment `f`. */
  function FragmentSize(frags: Volume, f: nat): (count: nat)
    ensures count <= |frags|
    ensures count > 0 <==> f in frags
  {
    if |frags| == 0 then 0
    else (if frags[0] == f then 1 else 0) + FragmentSize(frags[1..], f)
  }

  /** The sum of `avg` over the voxels of fragment `f`. */
  function FragmentSum(frags: Volume, avg: seq<real>, f: nat): real
    requires |avg| == |frags|
  {
    if |frags| == 0 then 0.0
    else (if frags[0] == f then avg[0] else 0.0) + FragmentSum(frags[1..], avg[1..], f)
  }

  /** The mean of `avg` over the voxels of fragment `f`, for an id that occurs in `frags`. */
  function FragmentMean(frags: Volume, avg: seq<real>, f: nat): real
    requires |avg| == |frags|
    requires f in frags
  {
    FragmentSum(frags, avg, f) / (FragmentSize(frags, f) as real)
  }

  /** The ids of `ids`, in order, whose fragment mean falls below `threshold`. */
  function BelowThreshold(ids: seq<nat>, frags: Volume, avg: seq<real>, threshold: real): (r: seq<nat>)
    requires |avg| == |frags|
    requires forall k :: 0 <= k < |ids| ==> ids[k] in frags
    ensures forall f :: f in r <==> f in ids && FragmentMean(frags, avg, f) < threshold
  {
    if |ids| == 0 then []
    else
      var rest := BelowThreshold(ids[1..], frags, avg, threshold);
      if FragmentMean(frags, avg, ids[0]) < threshold then [ids[0]] + rest else rest
  }

  /** Every voxel whose id is listed becomes 0; the others keep their id. */
  function ReplaceWithZero(data: Volume, values: seq<nat>): Volume
  {
    seq(|data|, i requires 0 <= i < |data| => if data[i] in values then 0 else data[i])
  }

  /** Fragment `f` is removed: it occurs, and its mean channel-averaged affinity is below the
      threshold. With no channels every average is NaN, and no comparison with NaN is true. */
  ghost predicate Removed(affs: Affinities, frags: Volume, threshold: real, f: nat)
    requires SameShape(affs, frags)
  {
    && |affs| > 0
    && f in frags
    && FragmentMean(frags, AverageAffinities(affs, |frags|), f) < threshold
  }

  /** `filter_fragments`, returning the filtered volume instead of updating it in place. The id 0
      is a candidate like any other, but replacing 0 by 0 changes nothing. */
  function FilterFragments(affs: Affinities, frags: Volume, threshold: real): (r: Volume)
    requires SameShape(affs, frags)
    ensures |r| == |frags|
    ensures forall i :: 0 <= i < |frags| ==> r[i] == 0 || r[i] == frags[i]
    ensures forall i :: 0 <= i < |frags| && Removed(affs, frags, threshold, frags[i]) ==> r[i] == 0
    ensures forall i :: 0 <= i < |frags| && !Removed(affs, frags, threshold, frags[i]) ==> r[i] == frags[i]
  {
    if |affs| == 0 then frags
    else
      var avg := AverageAffinities(affs, |frags|);
      ReplaceWithZero(frags, BelowThreshold(Unique(frags), frags, avg, threshold))
  }

  /** Two volumes that give fragment `f` the same voxels give it the same size and sum. */
  lemma {:induction false} SameVoxelsSameMean(a: Volume, b: Volume, avg: seq<real>, f: nat)
    requires |a| == |b| == |avg|
    requires forall j :: 0 <= j < |a| ==> (a[j] == f <==> b[j] == f)
    ensures FragmentSize(a, f) == FragmentSize(b, f)
    ensures FragmentSum(a, avg, f) == FragmentSum(b, avg, f)
  {
    if |a| > 0 {
      assert forall j :: 0 <= j < |a| - 1 ==> a[1..][j] == a[j + 1] && b[1..][j] == b[j + 1];
      SameVoxelsSameMean(a[1..], b[1..], avg[1..], f);
    }
  }

  /** Filtering is idempotent: a surviving fragment keeps exactly its voxels, hence its mean, and
      so survives again; removed fragments are already 0. */
  lemma FilterIdempotent(affs: Affinities, frags: Volume, threshold: real)
    requires SameShape(affs, frags)
    ensures FilterFragments(affs, FilterFragments(affs, frags, threshold), threshold)
         == FilterFragments(affs, frags, threshold)
  {
    var once := FilterFragments(affs, frags, threshold);
    var twice := FilterFragments(affs, once, threshold);
    forall i | 0 <= i < |frags| ensures twice[i] == once[i] {
      var f := once[i];
      if f != 0 && |affs| > 0 {
        assert f == frags[i] && !Removed(affs, frags, threshold, f);
        forall j | 0 <= j < |frags| ensures once[j] == f <==> frags[j] == f {
          if frags[j] == f { assert !Removed(affs, frags, threshold, frags[j]); }
        }
        var avg := AverageAffinities(affs, |frags|);
        assert AverageAffinities(affs, |once|) == avg;
        SameVoxelsSameMean(once, frags, avg, f);
        assert once[i] in once;
        assert !Removed(affs, once, threshold, once[i]);
      }
    }
  }

  /** The 30 affinity offsets: unit, double, fourfold and eightfold steps along each axis, then
      three long-range rings of six offsets, one in each axis-aligned plane. */
  function Neighborhood(): (offsets: seq<seq<int>>)
    ensures |offsets| == 30
    ensures forall k :: 0 <= k < |offsets| ==> |offsets[k]| == 3 && offsets[k] != [0, 0, 0]
  {
    [
      [1, 0, 0], [0, 1, 0], [0, 0, 1],
      [2, 0, 0], [0, 2, 0], [0, 0, 2],
      [4, 0, 0], [0, 4, 0], [0, 0, 4],
      [8, 0, 0], [0, 8, 0], [0, 0, 8],
      [0, -3, -7], [0, -6, -6], [0, -7, -3], [0, -7, 3], [0, -6, 6], [0, -3, 7],
      [-3, 0, -7], [-6, 0, -6], [-7, 0, -3], [-7, 0, 3], [-6, 0, 6], [-3, 0, 7],
      [-3, -7, 0], [-6, -6, 0], [-7, -3, 0], [-7, 3, 0], [-6, 6, 0], [-3, 7, 0]
    ]
  }

}
