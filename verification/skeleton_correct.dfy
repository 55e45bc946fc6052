/** The per-block worker of the skeleton-based segmentation correction: every fragment of the
    block is painted with the single non-zero reference label it overlaps, or left at 0 when it
    overlaps none or several; the result is optionally eroded, and two masks are derived from it. */
module SkeletonCorrect {
  import opened Results
  import opened Volumes

  datatype BlockError = ShapeMismatch

  /** What a block writes: the segmentation, the all-ones labels mask and the unlabelled mask
      (1 where the segmentation is non-zero). Both masks hold only 0 and 1. */
  datatype BlockOutput = BlockOutput(seg: Volume, labelsMask: seq<nat>, unlabelledMask: seq<nat>)

  /** The raster values under the voxels of fragment `f`, in voxel order. */
  function Masked(frags: Volume, raster: Volume, f: nat): (r: seq<nat>)
    requires |frags| == |raster|
    ensures forall x :: x in r <==> exists i :: 0 <= i < |frags| && frags[i] == f && raster[i] == x
    decreases |frags|
  {
    if |frags| == 0 then []
    else
      var rest := Masked(frags[1..], raster[1..], f);
      assert forall i :: 1 <= i < |frags| ==> frags[i] == frags[1..][i - 1] && raster[i] == raster[1..][i - 1];
      (if frags[0] == f then [raster[0]] else []) + rest
  }

  /** The candidate labels the worker lists for fragment `f`: the distinct raster values under it
      in ascending order, with a leading background 0 dropped. */
  function SegIds(frags: Volume, raster: Volume, f: nat): seq<nat>
    requires |frags| == |raster|
  {
    var ids := Unique(Masked(frags, raster, f));
    if |ids| > 0 && ids[0] == 0 then ids[1..] else ids
  }

  /** The label painted over fragment `f`, or 0 when the fragment is left unresolved. */
  function FragmentLabel(frags: Volume, raster: Volume, f: nat): nat
    requires |frags| == |raster|
  {
    var ids := SegIds(frags, raster, f);
    if |ids| == 1 then ids[0] else 0
  }

  /** The distinct non-zero reference labels that fragment `f` overlaps. */
  ghost function NonZeroOverlap(frags: Volume, raster: Volume, f: nat): set<nat>
    requires |frags| == |raster|
  {
    set i | 0 <= i < |frags| && frags[i] == f && raster[i] != 0 :: raster[i]
  }

  /** The worker's list manipulation (sort, drop a leading 0) lists exactly the non-zero
      overlapping labels, each once. */
  lemma SegIdsAreNonZeroOverlap(frags: Volume, raster: Volume, f: nat)
    requires |frags| == |raster|
    ensures Elements(SegIds(frags, raster, f)) == NonZeroOverlap(frags, raster, f)
    ensures |SegIds(frags, raster, f)| == |NonZeroOverlap(frags, raster, f)|
  {
    var ids := Unique(Masked(frags, raster, f));
    var seg := SegIds(frags, raster, f);
    assert 0 !in seg;
    assert StrictlyIncreasing(seg);
    forall x | x in Elements(seg) ensures x in NonZeroOverlap(frags, raster, f) {
      var m :| 0 <= m < |seg| && seg[m] == x;
      assert x in ids by {
        if |ids| > 0 && ids[0] == 0 { assert ids[m + 1] == x; } else { assert ids[m] == x; }
      }
      var i :| 0 <= i < |frags| && frags[i] == f && raster[i] == x;
    }
    forall x | x in NonZeroOverlap(frags, raster, f) ensures x in Elements(seg) {
      var i :| 0 <= i < |frags| && frags[i] == f && raster[i] != 0 && raster[i] == x;
      assert x in ids;
    }
    DistinctLength(seg);
  }

  /** The label a fragment gets is decided by its non-zero overlap alone: exactly one label is
      assigned, anything else leaves 0. */
  lemma FragmentLabelSpec(frags: Volume, raster: Volume, f: nat)
    requires |frags| == |raster|
    ensures |NonZeroOverlap(frags, raster, f)| == 1 ==> NonZeroOverlap(frags, raster, f) == {FragmentLabel(frags, raster, f)}
    ensures |NonZeroOverlap(frags, raster, f)| != 1 ==> FragmentLabel(frags, raster, f) == 0
  {
    SegIdsAreNonZeroOverlap(frags, raster, f);
    var seg := SegIds(frags, raster, f);
    if |seg| == 1 {
      assert Elements(seg) == {seg[0]};
    }
  }

  /** Reference semantics of the correction: voxel by voxel, background fragments stay 0 and
      every other voxel carries its fragment's label. */
  function Corrected(frags: Volume, raster: Volume): (seg: Volume)
    requires |frags| == |raster|
    ensures |seg| == |frags|
  {
    seq(|frags|, i requires 0 <= i < |frags| =>
      if frags[i] == 0 then 0 else FragmentLabel(frags, raster, frags[i]))
  }

  /** Sets every voxel of fragment `f` to `refLabel`, leaving the other voxels as they are. */
  function Paint(seg: Volume, frags: Volume, f: nat, refLabel: nat): (r: Volume)
    requires |seg| == |frags|
    ensures |r| == |seg|
  {
    seq(|seg|, i requires 0 <= i < |seg| => if frags[i] == f then refLabel else seg[i])
  }

  /** The worker's loop: start from zeros, and for each listed non-zero fragment id paint the
      fragment when exactly one candidate label remains. Any list of the block's fragment ids that
      names every fragment gives the reference result, so the order of the ids is irrelevant: fragments
      write disjoint voxel sets. */
  method PaintFragments(frags: Volume, raster: Volume, ids: seq<nat>) returns (seg: Volume)
    requires |frags| == |raster|
    requires forall i :: 0 <= i < |frags| ==> frags[i] in ids
    requires forall k :: 0 <= k < |ids| ==> ids[k] in frags
    ensures seg == Corrected(frags, raster)
  {
    var spec := Corrected(frags, raster);
    seg := seq(|frags|, _ => 0);
    var k := 0;
    while k < |ids|
      invariant 0 <= k <= |ids|
      invariant |seg| == |frags|
      invariant forall i :: 0 <= i < |frags| ==> seg[i] == (if frags[i] in ids[..k] then spec[i] else 0)
    {
      var f := ids[k];
      if f != 0 {
        var candidates := SegIds(frags, raster, f);
        if |candidates| == 1 {
          seg := Paint(seg, frags, f, candidates[0]);
        }
      }
      assert ids[..k + 1] == ids[..k] + [f];
      k := k + 1;
    }
    assert ids[..k] == ids;
  }

  /** One erosion round, followed by a dilation when `alternateDilate` is set. */
  function RefineRound(seg: Volume, erode: Volume -> Volume, alternateDilate: bool, dilate: Volume -> Volume): Volume
  {
    var eroded := erode(seg);
    if alternateDilate then dilate(eroded) else eroded
  }

  /** `iterations` refinement rounds. */
  function Refine(seg: Volume, iterations: nat, erode: Volume -> Volume, alternateDilate: bool, dilate: Volume -> Volume): Volume
    decreases iterations
  {
    if iterations == 0 then seg
    else Refine(RefineRound(seg, erode, alternateDilate, dilate), iterations - 1, erode, alternateDilate, dilate)
  }

  /** The masks agree with the segmentation they were derived from. */
  predicate MasksConsistent(out: BlockOutput) {
    && |out.labelsMask| == |out.seg|
    && |out.unlabelledMask| == |out.seg|
    && (forall i :: 0 <= i < |out.labelsMask| ==> out.labelsMask[i] == 1)
    && (forall i :: 0 <= i < |out.seg| ==> out.unlabelledMask[i] <= 1)
    && (forall i :: 0 <= i < |out.seg| ==> (out.unlabelledMask[i] == 1 <==> out.seg[i] > 0))
  }

  /** The block worker. Reading both volumes over the block and the three writes are left to the
      caller; `erode` and `dilate` stand for the morphology library's operations. */
  method SkelCorrectWorker(frags: Volume, raster: Volume, erodeIterations: nat,
                           erode: Volume -> Volume, alternateDilate: bool, dilate: Volume -> Volume)
    returns (r: Result<BlockOutput, BlockError>)
    ensures r.Err? <==> |raster| != |frags|
    ensures r.Ok? && erodeIterations == 0 ==> r.value.seg == Corrected(frags, raster)
    ensures r.Ok? ==> MasksConsistent(r.value)
  {
    if |raster| != |frags| {
      return Err(ShapeMismatch);
    }
    var seg := PaintFragments(frags, raster, Unique(frags));
    seg := Refine(seg, erodeIterations, erode, alternateDilate, dilate);
    var labelsMask := seq(|seg|, _ => 1);
    var unlabelledMask := seq(|seg|, i requires 0 <= i < |seg| => if seg[i] > 0 then 1 else 0);
    return Ok(BlockOutput(seg, labelsMask, unlabelledMask));
  }

  /** A fragment whose only non-zero overlap is `refLabel` gets that label on every voxel, also on
      voxels whose own raster value is 0. */
  lemma UnambiguousFragment(frags: Volume, raster: Volume, f: nat, refLabel: nat)
    requires |frags| == |raster|
    requires f != 0
    requires NonZeroOverlap(frags, raster, f) == {refLabel}
    ensures forall i :: 0 <= i < |frags| && frags[i] == f ==> Corrected(frags, raster)[i] == refLabel
  {
    FragmentLabelSpec(frags, raster, f);
  }

  /** A fragment overlapping two or more distinct non-zero labels is dropped. */
  lemma AmbiguousFragment(frags: Volume, raster: Volume, f: nat)
    requires |frags| == |raster|
    requires |NonZeroOverlap(frags, raster, f)| >= 2
    ensures forall i :: 0 <= i < |frags| && frags[i] == f ==> Corrected(frags, raster)[i] == 0
  {
    FragmentLabelSpec(frags, raster, f);
  }

  /** A fragment that overlaps only background is dropped: 0 is never assigned as a label. */
  lemma BackgroundOnlyFragment(frags: Volume, raster: Volume, f: nat)
    requires |frags| == |raster|
    requires forall i :: 0 <= i < |frags| && frags[i] == f ==> raster[i] == 0
    ensures forall i :: 0 <= i < |frags| && frags[i] == f ==> Corrected(frags, raster)[i] == 0
  {
    FragmentLabelSpec(frags, raster, f);
    assert NonZeroOverlap(frags, raster, f) == {};
  }

  /** Background fragments stay 0, and every non-zero output label is a reference label found
      under a voxel of the same fragment. */
  lemma LabelProvenance(frags: Volume, raster: Volume, i: nat)
    requires |frags| == |raster|
    requires i < |frags|
    ensures frags[i] == 0 ==> Corrected(frags, raster)[i] == 0
    ensures Corrected(frags, raster)[i] != 0 ==>
      exists j :: 0 <= j < |frags| && frags[j] == frags[i] && raster[j] == Corrected(frags, raster)[i]
  {
    FragmentLabelSpec(frags, raster, frags[i]);
    var refLabel := Corrected(frags, raster)[i];
    if refLabel != 0 {
      assert refLabel in NonZeroOverlap(frags, raster, frags[i]);
    }
  }

  /** Two fragments under one shared label both take it. */
  lemma ScenarioSharedLabel()
    ensures Corrected([1, 1, 2, 2], [5, 5, 5, 5]) == [5, 5, 5, 5]
  {
  }

  /** One fragment under two labels is dropped. */
  lemma ScenarioAmbiguous()
    ensures Corrected([1, 1], [5, 6]) == [0, 0]
  {
  }

}
