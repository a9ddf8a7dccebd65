/**
 * `get_median_distribution`: one median per (volume, mask) pair, in the order of
 * the pairs, over `zip(main_files, mask_files)` and therefore over as many
 * pairs as the shorter list holds. The median itself (numpy's, which yields NaN
 * on an empty selection) is a parameter of the model.
 */
module MedianDistribution {
  import opened Outcomes
  import opened MaskedValues

  /** A loaded volume and its loaded mask, both flattened. */
  type Pair = (seq<Voxel>, seq<Voxel>)

  /** The pair at position `pair` (from zero) made the selection raise. */
  datatype PairError = PairError(pair: nat, mismatch: ShapeMismatch)

  /** `zip(a, b)`: the pairs in order, cut to the shorter list. */
  function Zip<A, B>(a: seq<A>, b: seq<B>): (z: seq<(A, B)>)
    ensures |z| == if |a| < |b| then |a| else |b|
    ensures forall i :: 0 <= i < |z| ==> z[i] == (a[i], b[i])
    decreases |a|
  {
    if |a| == 0 || |b| == 0 then [] else [(a[0], b[0])] + Zip(a[1..], b[1..])
  }

  /** The pair's volume and mask agree in shape. */
  predicate Matches(p: Pair) {
    |p.0| == |p.1|
  }

  /**
   * The loop over the pairs: the median of every pair's selection, or the
   * first pair whose selection raises.
   */
  function Medians(pairs: seq<Pair>, median: seq<real> -> Voxel): (r: Result<seq<Voxel>, PairError>)
    ensures r.Success? <==> forall i :: 0 <= i < |pairs| ==> Matches(pairs[i])
    ensures r.Success? ==> |r.value| == |pairs|
    ensures r.Success? ==> forall i :: 0 <= i < |pairs| ==> r.value[i] == median(Select(pairs[i].0, pairs[i].1))
    ensures r.Failure? ==> r.error.pair < |pairs| && !Matches(pairs[r.error.pair])
    ensures r.Failure? ==> r.error.mismatch == ShapeMismatch(|pairs[r.error.pair].0|, |pairs[r.error.pair].1|)
    ensures r.Failure? ==> forall j :: 0 <= j < r.error.pair ==> Matches(pairs[j])
    decreases |pairs|
  {
    if |pairs| == 0 then Success([])
    else
      var last := |pairs| - 1;
      match Medians(pairs[..last], median)
      case Failure(e) => Failure(e)
      case Success(ms) =>
        match ValuesInsideMask(pairs[last].0, pairs[last].1)
        case Failure(e) => Failure(PairError(last, e))
        case Success(values) => Success(ms + [median(values)])
  }

  /** `get_median_distribution(main_files, mask_files)` on loaded volumes. */
  function GetMedianDistribution(mains: seq<seq<Voxel>>, masks: seq<seq<Voxel>>, median: seq<real> -> Voxel)
    : (r: Result<seq<Voxel>, PairError>)
    ensures r.Success? <==> forall i :: 0 <= i < |mains| && i < |masks| ==> |mains[i]| == |masks[i]|
    ensures r.Success? ==> |r.value| == if |mains| < |masks| then |mains| else |masks|
    ensures r.Success? ==> forall i :: 0 <= i < |r.value| ==>
      |mains[i]| == |masks[i]| && r.value[i] == median(Select(mains[i], masks[i]))
    ensures r.Failure? ==> r.error.pair < |mains| && r.error.pair < |masks|
    ensures r.Failure? ==> |mains[r.error.pair]| != |masks[r.error.pair]|
    ensures r.Failure? ==> forall j :: 0 <= j < r.error.pair ==> |mains[j]| == |masks[j]|
  {
    var pairs := Zip(mains, masks);
    var r := Medians(pairs, median);
    assert forall i :: 0 <= i < |pairs| ==> pairs[i] == (mains[i], masks[i]);
    r
  }

  /** The `for` loop of `get_median_distribution`, appending one median per pair. */
  method MedianDistributionLoop(mains: seq<seq<Voxel>>, masks: seq<seq<Voxel>>, median: seq<real> -> Voxel)
    returns (r: Result<seq<Voxel>, PairError>)
    ensures r == GetMedianDistribution(mains, masks, median)
  {
    var pairs := Zip(mains, masks);
    var medians: seq<Voxel> := [];
    var i := 0;
    while i < |pairs|
      invariant 0 <= i <= |pairs|
      invariant Medians(pairs[..i], median) == Success(medians)
    {
      var prefix := pairs[..i + 1];
      assert prefix[..i] == pairs[..i] && prefix[i] == pairs[i];
      var (main, mask) := pairs[i];
      match ValuesInsideMask(main, mask) {
        case Failure(e) =>
          assert Medians(prefix, median) == Failure(PairError(i, e));
          assert pairs == prefix + pairs[i + 1..];
          r := Failure(PairError(i, e));
          return;
        case Success(values) =>
          medians := medians + [median(values)];
          assert Medians(prefix, median) == Success(medians);
      }
      i := i + 1;
    }
    assert pairs[..i] == pairs;
    r := Success(medians);
  }

  /** Mask files beyond the last volume are never read, and the other way round. */
  lemma ZipTruncates(mains: seq<seq<Voxel>>, masks: seq<seq<Voxel>>, median: seq<real> -> Voxel)
    requires |mains| <= |masks|
    ensures GetMedianDistribution(mains, masks, median) == GetMedianDistribution(mains, masks[..|mains|], median)
    ensures GetMedianDistribution(masks, mains, median) == GetMedianDistribution(masks[..|mains|], mains, median)
  {
    assert Zip(mains, masks) == Zip(mains, masks[..|mains|]);
    assert Zip(masks, mains) == Zip(masks[..|mains|], mains);
  }
}
