/**
 * `_get_values_inside_a_mask`: the values of a volume at the voxels that hold a
 * number (not NaN) and whose mask value is strictly positive. Both volumes are
 * given already loaded and flattened in the same (C) order; the boolean index
 * of numpy keeps the selected values in that order.
 */
module MaskedValues {
  import opened Outcomes

  /** One voxel of a floating-point volume: a number or NaN. */
  datatype Voxel = NaN | Num(value: real)

  /** The volume and the mask disagree in shape. */
  datatype ShapeMismatch = ShapeMismatch(dataSize: nat, maskSize: nat)

  /** `mask > 0`: NaN compares false. */
  predicate InMask(m: Voxel) {
    m.Num? && m.value > 0.0
  }

  /** `logical_and(logical_not(isnan(v)), m > 0)`. */
  predicate Kept(v: Voxel, m: Voxel) {
    v.Num? && InMask(m)
  }

  /** The flat positions the selection keeps, in increasing order. */
  function KeptPositions(data: seq<Voxel>, mask: seq<Voxel>): (ps: seq<nat>)
    requires |data| == |mask|
    ensures forall k :: 0 <= k < |ps| ==> ps[k] < |data| && Kept(data[ps[k]], mask[ps[k]])
    ensures forall k, l :: 0 <= k < l < |ps| ==> ps[k] < ps[l]
    ensures forall i :: 0 <= i < |data| && Kept(data[i], mask[i]) ==> i in ps
    decreases |data|
  {
    if |data| == 0 then []
    else
      var last := |data| - 1;
      var ps := KeptPositions(data[..last], mask[..last]);
      if Kept(data[last], mask[last]) then ps + [last] else ps
  }

  /** The selected values, position by position. */
  function Select(data: seq<Voxel>, mask: seq<Voxel>): (r: seq<real>)
    requires |data| == |mask|
    ensures |r| == |KeptPositions(data, mask)|
    ensures forall k :: 0 <= k < |r| ==> r[k] == data[KeptPositions(data, mask)[k]].value
    decreases |data|
  {
    if |data| == 0 then []
    else
      var last := |data| - 1;
      var r := Select(data[..last], mask[..last]);
      if Kept(data[last], mask[last]) then r + [data[last].value] else r
  }

  /** `_get_values_inside_a_mask` on loaded volumes: a shape mismatch makes numpy raise. */
  function ValuesInsideMask(data: seq<Voxel>, mask: seq<Voxel>): (r: Result<seq<real>, ShapeMismatch>)
    ensures r.Failure? <==> |data| != |mask|
    ensures r.Failure? ==> r.error == ShapeMismatch(|data|, |mask|)
    ensures r.Success? ==> |r.value| == |KeptPositions(data, mask)|
    ensures r.Success? ==> forall k :: 0 <= k < |r.value| ==> r.value[k] == data[KeptPositions(data, mask)[k]].value
    ensures r.Success? ==> forall v :: v in r.value ==>
      exists i :: 0 <= i < |data| && Kept(data[i], mask[i]) && data[i] == Num(v)
  {
    if |data| != |mask| then Failure(ShapeMismatch(|data|, |mask|))
    else
      var r := Select(data, mask);
      assert forall v :: v in r ==> exists i :: 0 <= i < |data| && Kept(data[i], mask[i]) && data[i] == Num(v) by {
        forall v | v in r
          ensures exists i :: 0 <= i < |data| && Kept(data[i], mask[i]) && data[i] == Num(v)
        {
          var k :| 0 <= k < |r| && r[k] == v;
          var i := KeptPositions(data, mask)[k];
          assert Kept(data[i], mask[i]) && data[i] == Num(v);
        }
      }
      Success(r)
  }

  /** The elements of a strictly increasing sequence are as many as its positions. */
  lemma {:induction false} IncreasingCard(ps: seq<int>)
    requires forall k, l :: 0 <= k < l < |ps| ==> ps[k] < ps[l]
    ensures |set p | p in ps| == |ps|
    decreases |ps|
  {
    if |ps| > 0 {
      var init, last := ps[..|ps| - 1], ps[|ps| - 1];
      assert ps == init + [last];
      IncreasingCard(init);
      var before := set p | p in init;
      assert last !in before by {
        forall k | 0 <= k < |init|
          ensures init[k] < last
        {
          assert ps[k] < ps[|ps| - 1];
        }
      }
      var after := set p | p in ps;
      assert after == before + {last};
      assert |after| == |before| + 1;
    }
  }

  /** Exactly one value per kept voxel: the count equals the number of kept positions. */
  lemma SelectCount(data: seq<Voxel>, mask: seq<Voxel>)
    requires |data| == |mask|
    ensures |Select(data, mask)| == |set i | 0 <= i < |data| && Kept(data[i], mask[i])|
  {
    var ps := KeptPositions(data, mask);
    IncreasingCard(ps);
    assert (set i | 0 <= i < |data| && Kept(data[i], mask[i])) == (set p | p in ps);
  }

  /** A NaN-free volume under a mask positive everywhere keeps every value, in order. */
  lemma {:induction false} FullMaskKeepsAll(data: seq<Voxel>, mask: seq<Voxel>)
    requires |data| == |mask|
    requires forall i :: 0 <= i < |data| ==> data[i].Num? && InMask(mask[i])
    ensures Select(data, mask) == seq(|data|, i requires 0 <= i < |data| => data[i].value)
    decreases |data|
  {
    if |data| > 0 {
      var last := |data| - 1;
      FullMaskKeepsAll(data[..last], mask[..last]);
    }
  }

  /** A mask that is nowhere positive keeps nothing. */
  lemma {:induction false} EmptyMaskKeepsNothing(data: seq<Voxel>, mask: seq<Voxel>)
    requires |data| == |mask|
    requires forall i :: 0 <= i < |mask| ==> !InMask(mask[i])
    ensures Select(data, mask) == []
    decreases |data|
  {
    if |data| > 0 {
      var last := |data| - 1;
      EmptyMaskKeepsNothing(data[..last], mask[..last]);
    }
  }
}
