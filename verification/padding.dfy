/** `pad` from dcpcr/utils/utils.py: fixes the point axis of an array to
    `n_points` rows, optionally after drawing rows at random without
    replacement, and returns a validity mask alongside. */
module Padding {
  import opened Results
  import opened Arrays

  /** The `shuffle` flag together with the random source behind it.
      `np.random.choice(n, k, replace=False)` returns the first `k` entries of a
      random permutation of `0..n-1`; `Shuffle(perm)` passes that permutation in. */
  datatype Sampling = Keep | Shuffle(perm: seq<nat>)

  /** The two results of `pad`: the resized array and its `[n_points x 1]` mask. */
  datatype Padded = Padded(out: Matrix, mask: Mask)

  /** The batched results of `pad`: the resized array and one mask per batch element. */
  datatype PaddedBatch = PaddedBatch(out: Batch, masks: seq<Mask>)

  /** Pairwise distinct positions, all below `n`. */
  predicate DistinctIndices(idx: seq<nat>, n: nat) {
    && (forall i :: 0 <= i < |idx| ==> idx[i] < n)
    && (forall i, j :: 0 <= i < j < |idx| ==> idx[i] != idx[j])
  }

  /** What the random source may return: every position of `0..n-1` once. */
  predicate IsPermutation(perm: seq<nat>, n: nat) {
    |perm| == n && DistinctIndices(perm, n)
  }

  /** Fancy indexing `array[idx, :]`: the rows at the given positions, in order. */
  function Gather<T>(s: seq<T>, idx: seq<nat>): seq<T>
    requires forall i :: 0 <= i < |idx| ==> idx[i] < |s|
  {
    seq(|idx|, i requires 0 <= i < |idx| => s[idx[i]])
  }

  /** Removing the position that holds `n` from distinct positions below
      `n + 1` leaves distinct positions below `n`. */
  lemma RemoveLargest(idx: seq<nat>, n: nat, p: nat)
    requires DistinctIndices(idx, n + 1)
    requires p < |idx| && idx[p] == n
    ensures DistinctIndices(idx[..p] + idx[p + 1..], n)
  {
  }

  /** Drawing at `idx` from `init + [x]`, where `idx[p]` is the position of `x`,
      is the draw from `init` at the other positions with `x` put back at `p`. */
  lemma GatherLast<T>(init: seq<T>, x: T, idx: seq<nat>, p: nat)
    requires forall i :: 0 <= i < |idx| ==> idx[i] <= |init|
    requires p < |idx| && idx[p] == |init|
    requires forall i :: 0 <= i < |idx| && i != p ==> idx[i] < |init|
    ensures
      var g' := Gather(init, idx[..p] + idx[p + 1..]);
      Gather(init + [x], idx) == g'[..p] + [x] + g'[p..]
  {
  }

  /** Putting `x` back at position `p` adds one `x` to the multiset. */
  lemma MultisetInsert<T>(g: seq<T>, p: nat, x: T)
    requires p <= |g|
    ensures multiset(g[..p] + [x] + g[p..]) == multiset(g) + multiset{x}
  {
    assert g == g[..p] + g[p..];
  }

  /** Drawing at distinct positions takes each element at most once, so the
      draw is a sub-multiset of the source, never longer than it, and the whole
      source reordered when it is as long. */
  lemma {:induction false} GatherDistinct<T>(s: seq<T>, idx: seq<nat>)
    requires DistinctIndices(idx, |s|)
    ensures |idx| <= |s|
    ensures multiset(Gather(s, idx)) <= multiset(s)
    ensures |idx| == |s| ==> multiset(Gather(s, idx)) == multiset(s)
    decreases |s|
  {
    if |idx| == 0 {
      assert Gather(s, idx) == [];
    } else {
      assert idx[0] < |s|;
      var last := |s| - 1;
      var init := s[..last];
      assert s == init + [s[last]];
      assert multiset(s) == multiset(init) + multiset{s[last]};
      if p :| 0 <= p < |idx| && idx[p] == last {
        var rest := idx[..p] + idx[p + 1..];
        RemoveLargest(idx, last, p);
        GatherDistinct(init, rest);
        GatherLast(init, s[last], idx, p);
        MultisetInsert(Gather(init, rest), p, s[last]);
      } else {
        assert DistinctIndices(idx, last);
        GatherDistinct(init, idx);
        assert Gather(s, idx) == Gather(init, idx);
      }
    }
  }

  /** The `shuffle` step of `pad` (utils.py:71-73): with `Shuffle(perm)` keep the
      rows at `perm[..nPoints]`; drawing more rows than exist, or a negative
      number, raises. */
  function Sample(a: Matrix, nPoints: int, sampling: Sampling): (r: Result<Matrix>)
    requires a.Valid()
    requires sampling.Shuffle? ==> IsPermutation(sampling.perm, |a.rows|)
    ensures sampling.Keep? ==> r == Ok(a)
    ensures r.Err? <==> sampling.Shuffle? && (nPoints > |a.rows| || nPoints < 0)
    ensures sampling.Shuffle? && nPoints > |a.rows| ==> r == Err(SampleExceedsPopulation)
    ensures sampling.Shuffle? && nPoints < 0 ==> r == Err(NegativeDimension)
    ensures r.Ok? ==> r.value.Valid() && r.value.width == a.width
    ensures r.Ok? && sampling.Shuffle? ==>
      && |r.value.rows| == nPoints
      && r.value.rows == Gather(a.rows, sampling.perm[..nPoints])
      && DistinctIndices(sampling.perm[..nPoints], |a.rows|)
      && multiset(r.value.rows) <= multiset(a.rows)
      && (nPoints == |a.rows| ==> multiset(r.value.rows) == multiset(a.rows))
  {
    match sampling
    case Keep => Ok(a)
    case Shuffle(perm) =>
      if nPoints > |a.rows| then Err(SampleExceedsPopulation)
      else if nPoints < 0 then Err(NegativeDimension)
      else
        var idx := perm[..nPoints];
        assert DistinctIndices(idx, |a.rows|);
        GatherDistinct(a.rows, idx);
        Ok(Matrix(a.width, Gather(a.rows, idx)))
  }

  /** The `pad=True` step for one two-dimensional array (utils.py:76-86): the
      first `l = min(nPoints, n)` rows, then zero rows up to `nPoints`, with the
      mask marking the copied rows. */
  function PadRows(a: Matrix, nPoints: nat): (r: Padded)
    requires a.Valid()
    ensures r.out.Valid() && r.out.width == a.width
    ensures |r.out.rows| == nPoints && |r.mask| == nPoints
    ensures forall i :: 0 <= i < nPoints ==> r.mask[i] == [i < |a.rows|]
    ensures forall i :: 0 <= i < nPoints && i < |a.rows| ==> r.out.rows[i] == a.rows[i]
    ensures forall i :: |a.rows| <= i < nPoints ==> r.out.rows[i] == ZeroRow(a.width)
  {
    var l := Min(nPoints, |a.rows|);
    Padded(Matrix(a.width, a.rows[..l] + Zeros(nPoints - l, a.width)), seq(nPoints, i => [i < l]))
  }

  /** `pad(array, n_points, pad, shuffle)` on a two-dimensional array. */
  function Pad(a: Matrix, nPoints: int, pad: bool, sampling: Sampling): (r: Result<Padded>)
    requires a.Valid()
    requires sampling.Shuffle? ==> IsPermutation(sampling.perm, |a.rows|)
    ensures r.Err? <==>
      || (sampling.Shuffle? && nPoints > |a.rows|)
      || ((sampling.Shuffle? || pad) && nPoints < 0)
    ensures r.Err? ==> (r.error == SampleExceedsPopulation <==> nPoints > |a.rows|)
    ensures r.Err? ==> (r.error == NegativeDimension <==> nPoints < 0)
    ensures r.Ok? ==>
      && r.value.out.Valid()
      && r.value.out.width == a.width
      && |r.value.mask| == |r.value.out.rows|
    ensures r.Ok? && pad ==> |r.value.out.rows| == nPoints
    ensures r.Ok? && !pad ==> forall i :: 0 <= i < |r.value.mask| ==> r.value.mask[i] == [true]
    ensures r.Ok? && !pad && sampling.Keep? ==> r.value.out == a
    ensures r.Ok? && pad && sampling.Keep? ==>
      forall i :: 0 <= i < nPoints ==>
        && r.value.mask[i] == [i < |a.rows|]
        && r.value.out.rows[i] == (if i < |a.rows| then a.rows[i] else ZeroRow(a.width))
    ensures r.Ok? && sampling.Shuffle? ==>
      && |r.value.out.rows| == nPoints
      && r.value.out.rows == Gather(a.rows, sampling.perm[..nPoints])
      && (forall i :: 0 <= i < |r.value.mask| ==> r.value.mask[i] == [true])
      && multiset(r.value.out.rows) <= multiset(a.rows)
  {
    var s :- Sample(a, nPoints, sampling);
    if !pad then Ok(Padded(s, AllValid(|s.rows|)))
    else if nPoints < 0 then Err(NegativeDimension)
    else
      var r := PadRows(s, nPoints);
      assert sampling.Shuffle? ==> r.out.rows == s.rows;
      Ok(r)
  }

  /** The same padding computed the way utils.py does it: start from an
      all-zero array and an all-false mask, then overwrite the first `l` rows. */
  method PadInPlace(a: Matrix, nPoints: nat) returns (out: seq<Row>, mask: Mask)
    requires a.Valid()
    ensures Padded(Matrix(a.width, out), mask) == PadRows(a, nPoints)
  {
    var l := Min(nPoints, |a.rows|);
    out := Zeros(nPoints, a.width);
    mask := seq(nPoints, _ => [false]);
    var i := 0;
    while i < l
      invariant 0 <= i <= l
      invariant |out| == nPoints && |mask| == nPoints
      invariant forall k :: 0 <= k < i ==> out[k] == a.rows[k] && mask[k] == [true]
      invariant forall k :: i <= k < nPoints ==> out[k] == ZeroRow(a.width) && mask[k] == [false]
    {
      out := out[i := a.rows[i]];
      mask := mask[i := [true]];
      i := i + 1;
    }
    ghost var r := PadRows(a, nPoints);
    assert out == r.out.rows;
    assert mask == r.mask;
  }

  /** The `shuffle` step on a batch: the same positions drawn from every element. */
  function SampleBatch(b: Batch, perm: seq<nat>, nPoints: nat): (s: Batch)
    requires b.Valid()
    requires IsPermutation(perm, b.points) && nPoints <= b.points
    ensures s.Valid() && s.points == nPoints && s.width == b.width && |s.items| == |b.items|
  {
    var idx := perm[..nPoints];
    var items := seq(|b.items|, j requires 0 <= j < |b.items| => Gather(b.items[j], idx));
    assert forall j :: 0 <= j < |items| ==> Matrix(b.width, items[j]).Valid() by {
      forall j | 0 <= j < |items|
        ensures Matrix(b.width, items[j]).Valid()
      {
        assert b.Item(j).Valid();
      }
    }
    Batch(nPoints, b.width, items)
  }

  /** The `pad=True` step on a batch: every element gets its first `l` rows
      followed by zero rows; all masks mark the first `l` rows. */
  function PadBatchRows(s: Batch, nPoints: nat): (r: PaddedBatch)
    requires s.Valid()
    ensures r.out.Valid() && r.out.points == nPoints && r.out.width == s.width
    ensures |r.out.items| == |s.items| && |r.masks| == |s.items|
    ensures forall j :: 0 <= j < |s.items| ==> |r.masks[j]| == nPoints
    ensures forall j, i :: 0 <= j < |s.items| && 0 <= i < nPoints ==>
      && r.masks[j][i] == [i < s.points]
      && r.out.items[j][i] == (if i < s.points then s.items[j][i] else ZeroRow(s.width))
  {
    var l := Min(nPoints, s.points);
    var out := seq(|s.items|, j requires 0 <= j < |s.items| => s.items[j][..l] + Zeros(nPoints - l, s.width));
    assert forall j :: 0 <= j < |out| ==> |out[j]| == nPoints && Matrix(s.width, out[j]).Valid() by {
      forall j | 0 <= j < |out|
        ensures |out[j]| == nPoints && Matrix(s.width, out[j]).Valid()
      {
        assert s.Item(j).Valid() && |s.items[j]| == s.points;
        assert out[j] == s.items[j][..l] + Zeros(nPoints - l, s.width);
      }
    }
    forall j, i | 0 <= j < |s.items| && 0 <= i < nPoints
      ensures out[j][i] == (if i < s.points then s.items[j][i] else ZeroRow(s.width))
    {
      assert s.Item(j).Valid() && |s.items[j]| == s.points;
      assert out[j] == s.items[j][..l] + Zeros(nPoints - l, s.width);
    }
    PaddedBatch(Batch(nPoints, s.width, out), seq(|s.items|, _ => seq(nPoints, i => [i < l])))
  }

  /** `pad` on a three-dimensional array (utils.py:87-96): the same row
      selection and prefix copy for every batch element. */
  function PadBatch(b: Batch, nPoints: int, pad: bool, sampling: Sampling): (r: Result<PaddedBatch>)
    requires b.Valid()
    requires sampling.Shuffle? ==> IsPermutation(sampling.perm, b.points)
    ensures r.Err? <==>
      || (sampling.Shuffle? && nPoints > b.points)
      || ((sampling.Shuffle? || pad) && nPoints < 0)
    ensures r.Err? ==> (r.error == SampleExceedsPopulation <==> nPoints > b.points)
    ensures r.Err? ==> (r.error == NegativeDimension <==> nPoints < 0)
    ensures r.Ok? ==>
      && r.value.out.Valid()
      && r.value.out.width == b.width
      && |r.value.out.items| == |b.items|
      && |r.value.masks| == |b.items|
      && (forall j :: 0 <= j < |b.items| ==> |r.value.masks[j]| == r.value.out.points)
    ensures r.Ok? && (pad || sampling.Shuffle?) ==> r.value.out.points == nPoints
    ensures r.Ok? && !pad && sampling.Keep? ==> r.value.out == b
    ensures r.Ok? && sampling.Shuffle? ==>
      forall j :: 0 <= j < |b.items| ==> r.value.out.items[j] == Gather(b.items[j], sampling.perm[..nPoints])
  {
    if sampling.Shuffle? && nPoints > b.points then Err(SampleExceedsPopulation)
    else if (sampling.Shuffle? || pad) && nPoints < 0 then Err(NegativeDimension)
    else
      var s := if sampling.Shuffle? then SampleBatch(b, sampling.perm, nPoints) else b;
      if !pad then Ok(PaddedBatch(s, seq(|b.items|, _ => AllValid(s.points))))
      else
        var r := PadBatchRows(s, nPoints);
        assert sampling.Shuffle? ==> forall j :: 0 <= j < |b.items| ==> r.out.items[j] == s.items[j] by {
          if sampling.Shuffle? {
            forall j | 0 <= j < |b.items| ensures r.out.items[j] == s.items[j] {
              assert s.Item(j).Valid();
              assert r.out.items[j] == s.items[j][..nPoints] + Zeros(0, s.width);
            }
          }
        }
        Ok(r)
  }

  /** The batched branch agrees, element by element, with the two-dimensional
      branch under the same random draw. */
  lemma PadBatchIsPadPerItem(b: Batch, nPoints: int, pad: bool, sampling: Sampling, j: nat)
    requires b.Valid()
    requires sampling.Shuffle? ==> IsPermutation(sampling.perm, b.points)
    requires j < |b.items|
    requires PadBatch(b, nPoints, pad, sampling).Ok?
    ensures
      var r := PadBatch(b, nPoints, pad, sampling).value;
      Pad(b.Item(j), nPoints, pad, sampling) == Ok(Padded(r.out.Item(j), r.masks[j]))
  {
  }

  /** With `nPoints <= n` padding is a silent truncation to the first `nPoints`
      rows, all of them valid. */
  lemma PadTruncates(a: Matrix, nPoints: nat)
    requires a.Valid()
    requires nPoints <= |a.rows|
    ensures PadRows(a, nPoints).out.rows == a.rows[..nPoints]
    ensures PadRows(a, nPoints).mask == AllValid(nPoints)
  {
  }

  /** With `nPoints >= n` padding keeps every input row, in order, and appends
      zero rows, exactly the appended rows being masked out. */
  lemma PadExtends(a: Matrix, nPoints: nat)
    requires a.Valid()
    requires |a.rows| <= nPoints
    ensures PadRows(a, nPoints).out.rows == a.rows + Zeros(nPoints - |a.rows|, a.width)
    ensures PadRows(a, nPoints).mask == AllValid(|a.rows|) + seq(nPoints - |a.rows|, _ => [false])
  {
  }

  /** Every masked-out row of a padded array is all zeros. */
  lemma MaskedRowsAreZero(a: Matrix, nPoints: nat)
    requires a.Valid()
    ensures
      var r := PadRows(a, nPoints);
      forall i :: 0 <= i < nPoints && r.mask[i] == [false] ==> IsZeroRow(r.out.rows[i])
  {
  }

  /** Padding an already padded array to the same size changes nothing. */
  lemma PadIdempotent(a: Matrix, nPoints: nat)
    requires a.Valid()
    ensures
      var once := PadRows(a, nPoints).out;
      PadRows(once, nPoints).out == once
  {
  }
}
