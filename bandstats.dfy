/** Per-band statistics of the zone (ZonalStats.py:137-174): the window of
    each band is read, pixels outside the burnt zone and nodata pixels are
    masked, and average, mean and variance of the rest are stored under the
    band's key. Values are exact reals. */
module BandStats {
  import opened Outcome
  import opened Geometry
  import opened GdalInfo

  /** A raster band or window as rows of pixel values. */
  type Grid = seq<seq<real>>

  predicate Shaped(g: Grid, cols: int, rows: int)
  {
    |g| == rows && forall r :: 0 <= r < |g| ==> |g[r]| == cols
  }

  predicate SameShape(a: Grid, b: Grid)
  {
    |a| == |b| && forall r :: 0 <= r < |a| ==> |a[r]| == |b[r]|
  }

  /** A pixel takes part iff the burn mask is non-zero there and, when a
      nodata value is known, the pixel differs from it. */
  predicate Keep(pixel: real, maskValue: real, nodata: Option<int>)
  {
    maskValue != 0.0 && (nodata.None? || pixel != nodata.value as real)
  }

  function KeptRow(pixels: seq<real>, mask: seq<real>, nodata: Option<int>): seq<real>
    requires |pixels| == |mask|
  {
    if pixels == [] then []
    else (if Keep(pixels[0], mask[0], nodata) then [pixels[0]] else [])
         + KeptRow(pixels[1..], mask[1..], nodata)
  }

  /** The unmasked pixels, row by row. */
  function Kept(data: Grid, mask: Grid, nodata: Option<int>): seq<real>
    requires SameShape(data, mask)
  {
    if data == [] then []
    else KeptRow(data[0], mask[0], nodata) + Kept(data[1..], mask[1..], nodata)
  }

  lemma {:induction false} KeptRowMembers(pixels: seq<real>, mask: seq<real>, nodata: Option<int>, v: real)
    requires |pixels| == |mask|
    ensures v in KeptRow(pixels, mask, nodata) <==>
      exists c :: 0 <= c < |pixels| && Keep(pixels[c], mask[c], nodata) && pixels[c] == v
  {
    if pixels != [] {
      KeptRowMembers(pixels[1..], mask[1..], nodata, v);
      if exists c :: 0 <= c < |pixels| && Keep(pixels[c], mask[c], nodata) && pixels[c] == v {
        var c :| 0 <= c < |pixels| && Keep(pixels[c], mask[c], nodata) && pixels[c] == v;
        if c > 0 {
          assert pixels[1..][c - 1] == pixels[c] && mask[1..][c - 1] == mask[c];
        }
      }
      if v in KeptRow(pixels[1..], mask[1..], nodata) {
        var c :| 0 <= c < |pixels| - 1 && Keep(pixels[1..][c], mask[1..][c], nodata) && pixels[1..][c] == v;
        assert pixels[c + 1] == pixels[1..][c];
      }
    }
  }

  /** A value is among the kept pixels exactly when some pixel holding it
      passes the mask and nodata test. */
  lemma {:induction false} KeptMembers(data: Grid, mask: Grid, nodata: Option<int>, v: real)
    requires SameShape(data, mask)
    ensures v in Kept(data, mask, nodata) <==>
      exists r, c :: 0 <= r < |data| && 0 <= c < |data[r]|
                     && Keep(data[r][c], mask[r][c], nodata) && data[r][c] == v
  {
    if data != [] {
      KeptRowMembers(data[0], mask[0], nodata, v);
      KeptMembers(data[1..], mask[1..], nodata, v);
      if exists r, c :: 0 <= r < |data| && 0 <= c < |data[r]|
                        && Keep(data[r][c], mask[r][c], nodata) && data[r][c] == v {
        var r, c :| 0 <= r < |data| && 0 <= c < |data[r]|
                    && Keep(data[r][c], mask[r][c], nodata) && data[r][c] == v;
        if r > 0 {
          assert data[1..][r - 1] == data[r] && mask[1..][r - 1] == mask[r];
        }
      }
      if v in Kept(data[1..], mask[1..], nodata) {
        var r, c :| 0 <= r < |data| - 1 && 0 <= c < |data[1..][r]|
                    && Keep(data[1..][r][c], mask[1..][r][c], nodata) && data[1..][r][c] == v;
        assert data[r + 1] == data[1..][r] && mask[r + 1] == mask[1..][r];
      }
    }
  }

  /** The kept pixels of a row are exactly the pixels at the kept positions,
      each taken once and in column order: `idx` lists those positions,
      strictly increasing. */
  lemma {:induction false} KeptRowPositions(pixels: seq<real>, mask: seq<real>, nodata: Option<int>)
    returns (idx: seq<nat>)
    requires |pixels| == |mask|
    ensures |idx| == |KeptRow(pixels, mask, nodata)|
    ensures forall k :: 0 <= k < |idx| ==>
      idx[k] < |pixels| && KeptRow(pixels, mask, nodata)[k] == pixels[idx[k]]
    ensures forall k, l :: 0 <= k < l < |idx| ==> idx[k] < idx[l]
    ensures forall c :: 0 <= c < |pixels| ==> (Keep(pixels[c], mask[c], nodata) <==> c in idx)
  {
    if pixels == [] {
      idx := [];
    } else {
      var rest := KeptRowPositions(pixels[1..], mask[1..], nodata);
      var shifted := seq(|rest|, k requires 0 <= k < |rest| => rest[k] + 1);
      ShiftedMembers(rest, shifted);
      ShiftedCover(pixels, mask, nodata, rest, shifted);
      var keep := Keep(pixels[0], mask[0], nodata);
      idx := if keep then [0] + shifted else shifted;
      ShiftedValues(pixels, KeptRow(pixels[1..], mask[1..], nodata), keep, rest, shifted, idx);
    }
  }

  lemma ShiftedValues(pixels: seq<real>, more: seq<real>, keep: bool, rest: seq<nat>, shifted: seq<nat>,
                      idx: seq<nat>)
    requires pixels != []
    requires |rest| == |more|
    requires forall k :: 0 <= k < |rest| ==> rest[k] < |pixels[1..]| && more[k] == pixels[1..][rest[k]]
    requires forall k, l :: 0 <= k < l < |rest| ==> rest[k] < rest[l]
    requires |shifted| == |rest| && forall k :: 0 <= k < |rest| ==> shifted[k] == rest[k] + 1
    requires idx == if keep then [0] + shifted else shifted
    ensures |idx| == |(if keep then [pixels[0]] else []) + more|
    ensures forall k :: 0 <= k < |idx| ==>
      idx[k] < |pixels| && ((if keep then [pixels[0]] else []) + more)[k] == pixels[idx[k]]
    ensures forall k, l :: 0 <= k < l < |idx| ==> idx[k] < idx[l]
  {
    forall k | 0 <= k < |rest| ensures shifted[k] < |pixels| && more[k] == pixels[shifted[k]] {
      assert pixels[1..][rest[k]] == pixels[rest[k] + 1];
    }
    if keep {
      var row := [pixels[0]] + more;
      forall k | 1 <= k < |idx| ensures row[k] == more[k - 1] && idx[k] == shifted[k - 1] {
      }
    }
  }

  lemma ShiftedCover(pixels: seq<real>, mask: seq<real>, nodata: Option<int>, rest: seq<nat>, shifted: seq<nat>)
    requires |pixels| == |mask| && pixels != []
    requires forall c :: 0 <= c < |pixels[1..]| ==> (Keep(pixels[1..][c], mask[1..][c], nodata) <==> c in rest)
    requires forall c: nat :: c in shifted <==> c > 0 && c - 1 in rest
    ensures forall c :: 1 <= c < |pixels| ==> (Keep(pixels[c], mask[c], nodata) <==> c in shifted)
  {
    forall c | 1 <= c < |pixels|
      ensures Keep(pixels[c], mask[c], nodata) <==> c in shifted
    {
      assert pixels[1..][c - 1] == pixels[c] && mask[1..][c - 1] == mask[c];
    }
  }

  lemma ShiftedMembers(rest: seq<nat>, shifted: seq<nat>)
    requires |shifted| == |rest| && forall k :: 0 <= k < |rest| ==> shifted[k] == rest[k] + 1
    ensures forall c: nat :: c in shifted <==> c > 0 && c - 1 in rest
  {
    forall c: nat | c > 0 && c - 1 in rest ensures c in shifted {
      var k :| 0 <= k < |rest| && rest[k] == c - 1;
      assert shifted[k] == c;
    }
  }

  /** Position (row, column) comes before another in row-major order. */
  predicate Before(a: (nat, nat), b: (nat, nat))
  {
    a.0 < b.0 || (a.0 == b.0 && a.1 < b.1)
  }

  /** The kept pixels are exactly the pixels at the kept positions, each
      taken once and in row-major order, so the sum, the mean and the
      variance count every included pixel once and no other pixel. */
  lemma {:induction false} KeptPositions(data: Grid, mask: Grid, nodata: Option<int>)
    returns (pos: seq<(nat, nat)>)
    requires SameShape(data, mask)
    ensures |pos| == |Kept(data, mask, nodata)|
    ensures forall k :: 0 <= k < |pos| ==>
      pos[k].0 < |data| && pos[k].1 < |data[pos[k].0]|
      && Kept(data, mask, nodata)[k] == data[pos[k].0][pos[k].1]
    ensures forall k, l :: 0 <= k < l < |pos| ==> Before(pos[k], pos[l])
    ensures forall r, c :: 0 <= r < |data| && 0 <= c < |data[r]| ==>
      (Keep(data[r][c], mask[r][c], nodata) <==> (r, c) in pos)
  {
    if data == [] {
      pos := [];
    } else {
      var idx := KeptRowPositions(data[0], mask[0], nodata);
      var rest := KeptPositions(data[1..], mask[1..], nodata);
      var head := seq(|idx|, k requires 0 <= k < |idx| => (0, idx[k]));
      var tail := seq(|rest|, k requires 0 <= k < |rest| => (rest[k].0 + 1, rest[k].1));
      pos := head + tail;
      KeptValues(data, mask, nodata, idx, rest, head, tail);
      KeptOrder(idx, rest, head, tail);
      KeptCover(data, mask, nodata, idx, rest, head, tail);
    }
  }

  lemma KeptValues(data: Grid, mask: Grid, nodata: Option<int>, idx: seq<nat>, rest: seq<(nat, nat)>,
                   head: seq<(nat, nat)>, tail: seq<(nat, nat)>)
    requires SameShape(data, mask) && data != []
    requires |idx| == |KeptRow(data[0], mask[0], nodata)|
    requires forall k :: 0 <= k < |idx| ==>
      idx[k] < |data[0]| && KeptRow(data[0], mask[0], nodata)[k] == data[0][idx[k]]
    requires |rest| == |Kept(data[1..], mask[1..], nodata)|
    requires forall k :: 0 <= k < |rest| ==>
      rest[k].0 < |data[1..]| && rest[k].1 < |data[1..][rest[k].0]|
      && Kept(data[1..], mask[1..], nodata)[k] == data[1..][rest[k].0][rest[k].1]
    requires |head| == |idx| && forall k :: 0 <= k < |idx| ==> head[k] == (0, idx[k])
    requires |tail| == |rest| && forall k :: 0 <= k < |rest| ==> tail[k] == (rest[k].0 + 1, rest[k].1)
    ensures |head + tail| == |Kept(data, mask, nodata)|
    ensures forall k :: 0 <= k < |head + tail| ==>
      (head + tail)[k].0 < |data| && (head + tail)[k].1 < |data[(head + tail)[k].0]|
      && Kept(data, mask, nodata)[k] == data[(head + tail)[k].0][(head + tail)[k].1]
  {
    var row := KeptRow(data[0], mask[0], nodata);
    var more := Kept(data[1..], mask[1..], nodata);
    assert Kept(data, mask, nodata) == row + more;
    forall k | |head| <= k < |head + tail|
      ensures Kept(data, mask, nodata)[k] == data[tail[k - |head|].0][tail[k - |head|].1]
    {
      var j := k - |head|;
      assert data[1..][rest[j].0] == data[rest[j].0 + 1];
    }
  }

  lemma KeptOrder(idx: seq<nat>, rest: seq<(nat, nat)>, head: seq<(nat, nat)>, tail: seq<(nat, nat)>)
    requires forall k, l :: 0 <= k < l < |idx| ==> idx[k] < idx[l]
    requires forall k, l :: 0 <= k < l < |rest| ==> Before(rest[k], rest[l])
    requires |head| == |idx| && forall k :: 0 <= k < |idx| ==> head[k] == (0, idx[k])
    requires |tail| == |rest| && forall k :: 0 <= k < |rest| ==> tail[k] == (rest[k].0 + 1, rest[k].1)
    ensures forall k, l :: 0 <= k < l < |head + tail| ==> Before((head + tail)[k], (head + tail)[l])
  {
    forall k, l | 0 <= k < l < |head + tail| ensures Before((head + tail)[k], (head + tail)[l]) {
      if l < |head| {
        assert Before(head[k], head[l]);
      } else if k >= |head| {
        assert Before(rest[k - |head|], rest[l - |head|]);
      }
    }
  }

  lemma KeptCover(data: Grid, mask: Grid, nodata: Option<int>, idx: seq<nat>, rest: seq<(nat, nat)>,
                  head: seq<(nat, nat)>, tail: seq<(nat, nat)>)
    requires SameShape(data, mask) && data != []
    requires forall c :: 0 <= c < |data[0]| ==> (Keep(data[0][c], mask[0][c], nodata) <==> c in idx)
    requires forall r, c :: 0 <= r < |data[1..]| && 0 <= c < |data[1..][r]| ==>
      (Keep(data[1..][r][c], mask[1..][r][c], nodata) <==> (r, c) in rest)
    requires |head| == |idx| && forall k :: 0 <= k < |idx| ==> head[k] == (0, idx[k])
    requires |tail| == |rest| && forall k :: 0 <= k < |rest| ==> tail[k] == (rest[k].0 + 1, rest[k].1)
    ensures forall r, c :: 0 <= r < |data| && 0 <= c < |data[r]| ==>
      (Keep(data[r][c], mask[r][c], nodata) <==> (r, c) in head + tail)
  {
    forall r, c | 0 <= r < |data| && 0 <= c < |data[r]|
      ensures Keep(data[r][c], mask[r][c], nodata) <==> (r, c) in head + tail
    {
      if r == 0 {
        assert (0, c) in head <==> c in idx by {
          if c in idx {
            var k :| 0 <= k < |idx| && idx[k] == c;
            assert head[k] == (0, c);
          }
        }
        assert (0, c) !in tail;
      } else {
        assert data[1..][r - 1] == data[r] && mask[1..][r - 1] == mask[r];
        assert (r, c) in tail <==> (r - 1, c) in rest by {
          if (r - 1, c) in rest {
            var k :| 0 <= k < |rest| && rest[k] == (r - 1, c);
            assert tail[k] == (r, c);
          }
        }
        assert (r, c) !in head;
      }
    }
  }

  /** How often a value occurs among the kept pixels is the number of kept
      positions holding it: every kept pixel enters the sum, the mean and the
      variance once, and no other pixel enters them. */
  lemma KeptMultiplicity(data: Grid, mask: Grid, nodata: Option<int>, v: real)
    requires SameShape(data, mask)
    ensures multiset(Kept(data, mask, nodata))[v]
         == |set r: nat, c: nat | r < |data| && c < |data[r]| && Keep(data[r][c], mask[r][c], nodata)
                                  && data[r][c] == v :: (r, c)|
  {
    var pos := KeptPositions(data, mask, nodata);
    var kept := Kept(data, mask, nodata);
    forall k, l | 0 <= k < l < |pos| ensures pos[k] != pos[l] {
      assert Before(pos[k], pos[l]);
    }
    DistinctImageCount(pos, kept, v);
    ImageIsKeptSet(data, mask, nodata, pos, kept, v);
  }

  lemma ImageIsKeptSet(data: Grid, mask: Grid, nodata: Option<int>, pos: seq<(nat, nat)>, kept: seq<real>,
                       v: real)
    requires SameShape(data, mask) && |pos| == |kept|
    requires forall k :: 0 <= k < |pos| ==>
      pos[k].0 < |data| && pos[k].1 < |data[pos[k].0]| && kept[k] == data[pos[k].0][pos[k].1]
    requires forall r, c :: 0 <= r < |data| && 0 <= c < |data[r]| ==>
      (Keep(data[r][c], mask[r][c], nodata) <==> (r, c) in pos)
    ensures (set k | 0 <= k < |pos| && kept[k] == v :: pos[k])
         == (set r: nat, c: nat | r < |data| && c < |data[r]| && Keep(data[r][c], mask[r][c], nodata)
                                  && data[r][c] == v :: (r, c))
  {
    var image := set k | 0 <= k < |pos| && kept[k] == v :: pos[k];
    var wanted := set r: nat, c: nat | r < |data| && c < |data[r]| && Keep(data[r][c], mask[r][c], nodata)
                                       && data[r][c] == v :: (r, c);
    forall q | q in image ensures q in wanted {
      var k :| 0 <= k < |pos| && kept[k] == v && pos[k] == q;
    }
    forall q | q in wanted ensures q in image {
      var k :| 0 <= k < |pos| && pos[k] == q;
    }
  }

  /** A sequence of distinct positions paired with values: the number of
      times `v` occurs among the values is the number of positions paired
      with it. */
  lemma {:induction false} DistinctImageCount(pos: seq<(nat, nat)>, vals: seq<real>, v: real)
    requires |pos| == |vals|
    requires forall k, l :: 0 <= k < l < |pos| ==> pos[k] != pos[l]
    ensures multiset(vals)[v] == |set k | 0 <= k < |pos| && vals[k] == v :: pos[k]|
  {
    if pos != [] {
      var n := |pos| - 1;
      var pre, front := pos[..n], vals[..n];
      DistinctImageCount(pre, front, v);
      assert vals == front + [vals[n]];
      assert multiset(vals) == multiset(front) + multiset{vals[n]};
      var part := set k | 0 <= k < |pre| && front[k] == v :: pre[k];
      ImageSnoc(pos, vals, v);
      assert forall k :: 0 <= k < n ==> pos[k] != pos[n];
      assert pos[n] !in part;
    }
  }

  lemma ImageSnoc(pos: seq<(nat, nat)>, vals: seq<real>, v: real)
    requires |pos| == |vals| && pos != []
    ensures var n := |pos| - 1;
      (set k | 0 <= k < |pos| && vals[k] == v :: pos[k])
      == (set k | 0 <= k < |pos[..n]| && vals[..n][k] == v :: pos[..n][k])
         + (if vals[n] == v then {pos[n]} else {})
  {
    var n := |pos| - 1;
    var whole := set k | 0 <= k < |pos| && vals[k] == v :: pos[k];
    var part := set k | 0 <= k < |pos[..n]| && vals[..n][k] == v :: pos[..n][k];
    var last: set<(nat, nat)> := if vals[n] == v then {pos[n]} else {};
    forall q | q in whole ensures q in part + last {
      var k :| 0 <= k < |pos| && vals[k] == v && pos[k] == q;
      if k < n {
        assert pos[..n][k] == q && vals[..n][k] == v;
      }
    }
    forall q | q in part + last ensures q in whole {
      if q in part {
        var k :| 0 <= k < |pos[..n]| && vals[..n][k] == v && pos[..n][k] == q;
        assert pos[k] == q && vals[k] == v;
      }
    }
  }

  /** Without a nodata value at least as many pixels are kept. */
  lemma {:induction false} NodataOnlyRemoves(data: Grid, mask: Grid, v: int)
    requires SameShape(data, mask)
    ensures |Kept(data, mask, Some(v))| <= |Kept(data, mask, None)|
  {
    if data != [] {
      RowNodataOnlyRemoves(data[0], mask[0], v);
      NodataOnlyRemoves(data[1..], mask[1..], v);
    }
  }

  lemma {:induction false} RowNodataOnlyRemoves(pixels: seq<real>, mask: seq<real>, v: int)
    requires |pixels| == |mask|
    ensures |KeptRow(pixels, mask, Some(v))| <= |KeptRow(pixels, mask, None)|
  {
    if pixels != [] {
      RowNodataOnlyRemoves(pixels[1..], mask[1..], v);
    }
  }

  function Sum(s: seq<real>): real
  {
    if s == [] then 0.0 else s[0] + Sum(s[1..])
  }

  /** `numpy.mean` (and `numpy.average` without weights) of the kept pixels. */
  function Mean(s: seq<real>): real
    requires |s| > 0
  {
    Sum(s) / |s| as real
  }

  function Product(a: real, b: real): real
  {
    a * b
  }

  /** The square, written as a product of two arguments so that sums of
      squares stay linear in the square terms. */
  function Square(x: real): real
  {
    Product(x, x)
  }

  /** Sum of squared deviations from `m`. */
  function SquaredDeviation(s: seq<real>, m: real): real
  {
    if s == [] then 0.0 else Square(s[0] - m) + SquaredDeviation(s[1..], m)
  }

  /** `numpy.var`: the population variance, divided by the number of kept pixels. */
  function Variance(s: seq<real>): real
    requires |s| > 0
  {
    SquaredDeviation(s, Mean(s)) / |s| as real
  }

  /** The statistics stored for one band; `AllMasked` stands for the masked
      constant numpy returns when every pixel is masked. */
  datatype Stats = Stats(avg: real, mean: real, variance: real) | AllMasked

  function StatsOf(kept: seq<real>): (r: Stats)
    ensures r.AllMasked? <==> kept == []
    ensures r.Stats? ==> r.avg == r.mean
  {
    if kept == [] then AllMasked else Stats(Mean(kept), Mean(kept), Variance(kept))
  }

  lemma {:induction false} SumBounds(s: seq<real>, lo: real, hi: real)
    requires forall k :: 0 <= k < |s| ==> lo <= s[k] <= hi
    ensures |s| as real * lo <= Sum(s) <= |s| as real * hi
  {
    if s != [] {
      assert forall k :: 0 <= k < |s| - 1 ==> s[1..][k] == s[k + 1];
      SumBounds(s[1..], lo, hi);
      BoundStep(|s| as real, |s[1..]| as real, lo, hi, s[0], Sum(s[1..]), Sum(s));
    }
  }

  /** One more summand within [lo, hi] keeps the total within n times the bounds. */
  lemma BoundStep(m: real, n: real, lo: real, hi: real, x: real, rest: real, total: real)
    requires m == n + 1.0 && total == x + rest
    requires lo <= x <= hi && n * lo <= rest <= n * hi
    ensures m * lo <= total <= m * hi
  {
    assert m * lo == lo + n * lo;
    assert m * hi == hi + n * hi;
  }

  /** The mean lies between any lower and upper bound of the kept pixels. */
  lemma MeanBetween(s: seq<real>, lo: real, hi: real)
    requires |s| > 0
    requires forall k :: 0 <= k < |s| ==> lo <= s[k] <= hi
    ensures lo <= Mean(s) <= hi
  {
    SumBounds(s, lo, hi);
    DivideBounds(Sum(s), |s| as real, lo, hi);
  }

  lemma DivideBounds(total: real, n: real, lo: real, hi: real)
    requires n > 0.0 && n * lo <= total <= n * hi
    ensures lo <= total / n <= hi
  {
    assert total / n * n == total;
  }

  lemma {:induction false} SquaredDeviationNonNegative(s: seq<real>, m: real)
    ensures SquaredDeviation(s, m) >= 0.0
  {
    if s != [] {
      SquaredDeviationNonNegative(s[1..], m);
      SquareSign(s[0] - m);
    }
  }

  lemma ProductOfPositives(a: real, b: real)
    requires a > 0.0 && b > 0.0
    ensures Product(a, b) > 0.0
  {
  }

  lemma ProductOfNegatives(a: real, b: real)
    requires a < 0.0 && b < 0.0
    ensures Product(a, b) > 0.0
  {
    assert Product(a, b) == Product(-a, -b);
    ProductOfPositives(-a, -b);
  }

  /** A square is never negative and is zero only at zero. */
  lemma SquareSign(x: real)
    ensures Square(x) >= 0.0
    ensures x != 0.0 ==> Square(x) > 0.0
  {
    if x > 0.0 {
      ProductOfPositives(x, x);
    } else if x < 0.0 {
      ProductOfNegatives(x, x);
    }
  }

  lemma VarianceNonNegative(s: seq<real>)
    requires |s| > 0
    ensures Variance(s) >= 0.0
  {
    SquaredDeviationNonNegative(s, Mean(s));
  }

  lemma {:induction false} SquaredDeviationZero(s: seq<real>, m: real)
    ensures SquaredDeviation(s, m) == 0.0 <==> forall k :: 0 <= k < |s| ==> s[k] == m
  {
    if s != [] {
      SquaredDeviationZero(s[1..], m);
      SquaredDeviationNonNegative(s[1..], m);
      SquareSign(s[0] - m);
      assert forall k :: 1 <= k < |s| ==> s[k] == s[1..][k - 1];
    }
  }

  /** The variance is zero exactly when every kept pixel equals the mean. */
  lemma VarianceZero(s: seq<real>)
    requires |s| > 0
    ensures Variance(s) == 0.0 <==> forall k :: 0 <= k < |s| ==> s[k] == Mean(s)
  {
    SquaredDeviationZero(s, Mean(s));
    var n := |s| as real;
    assert Variance(s) * n == SquaredDeviation(s, Mean(s));
  }

  /** A zone of equal pixels has that value as mean and no variance. */
  lemma UniformZone(s: seq<real>, v: real)
    requires |s| > 0 && forall k :: 0 <= k < |s| ==> s[k] == v
    ensures Mean(s) == v && Variance(s) == 0.0
  {
    MeanBetween(s, v, v);
    VarianceZero(s);
  }

  /** Band statistics always have a non-negative variance and a mean inside
      the range of the kept pixels. */
  lemma StatsRange(kept: seq<real>)
    ensures StatsOf(kept).Stats? ==>
      StatsOf(kept).variance >= 0.0
      && MinOf(kept) <= StatsOf(kept).mean <= MaxOf(kept)
  {
    if kept != [] {
      VarianceNonNegative(kept);
      MeanBetween(kept, MinOf(kept), MaxOf(kept));
    }
  }

  /** A 2x2 zone whose diagonal holds the nodata value -9999 keeps the two
      pixels of value 5. */
  lemma NodataPixelsIgnored()
    ensures var kept := Kept([[-9999.0, 5.0], [5.0, -9999.0]], [[1.0, 1.0], [1.0, 1.0]], Some(-9999));
      kept == [5.0, 5.0] && StatsOf(kept) == Stats(5.0, 5.0, 0.0)
  {
    var data: Grid := [[-9999.0, 5.0], [5.0, -9999.0]];
    var mask: Grid := [[1.0, 1.0], [1.0, 1.0]];
    assert KeptRow(data[0], mask[0], Some(-9999)) == [5.0];
    assert KeptRow(data[1], mask[1], Some(-9999)) == [5.0];
    assert |data[1..][1..]| == 0;
    assert Kept(data[1..], mask[1..], Some(-9999)) == [5.0];
    UniformZone([5.0, 5.0], 5.0);
  }

  /** The window lies inside the band. */
  predicate InsideBand(w: Window, xSize: int, ySize: int)
  {
    && 0 <= w.xoff && 0 <= w.yoff && 0 <= w.xcount && 0 <= w.ycount
    && w.xoff + w.xcount <= xSize && w.yoff + w.ycount <= ySize
  }

  /** `ReadAsArray(xoff, yoff, xcount, ycount)`: a window outside the band is
      an error (GDAL returns None and the next call on it fails). */
  function ReadWindow(band: Grid, xSize: nat, ySize: nat, w: Window): (r: Result<Grid>)
    requires Shaped(band, xSize, ySize)
    ensures r.Ok? <==> InsideBand(w, xSize, ySize)
    ensures r.Err? ==> r.error == WindowOutOfRange
    ensures r.Ok? ==> Shaped(r.value, w.xcount, w.ycount)
    ensures r.Ok? ==> forall i, j :: 0 <= i < w.ycount && 0 <= j < w.xcount ==>
      r.value[i][j] == band[w.yoff + i][w.xoff + j]
  {
    if !InsideBand(w, xSize, ySize) then Err(WindowOutOfRange)
    else Ok(seq(w.ycount, i requires 0 <= i < w.ycount => band[w.yoff + i][w.xoff..w.xoff + w.xcount]))
  }

  /** The inputs of the band loop that stay fixed for every band. */
  datatype BandInputs = BandInputs(
    bands: seq<Grid>, xSize: nat, ySize: nat,
    window: Window, mask: Grid, nodata: Option<int>, info: string)

  predicate WellShaped(inp: BandInputs)
  {
    && (forall b :: 0 <= b < |inp.bands| ==> Shaped(inp.bands[b], inp.xSize, inp.ySize))
    && Shaped(inp.mask, inp.window.xcount, inp.window.ycount)
  }

  /** The statistics of band number `band` (counted from 1). */
  function BandResult(inp: BandInputs, band: nat): (r: Result<Stats>)
    requires WellShaped(inp) && 1 <= band <= |inp.bands|
    ensures r.Ok? <==> InsideBand(inp.window, inp.xSize, inp.ySize)
    ensures r.Err? ==> r.error == WindowOutOfRange
  {
    var data :- ReadWindow(inp.bands[band - 1], inp.xSize, inp.ySize, inp.window);
    Ok(StatsOf(Kept(data, inp.mask, inp.nodata)))
  }

  /** Storing `value(b)` under `key(b)` for b = 1, ..., n in turn, stopping
      at the first failure; an entry overwrites an earlier one with the same key. */
  function Store<K, V>(key: nat -> K, value: nat -> Result<V>, n: nat): Result<map<K, V>>
  {
    if n == 0 then Ok(map[])
    else
      var prev :- Store(key, value, n - 1);
      var v :- value(n);
      Ok(prev[key(n) := v])
  }

  function BandKeys(info: string): nat -> BandKey
  {
    (b: nat) => KeyOf(info, b)
  }

  function BandResults(inp: BandInputs): nat -> Result<Stats>
    requires WellShaped(inp)
  {
    (b: nat) => if 1 <= b <= |inp.bands| then BandResult(inp, b) else Err(WindowOutOfRange)
  }

  /** The `stats` dictionary after the first `n` bands: each band's
      statistics stored under its key, later bands overwriting earlier ones. */
  function Table(inp: BandInputs, n: nat): Result<map<BandKey, Stats>>
    requires WellShaped(inp) && n <= |inp.bands|
  {
    Store(BandKeys(inp.info), BandResults(inp), n)
  }

  /** The loop over the bands (ZonalStats.py:147-173). */
  method BandTable(inp: BandInputs) returns (r: Result<map<BandKey, Stats>>)
    requires WellShaped(inp)
    ensures r == Table(inp, |inp.bands|)
  {
    var stats: map<BandKey, Stats> := map[];
    for band := 1 to |inp.bands| + 1
      invariant Table(inp, band - 1) == Ok(stats)
    {
      var data := ReadWindow(inp.bands[band - 1], inp.xSize, inp.ySize, inp.window);
      if data.Err? {
        TableFails(inp, |inp.bands|);
        return Err(WindowOutOfRange);
      }
      TableNext(inp, band, stats);
      var key := KeyOf(inp.info, band);
      stats := stats[key := StatsOf(Kept(data.value, inp.mask, inp.nodata))];
    }
    r := Ok(stats);
  }

  /** One turn of the band loop. */
  lemma TableNext(inp: BandInputs, band: nat, stats: map<BandKey, Stats>)
    requires WellShaped(inp) && 1 <= band <= |inp.bands| && Table(inp, band - 1) == Ok(stats)
    ensures Table(inp, band) == match BandResult(inp, band)
      case Ok(v) => Ok(stats[KeyOf(inp.info, band) := v])
      case Err(e) => Err(e)
  {
    assert BandResults(inp)(band) == BandResult(inp, band);
  }

  /** Storing succeeds exactly when every value does; when every failure
      carries the same error, so does the store. */
  lemma {:induction false} StoreFails<K, V>(key: nat -> K, value: nat -> Result<V>, n: nat, e: Fatal)
    requires forall b: nat :: 1 <= b <= n && value(b).Err? ==> value(b).error == e
    ensures Store(key, value, n).Ok? <==> forall b: nat :: 1 <= b <= n ==> value(b).Ok?
    ensures Store(key, value, n).Err? ==> Store(key, value, n).error == e
  {
    if n > 0 {
      StoreFails(key, value, n - 1, e);
    }
  }

  /** The keys stored are the keys of the values stored. */
  lemma {:induction false} StoreKeys<K, V>(key: nat -> K, value: nat -> Result<V>, n: nat)
    ensures Store(key, value, n).Ok? ==>
      Store(key, value, n).value.Keys == set b | 1 <= b <= n :: key(b)
  {
    if n > 0 && Store(key, value, n).Ok? {
      StoreKeys(key, value, n - 1);
      var before := set b | 1 <= b <= n - 1 :: key(b);
      var after := set b | 1 <= b <= n :: key(b);
      assert after == before + {key(n)} by {
        forall k | k in after ensures k in before + {key(n)} {
          var b :| 1 <= b <= n && key(b) == k;
          if b < n {
            assert k in before;
          }
        }
      }
    }
  }

  /** A value survives unless a later one has the same key. */
  lemma {:induction false} StoreLastWins<K, V>(key: nat -> K, value: nat -> Result<V>, n: nat, b: nat)
    requires 1 <= b <= n
    requires forall later :: b < later <= n ==> key(later) != key(b)
    ensures Store(key, value, n).Ok? ==>
      value(b).Ok? && key(b) in Store(key, value, n).value
      && Store(key, value, n).value[key(b)] == value(b).value
  {
    if Store(key, value, n).Ok? && b < n {
      StoreLastWins(key, value, n - 1, b);
    }
  }

  /** The loop fails exactly when there is a band and the window leaves it. */
  lemma TableFails(inp: BandInputs, n: nat)
    requires WellShaped(inp) && n <= |inp.bands|
    ensures Table(inp, n).Err? <==> n > 0 && !InsideBand(inp.window, inp.xSize, inp.ySize)
    ensures Table(inp, n).Err? ==> Table(inp, n).error == WindowOutOfRange
  {
    StoreFails(BandKeys(inp.info), BandResults(inp), n, WindowOutOfRange);
    if n > 0 {
      assert BandResults(inp)(1) == BandResult(inp, 1);
    }
  }

  /** The keys of the table are the keys of the bands read. */
  lemma TableKeys(inp: BandInputs, n: nat)
    requires WellShaped(inp) && n <= |inp.bands|
    ensures Table(inp, n).Ok? ==>
      Table(inp, n).value.Keys == set b | 1 <= b <= n :: KeyOf(inp.info, b)
  {
    StoreKeys(BandKeys(inp.info), BandResults(inp), n);
    BandKeySet(inp.info, n);
  }

  lemma BandKeySet(info: string, n: nat)
    ensures (set b | 1 <= b <= n :: BandKeys(info)(b)) == set b | 1 <= b <= n :: KeyOf(info, b)
  {
    var keys := BandKeys(info);
    var stored := set b | 1 <= b <= n :: keys(b);
    var wanted := set b | 1 <= b <= n :: KeyOf(info, b);
    forall k | k in wanted ensures k in stored {
      var b :| 1 <= b <= n && KeyOf(info, b) == k;
      assert keys(b) == k;
    }
  }

  /** A band's statistics survive unless a later band has the same key:
      equal labels overwrite each other, the last band winning. */
  lemma TableLastWins(inp: BandInputs, n: nat, band: nat)
    requires WellShaped(inp) && n <= |inp.bands| && 1 <= band <= n
    requires forall later :: band < later <= n ==> KeyOf(inp.info, later) != KeyOf(inp.info, band)
    ensures Table(inp, n).Ok? ==>
      KeyOf(inp.info, band) in Table(inp, n).value
      && Table(inp, n).value[KeyOf(inp.info, band)] == BandResult(inp, band).value
  {
    StoreLastWins(BandKeys(inp.info), BandResults(inp), n, band);
  }
}
