/** Geometry of `zonal_stats` (ZonalStats.py:76-120): the outer-ring points of
    a feature, their bounding box and midpoint centroid, the inclusive check
    of that centroid against the raster extent, and the pixel window read for
    the polygon. Coordinates are exact reals; Python's `int()` on a float is
    truncation toward zero. */
module Geometry {
  import opened Outcome

  datatype Point3 = Point3(x: real, y: real, z: real)

  type Ring = seq<Point3>

  /** The geometry of a feature, already transformed into the raster's
      reference system. A polygon is its list of rings, ring 0 being the outer
      one; a multipolygon is the list of its member polygons. */
  datatype Shape =
    | Polygon(rings: seq<Ring>)
    | MultiPolygon(members: seq<seq<Ring>>)
    | Other(name: string)

  /** Ring 0 of a polygon; `GetGeometryRef(0)` of a ringless polygon is None
      and the next call on it fails. */
  function OuterRing(rings: seq<Ring>): (r: Result<Ring>)
    ensures r.Ok? <==> |rings| > 0
    ensures r.Ok? ==> r.value == rings[0]
    ensures r.Err? ==> r.error == MissingOuterRing
  {
    if |rings| == 0 then Err(MissingOuterRing) else Ok(rings[0])
  }

  /** The outer rings of the members, concatenated in member order. */
  function MemberRings(members: seq<seq<Ring>>): (r: Result<seq<Point3>>)
    ensures r.Ok? <==> forall k :: 0 <= k < |members| ==> |members[k]| > 0
    ensures r.Err? ==> r.error == MissingOuterRing
  {
    if members == [] then Ok([])
    else
      var init :- MemberRings(members[..|members| - 1]);
      var last := members[|members| - 1];
      if |last| == 0 then Err(MissingOuterRing) else Ok(init + last[0])
  }

  /** The points the script collects for a feature: ring 0 of a polygon, the
      rings 0 of a multipolygon's members, and a fatal error for any other
      geometry type. */
  function OuterPoints(g: Shape): Result<seq<Point3>>
  {
    match g
    case Polygon(rings) => OuterRing(rings)
    case MultiPolygon(members) => MemberRings(members)
    case Other(name) => Err(UnsupportedGeometry(name))
  }

  function Xs(ps: seq<Point3>): (r: seq<real>)
    ensures |r| == |ps| && forall i :: 0 <= i < |ps| ==> r[i] == ps[i].x
  {
    seq(|ps|, i requires 0 <= i < |ps| => ps[i].x)
  }

  function Ys(ps: seq<Point3>): (r: seq<real>)
    ensures |r| == |ps| && forall i :: 0 <= i < |ps| ==> r[i] == ps[i].y
  {
    seq(|ps|, i requires 0 <= i < |ps| => ps[i].y)
  }

  /** The `pointsX`, `pointsY` lists built from a point list; z is dropped. */
  function Planar(r: Result<seq<Point3>>): (p: Result<(seq<real>, seq<real>)>)
    ensures p.Ok? <==> r.Ok?
    ensures p.Ok? ==> |p.value.0| == |p.value.1| == |r.value|
    ensures p.Ok? ==> forall i :: 0 <= i < |r.value| ==>
      p.value.0[i] == r.value[i].x && p.value.1[i] == r.value[i].y
    ensures p.Err? ==> p.error == r.error
  {
    match r
    case Ok(ps) => Ok((Xs(ps), Ys(ps)))
    case Err(e) => Err(e)
  }

  /** A one-member multipolygon yields exactly the points of that polygon. */
  lemma SingleMemberIsPolygon(rings: seq<Ring>)
    ensures OuterPoints(MultiPolygon([rings])) == OuterPoints(Polygon(rings))
  {
    var ms := [rings];
    assert ms[..|ms| - 1] == [];
    assert MemberRings(ms[..|ms| - 1]) == Ok([]);
    if |rings| > 0 {
      assert [] + rings[0] == rings[0];
    }
  }

  /** Joining two multipolygons joins their point lists, and fails as soon as
      either side has a member without an outer ring. */
  lemma {:induction false} MemberRingsAppend(a: seq<seq<Ring>>, b: seq<seq<Ring>>)
    decreases |b|
    ensures MemberRings(a + b).Ok? <==> MemberRings(a).Ok? && MemberRings(b).Ok?
    ensures MemberRings(a + b).Ok? ==>
      MemberRings(a + b).value == MemberRings(a).value + MemberRings(b).value
  {
    if b == [] {
      assert a + b == a;
    } else {
      var bi := b[..|b| - 1];
      assert (a + b)[..|a + b| - 1] == a + bi;
      assert (a + b)[|a + b| - 1] == b[|b| - 1];
      MemberRingsAppend(a, bi);
      if MemberRings(a + b).Ok? {
        var last := b[|b| - 1][0];
        assert MemberRings(a + b).value == MemberRings(a + bi).value + last;
        assert MemberRings(b).value == MemberRings(bi).value + last;
        assert MemberRings(a).value + MemberRings(bi).value + last
            == MemberRings(a).value + (MemberRings(bi).value + last);
      }
    }
  }

  lemma XsYsSnoc(ps: seq<Point3>, q: Point3)
    ensures Xs(ps + [q]) == Xs(ps) + [q.x]
    ensures Ys(ps + [q]) == Ys(ps) + [q.y]
  {
    assert Xs(ps + [q]) == Xs(ps) + [q.x] by {
      forall i | 0 <= i < |ps| + 1 ensures Xs(ps + [q])[i] == (Xs(ps) + [q.x])[i] {
        assert (ps + [q])[i] == if i < |ps| then ps[i] else q;
      }
    }
    assert Ys(ps + [q]) == Ys(ps) + [q.y] by {
      forall i | 0 <= i < |ps| + 1 ensures Ys(ps + [q])[i] == (Ys(ps) + [q.y])[i] {
        assert (ps + [q])[i] == if i < |ps| then ps[i] else q;
      }
    }
  }

  /** Appends the x and y of every point of `ring` to the two lists. */
  method AppendRing(xs0: seq<real>, ys0: seq<real>, ghost done: seq<Point3>, ring: Ring)
    returns (xs: seq<real>, ys: seq<real>)
    requires xs0 == Xs(done) && ys0 == Ys(done)
    ensures xs == Xs(done + ring) && ys == Ys(done + ring)
  {
    xs, ys := xs0, ys0;
    for p := 0 to |ring|
      invariant xs == Xs(done + ring[..p]) && ys == Ys(done + ring[..p])
    {
      XsYsSnoc(done + ring[..p], ring[p]);
      assert done + ring[..p + 1] == done + ring[..p] + [ring[p]];
      xs := xs + [ring[p].x];
      ys := ys + [ring[p].y];
    }
    assert ring[..|ring|] == ring;
  }

  /** One more member adds its outer ring to the points of the members before it. */
  lemma MemberRingsStep(members: seq<seq<Ring>>, count: nat)
    requires count < |members| && |members[count]| > 0
    requires MemberRings(members[..count]).Ok?
    ensures MemberRings(members[..count + 1])
         == Ok(MemberRings(members[..count]).value + members[count][0])
  {
    assert members[..count + 1][..count] == members[..count];
  }

  /** The point-collecting loops of the script (ZonalStats.py:80-101). */
  method FlattenPoints(g: Shape) returns (r: Result<(seq<real>, seq<real>)>)
    ensures r == Planar(OuterPoints(g))
  {
    match g {
      case MultiPolygon(members) =>
        var xs: seq<real> := [];
        var ys: seq<real> := [];
        var count := 0;
        while count < |members|
          invariant 0 <= count <= |members|
          invariant MemberRings(members[..count]).Ok?
          invariant xs == Xs(MemberRings(members[..count]).value)
          invariant ys == Ys(MemberRings(members[..count]).value)
        {
          var rings := members[count];
          if |rings| == 0 {
            return Err(MissingOuterRing);
          }
          MemberRingsStep(members, count);
          xs, ys := AppendRing(xs, ys, MemberRings(members[..count]).value, rings[0]);
          count := count + 1;
        }
        assert members[..count] == members;
        r := Ok((xs, ys));
      case Polygon(rings) =>
        if |rings| == 0 {
          return Err(MissingOuterRing);
        }
        var xs, ys := AppendRing([], [], [], rings[0]);
        assert [] + rings[0] == rings[0];
        r := Ok((xs, ys));
      case Other(name) =>
        r := Err(UnsupportedGeometry(name));
    }
  }

  /** `min` of a non-empty list. */
  function MinOf(s: seq<real>): (m: real)
    requires |s| > 0
    ensures m in s && forall k :: 0 <= k < |s| ==> m <= s[k]
  {
    if |s| == 1 then s[0]
    else
      var rest := MinOf(s[1..]);
      assert forall k :: 1 <= k < |s| ==> s[k] == s[1..][k - 1];
      if s[0] <= rest then s[0] else rest
  }

  /** `max` of a non-empty list. */
  function MaxOf(s: seq<real>): (m: real)
    requires |s| > 0
    ensures m in s && forall k :: 0 <= k < |s| ==> s[k] <= m
  {
    if |s| == 1 then s[0]
    else
      var rest := MaxOf(s[1..]);
      assert forall k :: 1 <= k < |s| ==> s[k] == s[1..][k - 1];
      if rest <= s[0] then s[0] else rest
  }

  datatype Box = Box(xmin: real, xmax: real, ymin: real, ymax: real)

  /** `xmin_poly ... ymax_poly`; `min([])` raises, which ends the run. */
  function BoundingBox(xs: seq<real>, ys: seq<real>): (r: Result<Box>)
    requires |xs| == |ys|
    ensures r.Ok? <==> |xs| > 0
    ensures r.Err? ==> r.error == NoPoints
    ensures r.Ok? ==>
      && r.value.xmin in xs && r.value.xmax in xs
      && r.value.ymin in ys && r.value.ymax in ys
      && (forall k :: 0 <= k < |xs| ==> r.value.xmin <= xs[k] <= r.value.xmax)
      && (forall k :: 0 <= k < |ys| ==> r.value.ymin <= ys[k] <= r.value.ymax)
  {
    if |xs| == 0 then Err(NoPoints)
    else Ok(Box(MinOf(xs), MaxOf(xs), MinOf(ys), MaxOf(ys)))
  }

  /** The midpoint of the bounds (not the area centroid). */
  function Centroid(b: Box): (real, real)
  {
    ((b.xmax + b.xmin) / 2.0, (b.ymax + b.ymin) / 2.0)
  }

  /** The centroid of a bounding box lies inside that box. */
  lemma CentroidInBox(xs: seq<real>, ys: seq<real>)
    requires |xs| == |ys| && |xs| > 0
    ensures var b := BoundingBox(xs, ys).value;
      b.xmin <= b.xmax && b.ymin <= b.ymax
      && b.xmin <= Centroid(b).0 <= b.xmax && b.ymin <= Centroid(b).1 <= b.ymax
  {
    var b := BoundingBox(xs, ys).value;
    assert b.xmin <= xs[0] <= b.xmax;
    assert b.ymin <= ys[0] <= b.ymax;
  }

  /** The affine georeference of a raster without rotation terms. */
  datatype GeoTransform = GeoTransform(originX: real, pixelWidth: real, originY: real, pixelHeight: real)

  /** The extent test of ZonalStats.py:111-114, inclusive on every side. */
  predicate CentroidInRaster(b: Box, gt: GeoTransform, xSize: nat, ySize: nat)
  {
    var (cx, cy) := Centroid(b);
    var xmaxRas := gt.originX + xSize as real * gt.pixelWidth;
    var yminRas := gt.originY + ySize as real * gt.pixelHeight;
    cx >= gt.originX && cx <= xmaxRas && cy <= gt.originY && cy >= yminRas
  }

  /** A box lying inside a north-up raster always passes the test. */
  lemma BoxInsideRasterPasses(b: Box, gt: GeoTransform, xSize: nat, ySize: nat)
    requires b.xmin <= b.xmax && b.ymin <= b.ymax
    requires gt.pixelWidth > 0.0 && gt.pixelHeight < 0.0
    requires gt.originX <= b.xmin && b.xmax <= gt.originX + xSize as real * gt.pixelWidth
    requires gt.originY + ySize as real * gt.pixelHeight <= b.ymin && b.ymax <= gt.originY
    ensures CentroidInRaster(b, gt, xSize, ySize)
  {
  }

  /** A raster stored south-up (positive pixel height) with at least one row
      rejects every polygon: its lower edge lies above its upper edge. */
  lemma SouthUpRejectsAll(b: Box, gt: GeoTransform, xSize: nat, ySize: nat)
    requires gt.pixelHeight > 0.0 && ySize > 0
    ensures !CentroidInRaster(b, gt, xSize, ySize)
  {
    assert ySize as real * gt.pixelHeight > 0.0;
  }

  /** Python's `int()` on a float: truncation toward zero. */
  function Trunc(r: real): (t: int)
    ensures 0.0 <= r ==> t as real <= r < t as real + 1.0
    ensures r < 0.0 ==> t as real - 1.0 < r <= t as real
  {
    if r >= 0.0 then r.Floor else -((-r).Floor)
  }

  datatype Window = Window(xoff: int, yoff: int, xcount: int, ycount: int)

  /** ZonalStats.py:117-120: offsets and sizes in pixels, all divided by the
      pixel width, the y axis included. */
  function WindowOf(b: Box, gt: GeoTransform): Window
    requires gt.pixelWidth != 0.0
  {
    var pw := gt.pixelWidth;
    Window(Trunc((b.xmin - gt.originX) / pw), Trunc((gt.originY - b.ymax) / pw),
           Trunc((b.xmax - b.xmin) / pw) + 1, Trunc((b.ymax - b.ymin) / pw) + 1)
  }

  /** `k == Trunc(d / pw) + 1` brackets a non-negative distance `d`:
      `(k - 1) * pw <= d < k * pw`. */
  lemma CountBracket(d: real, pw: real)
    requires d >= 0.0 && pw > 0.0
    ensures var k := Trunc(d / pw) + 1;
      k >= 1 && (k - 1) as real * pw <= d < k as real * pw
  {
    var q := d / pw;
    assert q >= 0.0 && q * pw == d;
    WholeBracket(Trunc(q) + 1, q, pw, d);
  }

  lemma WholeBracket(k: int, q: real, pw: real, d: real)
    requires (k - 1) as real <= q < k as real && pw > 0.0 && q * pw == d
    ensures (k - 1) as real * pw <= d < k as real * pw
  {
    ScaleLe((k - 1) as real, q, pw);
    ScaleLt(q, k as real, pw);
  }

  lemma ScaleLe(a: real, b: real, c: real)
    requires a <= b && c > 0.0
    ensures a * c <= b * c
  {
  }

  lemma ScaleLt(a: real, b: real, c: real)
    requires a < b && c > 0.0
    ensures a * c < b * c
  {
  }

  /** With a positive pixel width the window has at least one column and one
      row, and its sizes are the smallest whole numbers of pixels strictly
      longer than the box's sides. */
  lemma WindowCounts(b: Box, gt: GeoTransform)
    requires gt.pixelWidth > 0.0 && b.xmin <= b.xmax && b.ymin <= b.ymax
    ensures var w := WindowOf(b, gt); var pw := gt.pixelWidth;
      && w.xcount >= 1 && w.ycount >= 1
      && (w.xcount - 1) as real * pw <= b.xmax - b.xmin < w.xcount as real * pw
      && (w.ycount - 1) as real * pw <= b.ymax - b.ymin < w.ycount as real * pw
  {
    CountBracket(b.xmax - b.xmin, gt.pixelWidth);
    CountBracket(b.ymax - b.ymin, gt.pixelWidth);
  }

  /** When the box starts inside a north-up raster, the offsets are the
      column and row holding the box's upper-left corner (rows measured in
      pixel widths). */
  lemma WindowOffsets(b: Box, gt: GeoTransform)
    requires gt.pixelWidth > 0.0
    requires gt.originX <= b.xmin && b.ymax <= gt.originY
    ensures var w := WindowOf(b, gt); var pw := gt.pixelWidth;
      && 0 <= w.xoff && 0 <= w.yoff
      && w.xoff as real * pw <= b.xmin - gt.originX < (w.xoff + 1) as real * pw
      && w.yoff as real * pw <= gt.originY - b.ymax < (w.yoff + 1) as real * pw
  {
    CountBracket(b.xmin - gt.originX, gt.pixelWidth);
    CountBracket(gt.originY - b.ymax, gt.pixelWidth);
  }

  /** The window need not cover the box: a box from x = 0.9 to x = 1.8 on a
      grid of unit pixels starting at 0 gets column 0 only, which ends at 1. */
  lemma WindowMissesBoxEnd()
    ensures var w := WindowOf(Box(0.9, 1.8, 0.0, 0.5), GeoTransform(0.0, 1.0, 1.0, -1.0));
      w.xoff == 0 && w.xcount == 1
      && (w.xoff + w.xcount) as real * 1.0 < 1.8
  {
    assert Trunc(0.9) == 0;
    assert Trunc(0.9 / 1.0) == 0;
    assert Trunc((1.8 - 0.9) / 1.0) == 0;
  }

  /** Rows are counted in pixel widths: with pixels 1 wide and 2 high, a box
      whose top is 6 units below the raster's top gets row offset 6 although
      it starts in raster row 3. */
  lemma WindowRowsUseWidth()
    ensures var w := WindowOf(Box(0.0, 1.0, 0.0, 4.0), GeoTransform(0.0, 1.0, 10.0, -2.0));
      w.yoff == 6 && Trunc((10.0 - 4.0) / 2.0) == 3
  {
    assert Trunc(6.0) == 6;
    assert Trunc(3.0) == 3;
  }
}
