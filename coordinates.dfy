/**
 * Coordinate system conversions of the notebook helpers: the bounds reshuffle
 * from rasterio's `(left, bottom, right, top)` to ipyleaflet's
 * `[[south, west], [north, east]]`, and the dimension order that moves the
 * spatial dimensions `y`, `x` last.
 */
module Coordinates {

  // ---------------------------------------------------------------------
  // leaflet_bounds
  // ---------------------------------------------------------------------

  /** The tuple returned by `da.rio.bounds()`, in the raster's own CRS: x
      grows eastwards and y northwards. Nothing is reprojected, so x and y
      are longitude and latitude only for a raster in a geographic CRS. */
  datatype RioBounds = RioBounds(left: real, bottom: real, right: real, top: real)

  /** A value of ipyleaflet's bounds shape: two corners, each `[lat, lon]`. */
  predicate IsLeafletBounds(r: seq<seq<real>>)
  {
    |r| == 2 && |r[0]| == 2 && |r[1]| == 2
  }

  // The four edges of an ipyleaflet bounds value, by its own convention.
  function South(r: seq<seq<real>>): real requires IsLeafletBounds(r) { r[0][0] }
  function West(r: seq<seq<real>>): real requires IsLeafletBounds(r) { r[0][1] }
  function North(r: seq<seq<real>>): real requires IsLeafletBounds(r) { r[1][0] }
  function East(r: seq<seq<real>>): real requires IsLeafletBounds(r) { r[1][1] }

  /** `leaflet_bounds`: the south-west corner first, then the north-east one.
      The first corner is componentwise below the second exactly when the
      raster box is well formed (left <= right and bottom <= top). */
  function LeafletBounds(b: RioBounds): (r: seq<seq<real>>)
    ensures IsLeafletBounds(r)
    ensures (r[0][0] <= r[1][0] && r[0][1] <= r[1][1]) <==> (b.left <= b.right && b.bottom <= b.top)
  {
    [[b.bottom, b.left], [b.top, b.right]]
  }

  /** The inverse reshuffle, from ipyleaflet's corners back to rasterio's tuple. */
  function RioFromLeaflet(r: seq<seq<real>>): (b: RioBounds)
    requires IsLeafletBounds(r)
    ensures b.left == West(r) && b.bottom == South(r) && b.right == East(r) && b.top == North(r)
  {
    RioBounds(r[0][1], r[0][0], r[1][1], r[1][0])
  }

  /** south = bottom, west = left, north = top, east = right. */
  lemma LeafletEdges(b: RioBounds)
    ensures var r := LeafletBounds(b);
      South(r) == b.bottom && West(r) == b.left && North(r) == b.top && East(r) == b.right
  {
  }

  /** The reshuffle loses nothing: it is undone by `RioFromLeaflet` ... */
  lemma LeafletBoundsRoundTrip(b: RioBounds)
    ensures RioFromLeaflet(LeafletBounds(b)) == b
  {
  }

  /** ... and every ipyleaflet bounds value is the image of exactly one raster box. */
  lemma RioFromLeafletRoundTrip(r: seq<seq<real>>)
    requires IsLeafletBounds(r)
    ensures LeafletBounds(RioFromLeaflet(r)) == r
  {
    assert r == [r[0], r[1]];
    assert r[0] == [r[0][0], r[0][1]];
    assert r[1] == [r[1][0], r[1][1]];
  }

  predicate InRioBox(b: RioBounds, x: real, y: real)
  {
    b.left <= x <= b.right && b.bottom <= y <= b.top
  }

  predicate InLeafletBox(r: seq<seq<real>>, lat: real, lon: real)
    requires IsLeafletBounds(r)
  {
    South(r) <= lat <= North(r) && West(r) <= lon <= East(r)
  }

  /** Both formats describe the same region: the point (x, y), read by
      ipyleaflet as (lon, lat), is inside the raster box exactly when it is
      inside the ipyleaflet box. */
  lemma SameRegion(b: RioBounds, x: real, y: real)
    ensures InLeafletBox(LeafletBounds(b), y, x) <==> InRioBox(b, x, y)
  {
  }

  // ---------------------------------------------------------------------
  // transpose_da
  // ---------------------------------------------------------------------

  predicate IsSpatial(d: string)
  {
    d == "y" || d == "x"
  }

  /** The dimensions that are neither `y` nor `x`, in their original order. */
  function OtherDims(dims: seq<string>): (r: seq<string>)
    ensures |r| <= |dims|
    ensures forall d :: d in r <==> d in dims && !IsSpatial(d)
  {
    if dims == [] then []
    else (if IsSpatial(dims[0]) then [] else [dims[0]]) + OtherDims(dims[1..])
  }

  /** `transpose_da`'s `new_order`: the other dimensions, then `y`, then `x`. */
  function TransposeOrder(dims: seq<string>): (r: seq<string>)
    ensures |r| >= 2 && r[|r| - 2] == "y" && r[|r| - 1] == "x"
    ensures forall k :: 0 <= k < |r| - 2 ==> !IsSpatial(r[k])
    ensures forall d :: !IsSpatial(d) ==> (d in r <==> d in dims)
  {
    OtherDims(dims) + ["y", "x"]
  }

  predicate Distinct(s: seq<string>)
  {
    forall i, j :: 0 <= i < j < |s| ==> s[i] != s[j]
  }

  /** Filtering distributes over concatenation: this, with the one-element
      case, is what "in original relative order" means. */
  lemma {:induction false} OtherDimsAppend(a: seq<string>, b: seq<string>)
    ensures OtherDims(a + b) == OtherDims(a) + OtherDims(b)
  {
    if a != [] {
      assert (a + b)[1..] == a[1..] + b;
      OtherDimsAppend(a[1..], b);
    } else {
      assert a + b == b;
    }
  }

  /** Each non-spatial dimension keeps its multiplicity; `y` and `x` vanish. */
  lemma {:induction false} OtherDimsCount(dims: seq<string>, d: string)
    ensures multiset(OtherDims(dims))[d] == if IsSpatial(d) then 0 else multiset(dims)[d]
  {
    if dims != [] {
      OtherDimsCount(dims[1..], d);
      assert dims == [dims[0]] + dims[1..];
    }
  }

  lemma {:induction false} DistinctCount(s: seq<string>, d: string)
    requires Distinct(s) && d in s
    ensures multiset(s)[d] == 1
  {
    assert s == [s[0]] + s[1..];
    if s[0] == d {
      assert d !in s[1..] by {
        forall k | 0 <= k < |s[1..]| ensures s[1..][k] != d {
          assert s[1..][k] == s[k + 1];
        }
      }
    } else {
      DistinctCount(s[1..], d);
    }
  }

  /** For an array that has both spatial dimensions (xarray dimension names
      are always distinct), the new order is a permutation of the old one. */
  lemma TransposeOrderIsPermutation(dims: seq<string>)
    requires Distinct(dims) && "y" in dims && "x" in dims
    ensures multiset(TransposeOrder(dims)) == multiset(dims)
    ensures |TransposeOrder(dims)| == |dims|
  {
    var r := TransposeOrder(dims);
    forall d ensures multiset(r)[d] == multiset(dims)[d] {
      OtherDimsCount(dims, d);
      if IsSpatial(d) {
        DistinctCount(dims, d);
      }
    }
    assert multiset(r) == multiset(dims);
    assert |multiset(r)| == |multiset(dims)|;
  }

  lemma {:induction false} OtherDimsOfFiltered(dims: seq<string>)
    requires forall k :: 0 <= k < |dims| ==> !IsSpatial(dims[k])
    ensures OtherDims(dims) == dims
  {
    if dims != [] {
      OtherDimsOfFiltered(dims[1..]);
    }
  }

  /** Transposing an already transposed array changes nothing. */
  lemma TransposeOrderIdempotent(dims: seq<string>)
    ensures TransposeOrder(TransposeOrder(dims)) == TransposeOrder(dims)
  {
    var o := OtherDims(dims);
    OtherDimsAppend(o, ["y", "x"]);
    assert OtherDims(["y", "x"]) == [] by {
      assert ["y", "x"][1..] == ["x"];
      assert ["x"][1..] == [];
    }
    OtherDimsOfFiltered(o) by {
      forall k | 0 <= k < |o| ensures !IsSpatial(o[k]) {
        assert o[k] in o;
      }
    }
  }
}
