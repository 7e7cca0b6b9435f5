# Notebook geospatial helpers, modelled in Dafny

This project models the logic of its own that `notebooks/utils.py` holds. The
rest of that module is glue over geopandas/shapely, matplotlib, PIL and
ipywidgets. Each foreign call is replaced by an input value.

- `coordinates.dfy` (module `Coordinates`) models two functions.
  - `leaflet_bounds` turns the rasterio box `(left, bottom, right, top)` into
    ipyleaflet's `[[south, west], [north, east]]`. The model proves that it
    has an inverse and that it describes the same region.
  - `transpose_da` computes a dimension order with `y`, `x` moved last. The
    model covers the computed order only. It proves that the order is a
    permutation of the input, keeps the other dimensions in their order, and
    is idempotent.
- `image_conversion.dfy` (module `ImageConversion`) models the step of
  `scalar_to_base64_image` that makes NaN cells transparent. It is an
  in-place update of the `(y, x, 4)` RGBA array, written as a parallel
  `forall` assignment, which mirrors numpy's vectorised
  `rgba[mask, 3] = 0`. It also models the 8-bit cast of one channel.
- `geospatial.dfy` (module `Geospatial`) models the selection loop of
  `find_intersections`. Each river arrives with its intersection with the
  basin boundary already computed. That intersection is tagged empty, point,
  multi-point or other. The loop keeps the first point of largest x, as
  Python's `max(..., key=...)` does. It appends one record per river that
  has such a point, in input order. The method is proved equal to the
  specification function `Crossings`. Lemmas then say what `Crossings`
  contains.

Facts about the source that bear on the model:

- The docstring of `scalar_to_base64_image` says vmin/vmax default to the
  data's min/max. The signature (notebooks/utils.py:81) has no defaults.
- `scalar_to_base64_image` does not copy its input. The only in-place update
  is to the RGBA array that `to_rgba` returns (notebooks/utils.py:116, 120).

## Model

| member | source | states |
|---|---|---|
| `Coordinates.LeafletBounds` | notebooks/utils.py:27-50 | The result has two `[lat, lon]` corners. The first is componentwise ≤ the second exactly when left ≤ right and bottom ≤ top, as the documented `[[min_lat, min_lon], [max_lat, max_lon]]` promises. |
| `Coordinates.RioFromLeaflet` | notebooks/utils.py:49-50 | Inverse reshuffle: left is the west edge, bottom the south, right the east, top the north. |
| `Coordinates.LeafletEdges` | notebooks/utils.py:31-32 | south = bottom, west = left, north = top, east = right. |
| `Coordinates.LeafletBoundsRoundTrip` | notebooks/utils.py:49-50 | Converting to ipyleaflet bounds and back gives the original rasterio box. |
| `Coordinates.RioFromLeafletRoundTrip` | notebooks/utils.py:49-50 | Every well-shaped ipyleaflet bounds value is the image of the box read back from it. |
| `Coordinates.SameRegion` | notebooks/utils.py:41-50 | A point (x, y) lies in the rasterio box exactly when (lat = y, lon = x) lies in the ipyleaflet box. |
| `Coordinates.OtherDims` | notebooks/utils.py:71 | The kept dimensions are exactly the input dimensions other than `y` and `x`. There are no more of them than input dimensions. |
| `Coordinates.TransposeOrder` | notebooks/utils.py:70-73 | The last two entries are `y` then `x`. No earlier entry is spatial. A non-spatial dimension is in the result exactly when it is in the input. |
| `Coordinates.OtherDimsAppend` | notebooks/utils.py:71 | Filtering distributes over concatenation, so the kept dimensions stay in their original relative order. |
| `Coordinates.OtherDimsCount` | notebooks/utils.py:71 | Each non-spatial dimension keeps its multiplicity. `y` and `x` occur zero times. |
| `Coordinates.TransposeOrderIsPermutation` | notebooks/utils.py:70-73 | For distinct dimensions that include `y` and `x`, the new order has the same multiset and the same length as the input. |
| `Coordinates.TransposeOrderIdempotent` | notebooks/utils.py:53-73 | Reordering an already reordered dimension list changes nothing. |
| `ImageConversion.MaskMissing` | notebooks/utils.py:118-120 | Every NaN cell gets alpha 0. The RGB channels of every cell and the alpha of every non-NaN cell are unchanged. |
| `ImageConversion.ToUint8` | notebooks/utils.py:123 | A channel in [0, 1] becomes a byte by truncating c·255. The byte is 0 exactly when c·255 < 1, so alpha 0 stays 0. |
| `Geospatial.CandidatePoints` | notebooks/utils.py:172-176 | Only a Point or a MultiPoint yields candidate points. A Point yields itself and a MultiPoint yields its parts, in order. An empty or other-type result yields none. |
| `Geospatial.HasCrossing` | notebooks/utils.py:170-179 | A river passes the `not is_empty` and `if points:` gates exactly when its intersection is a Point or a MultiPoint with at least one part. |
| `Geospatial.EasternmostIndex` | notebooks/utils.py:178-180 | For non-empty points, the index is in range. Its x is ≥ every point's x. Every earlier point has strictly smaller x, so the first maximum is kept on ties. |
| `Geospatial.EasternmostIndexUnique` | notebooks/utils.py:180 | Only one index has both properties of the first maximum. |
| `Geospatial.Emitted` | notebooks/utils.py:179-183 | The record of a river with a crossing carries the river's name and one of its crossing points. |
| `Geospatial.Crossings` | notebooks/utils.py:166-185 | There are no more records than rivers. No rivers give no records. |
| `Geospatial.FindIntersections` | notebooks/utils.py:166-185 | The loop's accumulated list equals `Crossings` of the input rivers. |
| `Geospatial.CrossingsAppend` | notebooks/utils.py:166-183 | The records of two concatenated river lists are the records of the first followed by those of the second. |
| `Geospatial.RiverWithoutCrossingDropped` | notebooks/utils.py:170-179 | Some rivers have an empty intersection, or one that is neither a Point nor a MultiPoint. Inserting such a river anywhere leaves the records unchanged. |
| `Geospatial.RiverWithCrossingEmitted` | notebooks/utils.py:179-183 | Inserting a river with a crossing inserts exactly its record at the same place. |
| `Geospatial.CrossingsInInputOrder` | notebooks/utils.py:166-185 | Each record comes from its own river position, and these positions strictly increase. Every river with a crossing is among them, and each record is that river's record. |
| `Geospatial.RecordIsEasternmostCrossing` | notebooks/utils.py:173-183 | Each record names its river. Its point is one of that river's crossing points, with the largest x, and the first such point on ties. |

## Left out

- Shapely geometry is an input, not modelled: `unary_union.boundary` and `LineString.intersection` (notebooks/utils.py:163, 168). Each river's intersection is given as a tagged value.
- GeoDataFrame construction, `iterrows`, column access and CRS propagation are library plumbing. Rivers are a sequence of (name, intersection) pairs. Records are a sequence of (river_name, point) pairs.
- Building the GeoDataFrame at notebooks/utils.py:185 is not modelled. The model ends with the accumulated list, which is empty when no river crosses. What geopandas does with an empty list and a CRS is outside the model.
- The bounds reshuffle does no reprojection. The latitude/longitude reading of its corners (notebooks/utils.py:42), and the lat/lon naming in `SameRegion`, hold only for a raster in a geographic CRS. In any other CRS, the corners are the raster's own y/x coordinates.
- matplotlib's `Normalize`/`ScalarMappable.to_rgba` colormapping is a foreign float computation. The RGBA array it yields is an input of `MaskMissing`.
- PIL's PNG encoding and the base64 data URI are an image codec and a standard encoder.
- `create_colorbar_widget` is UI: a matplotlib figure, float margins and an ipywidgets HTML widget.
- xarray's `transpose` and rioxarray's `rio.bounds()` are not modelled. Only the computed dimension order and the tuple reshuffle are. xarray raises an error when `y` or `x` is missing from the array. The model only states the permutation property under the condition that both are present.
- Coordinates and channel values are exact reals. IEEE NaN, infinities and rounding in coordinates are not modelled. A NaN x would make Python's `max` order-dependent.
- ToUint8: uses exact real arithmetic for `rgba * 255` and the cast, not float rounding.
- MaskMissing: the code handles only a 2-D `(y, x)` array at the mask step. The docstring's 3-D case does not reach it as a `(t, y, x, 4)` array.
