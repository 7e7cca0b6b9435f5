/**
 * Image conversion of the notebook helpers: the step of
 * `scalar_to_base64_image` that makes missing cells transparent, and the
 * 8-bit quantization of one colour channel. The colormap lookup that fills
 * the RGBA array, the PNG codec and the base64 data URI are not modelled.
 */
module ImageConversion {

  /** One cell of the raster's values: a number, or NaN. */
  datatype Sample = NaN | Value(v: real)

  /** Position of the alpha channel in the last axis of the `(y, x, 4)` RGBA array. */
  const Alpha: nat := 3

  /** `rgba[np.isnan(arr), 3] = 0`: the alpha channel of every NaN cell becomes
      0; every other channel of every cell, and the alpha of every cell holding
      a number, keep their values. */
  method MaskMissing(rgba: array3<real>, arr: array2<Sample>)
    requires rgba.Length0 == arr.Length0 && rgba.Length1 == arr.Length1 && rgba.Length2 == 4
    modifies rgba
    ensures forall i, j :: 0 <= i < arr.Length0 && 0 <= j < arr.Length1 && arr[i, j].NaN? ==>
      rgba[i, j, Alpha] == 0.0
    ensures forall i, j, c ::
      0 <= i < arr.Length0 && 0 <= j < arr.Length1 && 0 <= c < 4 && (c != Alpha || !arr[i, j].NaN?)
      ==> rgba[i, j, c] == old(rgba[i, j, c])
  {
    forall i, j | 0 <= i < arr.Length0 && 0 <= j < arr.Length1 && arr[i, j].NaN? {
      rgba[i, j, Alpha] := 0.0;
    }
  }

  /** `(c * 255).astype(np.uint8)` for a colour channel in [0, 1], with exact
      arithmetic: the cast truncates, the result is a byte, and a channel
      comes out 0 exactly when it is below 1/255 (so alpha 0 stays 0). */
  function ToUint8(c: real): (q: int)
    requires 0.0 <= c <= 1.0
    ensures 0 <= q <= 255
    ensures q as real <= c * 255.0 < q as real + 1.0
    ensures q == 0 <==> c * 255.0 < 1.0
  {
    (c * 255.0).Floor
  }
}
