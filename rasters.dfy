/** The raster values every stage exchanges: a band read with
    `masked=True`, the keys of a rasterio profile the scripts look at or
    update, and the single-band uint8 masks they write. */
module Rasters {
  import opened Base
  import opened Matrices

  /** The legacy nodata value the scripts mask explicitly. */
  const Sentinel: real := -9999.0

  /** The value written for a selected mask pixel. */
  const On: int := 255

  /** A band as read with `masked=True`: `None` marks the cells the file's
      own nodata value masks. */
  datatype Band = Band(cells: Matrix<Option<real>>, height: nat, width: nat) {
    predicate Valid() { IsRect(cells, height, width) }
  }

  /** The profile keys the scripts compare (`crs`, `transform`, `width`,
      `height`) or overwrite (`count`, `dtype`, `nodata`, `compress`). */
  datatype Profile = Profile(crs: string, transform: seq<real>, width: nat, height: nat,
                             count: nat, dtype: string, nodata: Option<real>,
                             compress: Option<string>)

  /** An opened raster: its band and its profile, which agree on the shape. */
  datatype Raster = Raster(band: Band, profile: Profile) {
    predicate Valid() {
      band.Valid() && band.height == profile.height && band.width == profile.width
    }
  }

  /** A mask file as written: its profile and its pixels. */
  datatype Output = Output(profile: Profile, pixels: Matrix<int>)

  /** `profile.update(count=1, dtype="uint8", nodata=0, compress="LZW")`:
      the source profile with exactly those four keys replaced, so the
      mask keeps the source's grid. */
  function MaskProfile(p: Profile): (r: Profile)
    ensures r.count == 1 && r.dtype == "uint8" && r.nodata == Some(0.0) && r.compress == Some("LZW")
    ensures r.crs == p.crs && r.transform == p.transform && r.width == p.width && r.height == p.height
  {
    p.(count := 1, dtype := "uint8", nodata := Some(0.0), compress := Some("LZW"))
  }

  /** Two matrices have the same rows and row lengths. */
  predicate SameShape<A, B>(a: Matrix<A>, b: Matrix<B>) {
    |a| == |b| && forall i :: 0 <= i < |a| ==> |a[i]| == |b[i]|
  }

  /** Every pixel is 0 or 255. */
  predicate Binary(m: Matrix<int>) {
    forall i, j :: 0 <= i < |m| && 0 <= j < |m[i]| ==> m[i][j] == 0 || m[i][j] == On
  }

  /** `sel.astype(uint8) * 255`: 255 exactly where the selection holds. */
  function Encode(sel: Matrix<bool>): (r: Matrix<int>)
    ensures SameShape(r, sel) && Binary(r)
    ensures forall i, j :: 0 <= i < |sel| && 0 <= j < |sel[i]| ==> (r[i][j] == On <==> sel[i][j])
  {
    seq(|sel|, i requires 0 <= i < |sel| =>
      seq(|sel[i]|, j requires 0 <= j < |sel[i]| => if sel[i][j] then On else 0))
  }

  /** A binary morphology routine (`cv2.morphologyEx` with a kernel of the
      given size), which this model does not implement. */
  type Morphology = (Matrix<int>, nat) -> Matrix<int>

  /** What the model assumes of a morphology routine: on a 0/255 image it
      returns a 0/255 image of the same shape. */
  ghost predicate KeepsBinary(f: Morphology) {
    forall m: Matrix<int>, k: nat {:trigger f(m, k)} :: Binary(m) ==> SameShape(f(m, k), m) && Binary(f(m, k))
  }
}
