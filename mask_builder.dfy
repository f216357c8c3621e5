/** Mask Builder (sophie_4_generate_mask_on_1orbatch.py): turns one raster
    band into a 0/255 mask, either by thresholding a vegetation index or by
    clustering rescaled elevations.  The mask is allocated as zeros and the
    selected cells are then set to 255 in place, as `mask[sel] = 255` does. */
module MaskBuilder {
  import opened Base
  import opened Matrices
  import opened Stats
  import opened Text
  import opened Rasters

  /** One directory entry of the input folder: its name and the raster
      opened from it, or `None` when opening or reading the file raised. */
  datatype Entry = Entry(name: string, raster: Option<Raster>)

  /** `fn.lower().endswith(".tif")` */
  predicate IsTif(name: string) {
    EndsWith(Lower(name), ".tif")
  }

  /** `mask = np.zeros(shape, uint8); mask[sel] = 255`: a fresh array of
      zeros in which exactly the selected cells are then set to 255. */
  method Paint(sel: Matrix<bool>, h: nat, w: nat) returns (mask: array2<int>)
    requires IsRect(sel, h, w)
    ensures mask.Length0 == h && mask.Length1 == w
    ensures ToMatrix(mask) == Encode(sel)
  {
    mask := new int[h, w]((i, j) => 0);
    var i := 0;
    while i < h
      invariant 0 <= i <= h
      invariant forall r, c :: 0 <= r < h && 0 <= c < w ==>
                  mask[r, c] == if r < i && sel[r][c] then On else 0
    {
      var j := 0;
      while j < w
        invariant 0 <= j <= w
        invariant forall r, c :: 0 <= r < h && 0 <= c < w ==>
                    mask[r, c] == if (r < i || (r == i && c < j)) && sel[r][c] then On else 0
      {
        if sel[i][j] {
          mask[i, j] := On;
        }
        j := j + 1;
      }
      i := i + 1;
    }
    assert forall r :: 0 <= r < h ==> ToMatrix(mask)[r] == Encode(sel)[r];
  }

  // ---------------------------------------------------------------------
  // Vegetation-index path (generate_masks_vi)

  /** The thresholds `generate_masks_vi` accepts: at least one bound. */
  datatype Thresholds = UpperOnly(upper: real) | LowerOnly(lower: real) | Between(low: real, high: real) {
    function LowerBound(): Option<real> {
      match this
      case UpperOnly(_) => None
      case LowerOnly(l) => Some(l)
      case Between(l, _) => Some(l)
    }
    function UpperBound(): Option<real> {
      match this
      case UpperOnly(u) => Some(u)
      case LowerOnly(_) => None
      case Between(_, u) => Some(u)
    }
  }

  /** The argument check at the top of `generate_masks_vi`: a ValueError
      when neither bound is given, before any file is touched. */
  function ParseThresholds(lower: Option<real>, upper: Option<real>): (r: Result<Thresholds, string>)
    ensures r.Failure? <==> lower.None? && upper.None?
    ensures r.Success? ==> r.value.LowerBound() == lower && r.value.UpperBound() == upper
  {
    if lower.None? && upper.None? then
      Failure("Provide at least one of lower_threshold or upper_threshold.")
    else if lower.None? then Success(UpperOnly(upper.value))
    else if upper.None? then Success(LowerOnly(lower.value))
    else Success(Between(lower.value, upper.value))
  }

  /** The comparison each branch of `generate_masks_vi` applies. */
  predicate ViAdmits(t: Thresholds, v: real) {
    match t
    case UpperOnly(u) => v <= u
    case LowerOnly(l) => v >= l
    case Between(l, u) => v >= l && v <= u
  }

  /** `sel = valid & (...)`: a pixel is selected iff it is not masked by the
      file's nodata and lies in the closed interval the given bounds span
      (a missing bound leaves that side open).  The -9999 value is not
      excluded here; only the file's nodata is. */
  function ViSelection(band: Band, t: Thresholds): (sel: Matrix<bool>)
    requires band.Valid()
    ensures IsRect(sel, band.height, band.width)
    ensures forall i, j :: 0 <= i < band.height && 0 <= j < band.width ==>
              (sel[i][j] <==> band.cells[i][j].Some?
                              && (t.LowerBound().None? || t.LowerBound().value <= band.cells[i][j].value)
                              && (t.UpperBound().None? || band.cells[i][j].value <= t.UpperBound().value))
  {
    seq(band.height, i requires 0 <= i < band.height =>
      seq(band.width, j requires 0 <= j < band.width =>
        band.cells[i][j].Some? && ViAdmits(t, band.cells[i][j].value)))
  }

  /** The closing kernel exists only when OpenCV is importable and
      `morph_close > 1`. */
  function CloseKernel(hasCv2: bool, morphClose: int): (k: Option<nat>)
    ensures k.Some? <==> hasCv2 && morphClose > 1
    ensures k.Some? ==> k.value == morphClose
  {
    if hasCv2 && morphClose > 1 then Some(morphClose) else None
  }

  /** The pixels written for one band: the 0/255 selection, passed through
      the closing when a kernel exists and written unchanged otherwise. */
  function ViMask(band: Band, t: Thresholds, kernel: Option<nat>, close: Morphology): (m: Matrix<int>)
    requires band.Valid()
    requires KeepsBinary(close)
    ensures IsRect(m, band.height, band.width) && Binary(m)
    ensures kernel.None? ==>
              forall i, j :: 0 <= i < band.height && 0 <= j < band.width ==>
                (m[i][j] == On <==> band.cells[i][j].Some? && ViAdmits(t, band.cells[i][j].value))
  {
    var m := Encode(ViSelection(band, t));
    if kernel.Some? then close(m, kernel.value) else m
  }

  /** Before morphology, pixels masked by the file's nodata are 0. */
  lemma ViMaskedPixelsOff(band: Band, t: Thresholds, close: Morphology, i: nat, j: nat)
    requires band.Valid() && KeepsBinary(close)
    requires i < band.height && j < band.width && band.cells[i][j].None?
    ensures ViMask(band, t, None, close)[i][j] == 0
  {
  }

  /** The elevation path's sentinel is not excluded here: a readable -9999
      pixel is selected whenever the thresholds admit -9999. */
  lemma ViKeepsSentinel(band: Band, upper: real, close: Morphology, i: nat, j: nat)
    requires band.Valid() && KeepsBinary(close)
    requires i < band.height && j < band.width && band.cells[i][j] == Some(Sentinel)
    requires Sentinel <= upper
    ensures ViMask(band, UpperOnly(upper), None, close)[i][j] == On
  {
  }

  /** The names under which files are written, with no repeated names. */
  predicate DistinctNames(entries: seq<Entry>) {
    forall a, b :: 0 <= a < b < |entries| ==> entries[a].name != entries[b].name
  }

  /** A `.tif` entry whose raster could be read. */
  predicate Processed(e: Entry) {
    IsTif(e.name) && e.raster.Some? && e.raster.value.Valid()
  }

  /** The file `generate_masks_vi` writes for a raster: the mask under the
      source profile updated for a single-band uint8 mask. */
  function ViOutput(r: Raster, t: Thresholds, kernel: Option<nat>, close: Morphology): Output
    requires r.Valid() && KeepsBinary(close)
  {
    Output(MaskProfile(r.profile), ViMask(r.band, t, kernel, close))
  }

  /** After the first `n` entries of a folder: the written names are those
      of the entries among them that produced a file, each holding its own
      file. */
  ghost predicate Recorded<V>(entries: seq<Entry>, outs: seq<Option<V>>, n: nat, written: map<string, V>)
    requires n <= |entries| == |outs|
  {
    (forall name :: name in written <==> exists m :: 0 <= m < n && entries[m].name == name && outs[m].Some?)
    && forall m :: 0 <= m < n && outs[m].Some? ==>
         entries[m].name in written && written[entries[m].name] == outs[m].value
  }

  /** Writing the next entry's file (or skipping it) extends `Recorded` by
      one entry; names are distinct, so no earlier file is overwritten. */
  lemma RecordStep<V>(entries: seq<Entry>, outs: seq<Option<V>>, n: nat, written: map<string, V>, next: map<string, V>)
    requires DistinctNames(entries) && n < |entries| == |outs|
    requires Recorded(entries, outs, n, written)
    requires next == if outs[n].Some? then written[entries[n].name := outs[n].value] else written
    ensures Recorded(entries, outs, n + 1, next)
  {
    forall name | name in next
      ensures exists m :: 0 <= m < n + 1 && entries[m].name == name && outs[m].Some?
    {
      if name !in written {
        assert entries[n].name == name;
      }
    }
    forall m | 0 <= m < n + 1 && outs[m].Some?
      ensures entries[m].name in next && next[entries[m].name] == outs[m].value
    {
      if m < n {
        assert entries[m].name != entries[n].name;
      }
    }
  }

  /** `generate_masks_vi` over one folder: the threshold check first, then one
      output per readable `.tif` entry; entries that fail to read are skipped. */
  method GenerateMasksVi(entries: seq<Entry>, lower: Option<real>, upper: Option<real>,
                         morphClose: int, hasCv2: bool, close: Morphology)
    returns (r: Result<map<string, Output>, string>)
    requires DistinctNames(entries)
    requires KeepsBinary(close)
    ensures r.Failure? <==> lower.None? && upper.None?
    ensures r.Success? ==>
              forall name :: name in r.value <==> exists k :: 0 <= k < |entries| && entries[k].name == name && Processed(entries[k])
    ensures r.Success? ==>
              forall k :: 0 <= k < |entries| && Processed(entries[k]) ==>
                r.value[entries[k].name] == ViOutput(entries[k].raster.value, ParseThresholds(lower, upper).value,
                                                     CloseKernel(hasCv2, morphClose), close)
  {
    var parsed := ParseThresholds(lower, upper);
    if parsed.Failure? {
      return Failure(parsed.error);
    }
    var t := parsed.value;
    var kernel := CloseKernel(hasCv2, morphClose);
    ghost var outs := ViOutputs(entries, t, kernel, close);
    var written: map<string, Output> := map[];
    var n := 0;
    while n < |entries|
      invariant 0 <= n <= |entries|
      invariant Recorded(entries, outs, n, written)
    {
      var e := entries[n];
      var next := written;
      if Processed(e) {
        var out := PaintVi(e.raster.value, t, kernel, close);
        next := written[e.name := out];
      }
      RecordStep(entries, outs, n, written, next);
      written := next;
      n := n + 1;
    }
    return Success(written);
  }

  /** The mask file for one raster: the selection painted 255 on 0 into a
      new array, closed when a kernel is in use, under the mask profile. */
  method PaintVi(raster: Raster, t: Thresholds, kernel: Option<nat>, close: Morphology) returns (out: Output)
    requires raster.Valid() && KeepsBinary(close)
    ensures out == ViOutput(raster, t, kernel, close)
  {
    var sel := ViSelection(raster.band, t);
    var painted := Paint(sel, raster.band.height, raster.band.width);
    var m := ToMatrix(painted);
    if kernel.Some? {
      m := close(m, kernel.value);
    }
    out := Output(MaskProfile(raster.profile), m);
  }

  /** The file `generate_masks_vi` writes for each entry of a folder, `None`
      for an entry it skips. */
  ghost function ViOutputs(entries: seq<Entry>, t: Thresholds, kernel: Option<nat>, close: Morphology)
    : (outs: seq<Option<Output>>)
    requires KeepsBinary(close)
    ensures |outs| == |entries|
    ensures forall m :: 0 <= m < |entries| ==> (outs[m].Some? <==> Processed(entries[m]))
    ensures forall m :: 0 <= m < |entries| && Processed(entries[m]) ==>
              outs[m].value == ViOutput(entries[m].raster.value, t, kernel, close)
  {
    seq(|entries|, m requires 0 <= m < |entries| =>
      if Processed(entries[m]) then Some(ViOutput(entries[m].raster.value, t, kernel, close)) else None)
  }

  // ---------------------------------------------------------------------
  // Elevation path (generate_masks_dem)

  /** `np.ma.masked_where((dem == -9999) | dem.mask, dem)` for one cell. */
  function DemCell(c: Option<real>): (r: Option<real>)
    ensures r.Some? <==> c.Some? && c.value != Sentinel
    ensures r.Some? ==> r == c
  {
    if c == Some(Sentinel) then None else c
  }

  function DemValid(band: Band): (m: Matrix<Option<real>>)
    requires band.Valid()
    ensures IsRect(m, band.height, band.width)
    ensures forall i, j :: 0 <= i < band.height && 0 <= j < band.width ==> m[i][j] == DemCell(band.cells[i][j])
  {
    seq(band.height, i requires 0 <= i < band.height =>
      seq(band.width, j requires 0 <= j < band.width => DemCell(band.cells[i][j])))
  }

  /** `max(1e-12, vmax - vmin)` */
  function Denominator(vmin: real, vmax: real): (d: real)
    ensures d > 0.0
    ensures d >= vmax - vmin
  {
    if vmax - vmin >= 0.000000000001 then vmax - vmin else 0.000000000001
  }

  /** `(v - vmin) / denom * 255` */
  function Rescale(v: real, vmin: real, vmax: real): (r: real)
    ensures v == vmin ==> r == 0.0
    ensures vmax - vmin >= 0.000000000001 && v == vmax ==> r == 255.0
  {
    var d := Denominator(vmin, vmax);
    assert vmax - vmin >= 0.000000000001 ==> d == vmax - vmin && (vmax - vmin) / d == 1.0;
    (v - vmin) / d * 255.0
  }

  /** Rescaled valid values lie in [0, 255]; when every valid value is the
      same, the 1e-12 guard makes each of them 0. */
  lemma RescaleRange(v: real, vmin: real, vmax: real)
    requires vmin <= v <= vmax
    ensures 0.0 <= Rescale(v, vmin, vmax) <= 255.0
    ensures vmin == vmax ==> Rescale(v, vmin, vmax) == 0.0
  {
    var d := Denominator(vmin, vmax);
    DivBounds(v - vmin, d, 0.0, 1.0);
  }

  /** Rescaling preserves the order of values. */
  lemma RescaleMonotone(a: real, b: real, vmin: real, vmax: real)
    requires a <= b
    ensures Rescale(a, vmin, vmax) <= Rescale(b, vmin, vmax)
  {
    var d := Denominator(vmin, vmax);
    var x, y := (a - vmin) / d, (b - vmin) / d;
    assert x * d == a - vmin && y * d == b - vmin;
    if x > y {
      MulStrict(y, x, d);
    }
  }

  /** `k_use = max(1, min(k, vals.size))` */
  function ClusterCount(k: int, n: nat): (kUse: int)
    ensures 1 <= kUse
    ensures n >= 1 ==> kUse <= n
    ensures k >= 1 ==> kUse <= k
    ensures 1 <= k <= n ==> kUse == k
  {
    Max(1, Min(k, n))
  }

  /** The 1-D k-means routine `ckwrap.ckmeans(vals, k).centers`, which this
      model does not implement. */
  type Clusterer = (seq<real>, nat) -> seq<real>

  /** What the model assumes of the clustering routine: every centre it
      returns lies within the range of the values.  How many centres it
      returns is left open; when there are too few, reading the centre at
      `center_idx` raises (see `DemRaises`). */
  ghost predicate CentersWithinRange(cluster: Clusterer) {
    forall vals: seq<real>, k: nat {:trigger cluster(vals, k)} :: 1 <= k <= |vals| ==>
      var c := cluster(vals, k);
      forall i :: 0 <= i < |c| ==> SeqMin(vals) <= c[i] <= SeqMax(vals)
  }

  /** The scaled valid values handed to the clustering routine. */
  function ScaledValues(vs: seq<real>, vmin: real, vmax: real): (r: seq<real>)
    ensures |r| == |vs|
    ensures forall i :: 0 <= i < |vs| ==> r[i] == Rescale(vs[i], vmin, vmax)
  {
    seq(|vs|, i requires 0 <= i < |vs| => Rescale(vs[i], vmin, vmax))
  }

  /** `ckwrap.ckmeans(vals, k_use).centers` for the valid heights `vs`. */
  function DemCenters(vs: seq<real>, k: int, cluster: Clusterer): seq<real>
    requires vs != []
  {
    cluster(ScaledValues(vs, SeqMin(vs), SeqMax(vs)), ClusterCount(k, |vs|))
  }

  /** `center_idx = 1 if k_use >= 2 else 0` */
  function CenterIndex(kUse: int): nat {
    if kUse >= 2 then 1 else 0
  }

  /** `km.centers[center_idx]` raises IndexError: some pixel is valid, but
      the clustering returned no centre at that index.  The `except` clause
      then skips the file without writing a mask. */
  predicate DemRaises(band: Band, k: int, cluster: Clusterer)
    requires band.Valid()
  {
    var vs := Present(DemValid(band));
    vs != [] && |DemCenters(vs, k, cluster)| <= CenterIndex(ClusterCount(k, |vs|))
  }

  /** The cut-off of `generate_masks_dem`: `centers[1]` when at least two
      clusters are in use, `centers[0]` otherwise; `None` when no pixel is
      valid. */
  function DemThreshold(band: Band, k: int, cluster: Clusterer): (t: Option<real>)
    requires band.Valid()
    requires !DemRaises(band, k, cluster)
    ensures t.None? <==> Present(DemValid(band)) == []
    ensures t.Some? ==>
              var vs := Present(DemValid(band));
              var kUse := ClusterCount(k, |vs|);
              var c := cluster(ScaledValues(vs, SeqMin(vs), SeqMax(vs)), kUse);
              |c| > CenterIndex(kUse) && t.value == if kUse >= 2 then c[1] else c[0]
  {
    var vs := Present(DemValid(band));
    if vs == [] then None
    else
      var centers := DemCenters(vs, k, cluster);
      Some(centers[CenterIndex(ClusterCount(k, |vs|))])
  }

  /** `valid & (scaled >= thresh)`; all false when no pixel is valid. */
  function DemSelection(band: Band, k: int, cluster: Clusterer): (sel: Matrix<bool>)
    requires band.Valid()
    requires !DemRaises(band, k, cluster)
    ensures IsRect(sel, band.height, band.width)
    ensures var valid := DemValid(band);
            var vs := Present(valid);
            var t := DemThreshold(band, k, cluster);
            forall i, j :: 0 <= i < band.height && 0 <= j < band.width ==>
              (sel[i][j] <==> valid[i][j].Some? && t.Some? && Rescale(valid[i][j].value, SeqMin(vs), SeqMax(vs)) >= t.value)
    ensures forall i, j :: 0 <= i < band.height && 0 <= j < band.width && sel[i][j] ==>
              band.cells[i][j].Some? && band.cells[i][j].value != Sentinel
  {
    var valid := DemValid(band);
    var vs := Present(valid);
    var t := DemThreshold(band, k, cluster);
    seq(band.height, i requires 0 <= i < band.height =>
      seq(band.width, j requires 0 <= j < band.width => Selected(valid[i][j], vs, t)))
  }

  /** One cell of `valid & (scaled >= thresh)`, with the values rescaled
      over the valid values `vs`. */
  function Selected(c: Option<real>, vs: seq<real>, t: Option<real>): (b: bool)
    ensures b ==> c.Some? && t.Some?
  {
    t.Some? && c.Some? && |vs| > 0 && Rescale(c.value, SeqMin(vs), SeqMax(vs)) >= t.value
  }

  /** When the clustering returns all `k_use` centres it is asked for (as it
      does when the values hold at least `k_use` distinct heights), no
      file raises. */
  lemma DemRaisesOnlyOnShortCenters(band: Band, k: int, cluster: Clusterer)
    requires band.Valid()
    requires forall vals: seq<real>, n: nat :: 1 <= n <= |vals| ==> |cluster(vals, n)| == n
    ensures !DemRaises(band, k, cluster)
  {
    var vs := Present(DemValid(band));
    if vs != [] {
      var kUse := ClusterCount(k, |vs|);
      assert |DemCenters(vs, k, cluster)| == kUse;
    }
  }

  /** The threshold is a rescaled value: it lies in [0, 255]. */
  lemma DemThresholdRange(band: Band, k: int, cluster: Clusterer)
    requires band.Valid()
    requires CentersWithinRange(cluster)
    requires !DemRaises(band, k, cluster)
    requires DemThreshold(band, k, cluster).Some?
    ensures 0.0 <= DemThreshold(band, k, cluster).value <= 255.0
  {
    var vs := Present(DemValid(band));
    var vmin, vmax := SeqMin(vs), SeqMax(vs);
    var scaled := ScaledValues(vs, vmin, vmax);
    forall i | 0 <= i < |scaled| ensures 0.0 <= scaled[i] <= 255.0 {
      RescaleRange(vs[i], vmin, vmax);
    }
    var kUse := ClusterCount(k, |scaled|);
    var c := cluster(scaled, kUse);
    var idx := if kUse >= 2 then 1 else 0;
    assert SeqMin(scaled) <= c[idx] <= SeqMax(scaled);
  }

  /** Whatever the cluster count, the highest valid pixel is always selected:
      the mask is never empty while some pixel is valid, also in the
      single-cluster case, where the cut-off is the one centre. */
  lemma DemSelectsPeak(band: Band, k: int, cluster: Clusterer, i: nat, j: nat)
    requires band.Valid()
    requires CentersWithinRange(cluster)
    requires !DemRaises(band, k, cluster)
    requires i < band.height && j < band.width
    requires DemValid(band)[i][j].Some?
    requires DemValid(band)[i][j].value == SeqMax(Present(DemValid(band)))
    ensures DemSelection(band, k, cluster)[i][j]
  {
    var valid := DemValid(band);
    var vs := Present(valid);
    PresentCell(valid, i, j);
    var vmin, vmax := SeqMin(vs), SeqMax(vs);
    var scaled := ScaledValues(vs, vmin, vmax);
    var kUse := ClusterCount(k, |scaled|);
    var c := cluster(scaled, kUse);
    var idx := if kUse >= 2 then 1 else 0;
    var t := DemThreshold(band, k, cluster);
    assert t == Some(c[idx]);
    assert c[idx] <= SeqMax(scaled);
    var m :| 0 <= m < |scaled| && scaled[m] == SeqMax(scaled);
    RescaleMonotone(vs[m], vmax, vmin, vmax);
    assert Selected(valid[i][j], vs, t);
  }

  /** The selection is upward closed: a valid pixel at least as high as a
      selected one is selected too. */
  lemma DemSelectionUpward(band: Band, k: int, cluster: Clusterer, i: nat, j: nat, p: nat, q: nat)
    requires band.Valid()
    requires CentersWithinRange(cluster)
    requires !DemRaises(band, k, cluster)
    requires i < band.height && j < band.width && p < band.height && q < band.width
    requires DemSelection(band, k, cluster)[i][j]
    requires DemValid(band)[p][q].Some?
    requires DemValid(band)[i][j].value <= DemValid(band)[p][q].value
    ensures DemSelection(band, k, cluster)[p][q]
  {
    var vs := Present(DemValid(band));
    RescaleMonotone(DemValid(band)[i][j].value, DemValid(band)[p][q].value, SeqMin(vs), SeqMax(vs));
  }

  /** No valid pixel gives an all-zero mask of the band's shape. */
  lemma DemNoValidPixels(band: Band, k: int, cluster: Clusterer)
    requires band.Valid()
    requires forall i, j :: 0 <= i < band.height && 0 <= j < band.width ==>
               band.cells[i][j].None? || band.cells[i][j] == Some(Sentinel)
    ensures forall i, j :: 0 <= i < band.height && 0 <= j < band.width ==>
              Encode(DemSelection(band, k, cluster))[i][j] == 0
  {
  }

  /** The file `generate_masks_dem` writes for a raster, `None` when reading
      the threshold raises and the file is skipped. */
  function DemOutput(r: Raster, k: int, cluster: Clusterer): Option<Output>
    requires r.Valid()
  {
    if DemRaises(r.band, k, cluster) then None
    else Some(Output(MaskProfile(r.profile), Encode(DemSelection(r.band, k, cluster))))
  }

  /** `generate_masks_dem` over one folder: one output per readable `.tif`
      entry whose threshold can be read; entries that fail to read, and
      those whose clustering returns too few centres, are skipped. */
  method GenerateMasksDem(entries: seq<Entry>, k: int, cluster: Clusterer)
    returns (written: map<string, Output>)
    requires DistinctNames(entries)
    ensures forall name :: name in written <==>
              exists n :: 0 <= n < |entries| && entries[n].name == name && Processed(entries[n])
                          && !DemRaises(entries[n].raster.value.band, k, cluster)
    ensures forall n :: 0 <= n < |entries| && Processed(entries[n]) && !DemRaises(entries[n].raster.value.band, k, cluster) ==>
              written[entries[n].name] == Output(MaskProfile(entries[n].raster.value.profile),
                                                 Encode(DemSelection(entries[n].raster.value.band, k, cluster)))
  {
    ghost var outs := DemOutputs(entries, k, cluster);
    written := map[];
    var n := 0;
    while n < |entries|
      invariant 0 <= n <= |entries|
      invariant Recorded(entries, outs, n, written)
    {
      var e := entries[n];
      var next := written;
      if Processed(e) {
        var out := PaintDem(e.raster.value, k, cluster);
        if out.Some? {
          next := written[e.name := out.value];
        }
      }
      RecordStep(entries, outs, n, written, next);
      written := next;
      n := n + 1;
    }
  }

  /** The file `generate_masks_dem` writes for each entry of a folder, `None`
      for an entry it skips. */
  ghost function DemOutputs(entries: seq<Entry>, k: int, cluster: Clusterer): (outs: seq<Option<Output>>)
    ensures |outs| == |entries|
    ensures forall m :: 0 <= m < |entries| ==>
              outs[m] == if Processed(entries[m]) then DemOutput(entries[m].raster.value, k, cluster) else None
  {
    seq(|entries|, m requires 0 <= m < |entries| =>
      if Processed(entries[m]) then DemOutput(entries[m].raster.value, k, cluster) else None)
  }

  /** The mask file for one raster: the selection painted 255 on 0 into a
      new array, under the mask profile; nothing when the threshold cannot
      be read. */
  method PaintDem(raster: Raster, k: int, cluster: Clusterer) returns (out: Option<Output>)
    requires raster.Valid()
    ensures out == DemOutput(raster, k, cluster)
  {
    if DemRaises(raster.band, k, cluster) {
      return None;
    }
    var sel := DemSelection(raster.band, k, cluster);
    var painted := Paint(sel, raster.band.height, raster.band.width);
    out := Some(Output(MaskProfile(raster.profile), ToMatrix(painted)));
  }

  // ---------------------------------------------------------------------
  // Batch layout (generate_masks_for_batch)

  /** The mask folder for a source sub-folder: its first `_`-separated token
      followed by `_mask` (`dem_by_plot` gives `dem_mask`). */
  function MaskFolderName(subdir: string): (r: string)
    ensures EndsWith(r, "_mask")
    ensures StartsWith(subdir, r[..|r| - 5])
    ensures '_' !in r[..|r| - 5]
    ensures |r| - 5 < |subdir| ==> subdir[|r| - 5] == '_'
  {
    var head := FirstToken(subdir, '_');
    assert (head + "_mask")[..|head|] == head;
    head + "_mask"
  }
}
