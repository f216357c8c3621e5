/** 8_trait_extract_dem.py: per plot, the DEM heights under the vegetation
    mask give a top-5% mean height, a volume (the sum of the heights), the
    covered pixel count and the covered area from the flight's ground
    sampling distance (GSD). */
module DemTraits {
  import opened Base
  import opened Matrices
  import opened Stats
  import opened Rasters
  import opened Plots

  // ---------------------------------------------------------------------
  // Reading the mask

  /** A mask as `cv2.imread(..., IMREAD_UNCHANGED)` returns it: one plane, or
      a plane of channel vectors. */
  datatype MaskImage = Gray(px: Matrix<int>) | Color(px3: Matrix<seq<int>>) {
    predicate Valid() {
      match this
      case Gray(px) => Rectangular(px)
      case Color(px3) =>
        Rectangular(px3) && forall i, j :: 0 <= i < |px3| && 0 <= j < |px3[i]| ==> |px3[i][j]| > 0
    }
  }

  /** Channel 0 of a three-dimensional mask, then the uint8 cast. */
  function MaskPlane(mi: MaskImage): (r: Matrix<int>)
    requires mi.Valid()
    ensures mi.Gray? ==> IsRect(r, |mi.px|, Width(mi.px))
    ensures mi.Color? ==> IsRect(r, |mi.px3|, Width(mi.px3))
    ensures mi.Gray? ==> forall i, j :: 0 <= i < |r| && 0 <= j < |r[i]| ==> r[i][j] == Uint8(mi.px[i][j])
    ensures mi.Color? ==> forall i, j :: 0 <= i < |r| && 0 <= j < |r[i]| ==> r[i][j] == Uint8(mi.px3[i][j][0])
  {
    match mi
    case Gray(px) =>
      seq(|px|, i requires 0 <= i < |px| => seq(|px[i]|, j requires 0 <= j < |px[i]| => Uint8(px[i][j])))
    case Color(px3) =>
      seq(|px3|, i requires 0 <= i < |px3| => seq(|px3[i]|, j requires 0 <= j < |px3[i]| => Uint8(px3[i][j][0])))
  }

  // ---------------------------------------------------------------------
  // Masking

  /** One cell of `np.where(im_mask > 0, im_dem, nan)` after -9999 became
      NaN.  Unlike the mulch script, a height of exactly 0 is kept. */
  function DemCell(dem: Option<real>, mask: int): (r: Option<real>)
    ensures r.Some? <==> mask > 0 && dem.Some? && dem.value != Sentinel
    ensures r.Some? ==> r == dem
  {
    var withNaN := if dem == Some(Sentinel) then None else dem;
    if mask > 0 then withNaN else None
  }

  /** The masked DEM over the common extent of the DEM and the mask plane. */
  function MaskedDem(dem: Matrix<Option<real>>, mask: Matrix<int>): (r: Matrix<Option<real>>)
    requires Rectangular(dem) && Rectangular(mask)
    ensures IsRect(r, CommonHeight(dem, mask), CommonWidth(dem, mask))
    ensures forall i, j :: 0 <= i < CommonHeight(dem, mask) && 0 <= j < CommonWidth(dem, mask) ==>
              r[i][j] == DemCell(dem[i][j], mask[i][j])
  {
    var h, w := CommonHeight(dem, mask), CommonWidth(dem, mask);
    seq(h, i requires 0 <= i < h => seq(w, j requires 0 <= j < w => DemCell(dem[i][j], mask[i][j])))
  }

  /** Setting -9999 to NaN beforehand leaves the masked DEM as it is: the
      masking drops -9999 anyway. */
  lemma MaskedDemOfCleared(dem: Matrix<Option<real>>, cleared: Matrix<Option<real>>, mask: Matrix<int>)
    requires Rectangular(dem) && Rectangular(mask) && IsRect(cleared, |dem|, Width(dem))
    requires forall i, j :: 0 <= i < |dem| && 0 <= j < Width(dem) ==>
               cleared[i][j] == if dem[i][j] == Some(Sentinel) then None else dem[i][j]
    ensures Rectangular(cleared)
    ensures MaskedDem(cleared, mask) == MaskedDem(dem, mask)
  {
    var a, b := MaskedDem(cleared, mask), MaskedDem(dem, mask);
    forall i | 0 <= i < CommonHeight(dem, mask) ensures a[i] == b[i] {
    }
  }

  /** `vals`: the non-NaN masked heights, row by row. */
  function PlotValues(dem: Matrix<Option<real>>, mask: Matrix<int>): seq<real>
    requires Rectangular(dem) && Rectangular(mask)
  {
    Present(MaskedDem(dem, mask))
  }

  /** `coverage_px = int(n)` counts each pixel once: the plot's values hold
      one value per counted cell, with its multiplicity. */
  lemma PlotValueCounts(dem: Matrix<Option<real>>, mask: Matrix<int>)
    requires Rectangular(dem) && Rectangular(mask)
    ensures var cells := Cells(MaskedDem(dem, mask));
            |PlotValues(dem, mask)| == |cells| - cells[None]
            && forall x :: multiset(PlotValues(dem, mask))[x] == cells[Some(x)]
  {
    PresentCounts(MaskedDem(dem, mask));
  }

  /** A height counts exactly when it lies in the common extent, its mask
      pixel is set and it is neither NaN nor -9999. */
  lemma PlotValueSource(dem: Matrix<Option<real>>, mask: Matrix<int>, x: real)
    requires Rectangular(dem) && Rectangular(mask)
    requires x in PlotValues(dem, mask)
    ensures exists i, j :: 0 <= i < CommonHeight(dem, mask) && 0 <= j < CommonWidth(dem, mask)
                           && mask[i][j] > 0 && dem[i][j] == Some(x) && x != Sentinel
  {
    var m := MaskedDem(dem, mask);
    PresentSource(m, x);
    var i, j :| 0 <= i < |m| && 0 <= j < |m[i]| && m[i][j] == Some(x);
    assert DemCell(dem[i][j], mask[i][j]) == Some(x);
  }

  lemma PlotValueCell(dem: Matrix<Option<real>>, mask: Matrix<int>, i: nat, j: nat)
    requires Rectangular(dem) && Rectangular(mask)
    requires i < CommonHeight(dem, mask) && j < CommonWidth(dem, mask)
    requires mask[i][j] > 0 && dem[i][j].Some? && dem[i][j].value != Sentinel
    ensures dem[i][j].value in PlotValues(dem, mask)
  {
    var m := MaskedDem(dem, mask);
    assert m[i][j] == dem[i][j];
    PresentCell(m, i, j);
  }

  // ---------------------------------------------------------------------
  // Statistics

  /** `k = max(1, int(0.05 * n))`, reading `int(0.05 * n)` as an exact floor. */
  function TopCount(n: nat): (k: nat)
    ensures 1 <= k
    ensures n >= 1 ==> k <= n
  {
    assert 100 * ((5 * n) / 100) <= 5 * n;
    Max(1, (5 * n) / 100)
  }

  /** Up to 39 values only the largest one is kept. */
  lemma TopCountBounds(n: nat)
    requires n >= 1
    ensures 1 <= TopCount(n) <= n
    ensures n < 40 ==> TopCount(n) == 1
  {
    assert 100 * ((5 * n) / 100) <= 5 * n;
  }

  /** The k largest values, `np.partition(vals, n - k)[n - k:]`, here in
      ascending order: no value left out exceeds a kept one. */
  function Largest(vals: seq<real>): (r: seq<real>)
    requires |vals| > 0
    ensures |r| == TopCount(|vals|)
    ensures multiset(r) <= multiset(vals)
    ensures forall x, j :: x in multiset(vals) - multiset(r) && 0 <= j < |r| ==> x <= r[j]
  {
    var n := |vals|;
    TopCountBounds(n);
    var cut := n - TopCount(n);
    var s := Sort(vals);
    SortedTailDominates(s, vals, cut);
    s[cut..]
  }

  /** `avg_top5`: the mean of the k largest values, the tail of the sorted
      values that `Largest` describes (LargestIsTail). */
  function TopMean(vals: seq<real>): (r: real)
    requires |vals| > 0
    ensures |vals| < 40 ==> r == SeqMax(vals)
  {
    TopCountBounds(|vals|);
    MeanOfLast(Sort(vals), vals);
    Mean(Sort(vals)[|vals| - TopCount(|vals|)..])
  }

  /** The last value of the sorted values, on its own, averages to the
      maximum. */
  lemma MeanOfLast(s: seq<real>, vals: seq<real>)
    requires |vals| > 0 && Sorted(s) && multiset(s) == multiset(vals)
    ensures |s| == |vals| && Mean(s[|s| - 1..]) == SeqMax(vals)
  {
    SortedLast(s, vals);
    var last := s[|s| - 1..];
    assert last == [s[|s| - 1]];
    assert Sum(last) == s[|s| - 1] + Sum(last[1..]);
  }

  /** Whatever order `np.partition` leaves the values in, its last k
      entries average to `avg_top5`: any permutation whose first n - k
      values are at most its last k gives the same mean. */
  lemma PartitionTopMean(vals: seq<real>, p: seq<real>)
    requires |vals| > 0 && multiset(p) == multiset(vals)
    requires |p| == |vals| && PartitionedAt(p, |p| - TopCount(|p|))
    ensures |p| >= TopCount(|p|) > 0
    ensures Mean(p[|p| - TopCount(|p|)..]) == TopMean(vals)
  {
    var n := |p|;
    TopCountBounds(n);
    var cut := n - TopCount(n);
    PartitionTail(vals, p, cut);
    var top := Sort(vals)[cut..];
    var m := Mean(top);
    assert TopMean(vals) == m;
    SumPermutation(p[cut..], top);
    assert |p[cut..]| == |top|;
    assert Mean(p[cut..]) == m;
  }

  /** The top-5% mean lies between the overall mean and the maximum. */
  lemma TopMeanBounds(vals: seq<real>)
    requires |vals| > 0
    ensures Mean(vals) <= TopMean(vals) <= SeqMax(vals)
  {
    TopCountBounds(|vals|);
    var cut := |vals| - TopCount(|vals|);
    var s := Sort(vals);
    var m := Mean(s[cut..]);
    assert TopMean(vals) == m;
    SortedTailMeanOf(vals, s, cut);
    assert Mean(vals) <= m <= SeqMax(vals);
  }

  /** The kept values are the tail of the sorted values. */
  lemma LargestIsTail(vals: seq<real>)
    requires |vals| > 0
    ensures TopCount(|vals|) <= |vals|
    ensures Largest(vals) == Sort(vals)[|vals| - TopCount(|vals|)..]
  {
    TopCountBounds(|vals|);
  }

  /** The sum of two nonnegative multiples of one factor. */
  lemma ScaledSum(a: real, b: real, m: real)
    ensures a * m + b * m == (a + b) * m
  {
  }

  /** `(gsd_mm / 1000.0) ** 2`: the area of one pixel in square metres. */
  function PixelArea(gsdMm: real): (r: real)
    ensures r >= 0.0
  {
    Square(gsdMm / 1000.0)
  }

  /** `coverage_m2 = coverage_px * px_m2`. */
  function CoverageArea(n: nat, gsdMm: real): (r: real)
    ensures r >= 0.0
    ensures n == 0 || gsdMm == 0.0 ==> r == 0.0
  {
    n as real * PixelArea(gsdMm)
  }

  /** The covered area is additive in the pixel count. */
  lemma CoverageAdditive(a: nat, b: nat, gsdMm: real)
    ensures CoverageArea(a + b, gsdMm) == CoverageArea(a, gsdMm) + CoverageArea(b, gsdMm)
  {
    var px := PixelArea(gsdMm);
    ScaledSum(a as real, b as real, px);
  }

  // ---------------------------------------------------------------------
  // Lookups

  /** A spreadsheet cell as pandas reads it: text or an integer. */
  datatype Cell = TextCell(text: string) | IntCell(n: int)

  /** The decimal digits of a natural number, as `str` writes them. */
  function Digits(n: nat): (r: string)
    ensures r != []
    ensures forall i :: 0 <= i < |r| ==> '0' <= r[i] <= '9'
    ensures |r| > 1 ==> r[0] != '0'
  {
    if n < 10 then [('0' as int + n) as char]
    else Digits(n / 10) + [('0' as int + n % 10) as char]
  }

  /** The number a string of decimal digits denotes. */
  function DigitsValue(s: string): nat
    requires forall i :: 0 <= i < |s| ==> '0' <= s[i] <= '9'
  {
    if s == [] then 0
    else DigitsValue(s[..|s| - 1]) * 10 + (s[|s| - 1] as int - '0' as int)
  }

  lemma {:induction false} DigitsRoundTrip(n: nat)
    ensures DigitsValue(Digits(n)) == n
  {
    if n >= 10 {
      var d := Digits(n);
      assert d[..|d| - 1] == Digits(n / 10);
      DigitsRoundTrip(n / 10);
    }
  }

  /** `str` of an integer. */
  function Decimal(i: int): (r: string)
    ensures r != []
    ensures (r[0] == '-') <==> i < 0
  {
    if i < 0 then "-" + Digits(-i) else Digits(i)
  }

  /** `int(t)` for the texts `str` writes for integers: an optional minus
      sign followed by decimal digits. */
  function DecimalValue(t: string): int
    requires t != [] && forall k :: 1 <= k < |t| ==> '0' <= t[k] <= '9'
    requires t[0] == '-' || '0' <= t[0] <= '9'
  {
    if t[0] == '-' then -(DigitsValue(t[1..]) as int) else DigitsValue(t)
  }

  /** Reading back the text of an integer gives the integer. */
  lemma DecimalRoundTrip(i: int)
    ensures var t := Decimal(i);
            (forall k :: 1 <= k < |t| ==> '0' <= t[k] <= '9') && (t[0] == '-' || '0' <= t[0] <= '9')
    ensures DecimalValue(Decimal(i)) == i
  {
    var t := Decimal(i);
    if i < 0 {
      var d := Digits(-i);
      assert t == ['-'] + d;
      assert t[1..] == d;
      DigitsRoundTrip(-i);
    } else {
      DigitsRoundTrip(i);
    }
  }

  /** Distinct integers print differently. */
  lemma DecimalInjective(a: int, b: int)
    requires Decimal(a) == Decimal(b)
    ensures a == b
  {
    DecimalRoundTrip(a);
    DecimalRoundTrip(b);
  }

  /** `str(cell)`. */
  function CellText(c: Cell): string {
    match c
    case TextCell(t) => t
    case IntCell(n) => Decimal(n)
  }

  /** The first position holding `k`, if any. */
  function FirstIndex<K(==)>(keys: seq<K>, k: K): (r: Option<nat>)
    ensures r.None? <==> k !in keys
    ensures r.Some? ==> r.value < |keys| && keys[r.value] == k && k !in keys[..r.value]
  {
    if keys == [] then None
    else if keys[0] == k then Some(0)
    else
      match FirstIndex(keys[1..], k)
      case None => None
      case Some(i) =>
        assert keys[..i + 1] == [keys[0]] + keys[1..][..i];
        Some(i + 1)
  }

  /** One row of the mulch-baseline sheet. */
  datatype RefEntry = RefEntry(imageId: Cell, height: Option<real>)

  /** One row of `gsd_4_all.xlsx`. */
  datatype GsdEntry = GsdEntry(filename: Cell, gsdMm: Option<real>)

  /** `_safe_get_ref_height`: NaN without a table or without a row whose
      "Image ID" equals the image's name; otherwise the first such row's
      height.  A numeric "Image ID" never equals the name. */
  function RefHeight(table: Option<seq<RefEntry>>, imageId: string): (r: Option<real>)
    ensures table.None? ==> r.None?
    ensures table.Some? ==>
              var ids := seq(|table.value|, i requires 0 <= i < |table.value| => table.value[i].imageId);
              match FirstIndex(ids, TextCell(imageId))
              case None => r.None?
              case Some(i) => r == table.value[i].height
  {
    if table.None? then None
    else
      var ids := seq(|table.value|, i requires 0 <= i < |table.value| => table.value[i].imageId);
      match FirstIndex(ids, TextCell(imageId))
      case None => None
      case Some(i) => table.value[i].height
  }

  /** `_safe_get_gsd_mm`: the same lookup on "filename", comparing the
      string forms of both sides, so an integer date cell matches its
      digits. */
  function GsdLookup(table: Option<seq<GsdEntry>>, date: string): (r: Option<real>)
    ensures table.None? ==> r.None?
    ensures table.Some? ==>
              var keys := seq(|table.value|, i requires 0 <= i < |table.value| => CellText(table.value[i].filename));
              match FirstIndex(keys, date)
              case None => r.None?
              case Some(i) => r == table.value[i].gsdMm
  {
    if table.None? then None
    else
      var keys := seq(|table.value|, i requires 0 <= i < |table.value| => CellText(table.value[i].filename));
      match FirstIndex(keys, date)
      case None => None
      case Some(i) => table.value[i].gsdMm
  }

  /** A date stored as a number in the GSD sheet is found under its digits,
      and the first matching row wins. */
  lemma GsdNumericDate(n: int, g: Option<real>, rest: seq<GsdEntry>)
    ensures GsdLookup(Some([GsdEntry(IntCell(n), g)] + rest), Decimal(n)) == g
  {
    var t := [GsdEntry(IntCell(n), g)] + rest;
    var keys := seq(|t|, i requires 0 <= i < |t| => CellText(t[i].filename));
    assert keys[0] == Decimal(n);
  }

  // ---------------------------------------------------------------------
  // Rows

  const CoveragePixelColumn: string := "Canopy Coverage pixel"
  const CoverageAreaColumn: string := "Canopy Coverage (m^2)"
  const RelativeHeightColumn: string := "Relative Average Height (Top 5%) (cm)"
  const RelativeVolumeColumn: string := "Relative Volume (m^3)"
  const AbsoluteHeightColumn: string := "Average Height (Top 5%)"
  const AbsoluteVolumeColumn: string := "Volume"

  /** The row of a plot without valid heights: NaN metrics, plus the two
      absolute columns when `keep_absolute` is set. */
  function EmptyRow(date: string, imageId: string, keepAbsolute: bool): (row: Row)
    ensures row.Keys == {DateColumn, ImageColumn, CoveragePixelColumn, CoverageAreaColumn,
                         RelativeHeightColumn, RelativeVolumeColumn}
                        + (if keepAbsolute then {AbsoluteHeightColumn, AbsoluteVolumeColumn} else {})
    ensures row[DateColumn] == Text(date) && row[ImageColumn] == Text(imageId)
    ensures forall c :: c in row && c != DateColumn && c != ImageColumn ==> row[c] == Num(None)
  {
    var row := map[DateColumn := Text(date), ImageColumn := Text(imageId),
                   CoveragePixelColumn := Num(None), CoverageAreaColumn := Num(None),
                   RelativeHeightColumn := Num(None), RelativeVolumeColumn := Num(None)];
    if keepAbsolute then row + map[AbsoluteHeightColumn := Num(None), AbsoluteVolumeColumn := Num(None)]
    else row
  }

  /** The first row dictionary of a plot with valid heights, holding the
      baseline-relative height and volume. */
  function RelativeRow(date: string, imageId: string, n: nat, area: real,
                       relAvg: Option<real>, relVol: Option<real>): (row: Row)
    ensures row.Keys == {DateColumn, ImageColumn, CoveragePixelColumn, CoverageAreaColumn,
                         RelativeHeightColumn, RelativeVolumeColumn}
  {
    map[DateColumn := Text(date), ImageColumn := Text(imageId),
        CoveragePixelColumn := Count(n), CoverageAreaColumn := Num(Some(area)),
        RelativeHeightColumn := Num(relAvg), RelativeVolumeColumn := Num(relVol)]
  }

  /** `row.update(...)` with the absolute height and volume under the two
      relative column names: those two cells change, no other. */
  function WithAbsolute(row: Row, avg: real, volume: real): (r: Row)
    ensures r.Keys == row.Keys + {RelativeHeightColumn, RelativeVolumeColumn}
    ensures r[RelativeHeightColumn] == Num(Some(avg)) && r[RelativeVolumeColumn] == Num(Some(volume))
    ensures forall c :: c in row && c != RelativeHeightColumn && c != RelativeVolumeColumn ==> r[c] == row[c]
  {
    row + map[RelativeHeightColumn := Num(Some(avg)), RelativeVolumeColumn := Num(Some(volume))]
  }

  /** The update erases whatever baseline-relative values the first
      dictionary held. */
  lemma UpdateHidesRelative(date: string, imageId: string, n: nat, area: real,
                            a1: Option<real>, v1: Option<real>, a2: Option<real>, v2: Option<real>,
                            avg: real, volume: real)
    ensures WithAbsolute(RelativeRow(date, imageId, n, area, a1, v1), avg, volume)
         == WithAbsolute(RelativeRow(date, imageId, n, area, a2, v2), avg, volume)
  {
    var r1 := WithAbsolute(RelativeRow(date, imageId, n, area, a1, v1), avg, volume);
    var r2 := WithAbsolute(RelativeRow(date, imageId, n, area, a2, v2), avg, volume);
    assert r1.Keys == r2.Keys;
    forall c | c in r1 ensures r1[c] == r2[c] {
    }
  }

  /** The row of a plot with valid heights.  Without a GSD `px_m2` is never
      bound and the script stops with an error.  The baseline-relative
      height and volume are computed and then overwritten with the
      absolute `avg_top5` and volume. */
  function StatsRow(date: string, imageId: string, vals: seq<real>, gsdMm: Option<real>,
                    refHeight: Option<real>): (r: Result<Row, string>)
    requires |vals| > 0
    ensures r.Failure? <==> gsdMm.None?
    ensures r.Success? ==>
              r.value.Keys == {DateColumn, ImageColumn, CoveragePixelColumn, CoverageAreaColumn,
                               RelativeHeightColumn, RelativeVolumeColumn}
              && r.value[DateColumn] == Text(date) && r.value[ImageColumn] == Text(imageId)
              && r.value[CoveragePixelColumn] == Count(|vals|)
              && r.value[CoverageAreaColumn] == Num(Some(CoverageArea(|vals|, gsdMm.value)))
              && r.value[RelativeHeightColumn] == Num(Some(TopMean(vals)))
              && r.value[RelativeVolumeColumn] == Num(Some(Sum(vals)))
  {
    if gsdMm.None? then Failure("local variable 'px_m2' referenced before assignment")
    else
      var px := PixelArea(gsdMm.value);
      var n := |vals|;
      var avg := TopMean(vals);
      var volume := Sum(vals);
      var relAvg := if refHeight.Some? then Some(RelativeHeight(avg, refHeight.value)) else None;
      var relVol := if refHeight.Some? then Some(RelativeVolume(volume, n, refHeight.value, px)) else None;
      Success(WithAbsolute(RelativeRow(date, imageId, n, CoverageArea(n, gsdMm.value), relAvg, relVol), avg, volume))
  }

  /** The written row does not depend on the mulch baseline. */
  lemma StatsRowIgnoresBaseline(date: string, imageId: string, vals: seq<real>, gsdMm: Option<real>,
                                ref1: Option<real>, ref2: Option<real>)
    requires |vals| > 0
    ensures StatsRow(date, imageId, vals, gsdMm, ref1) == StatsRow(date, imageId, vals, gsdMm, ref2)
  {
    if gsdMm.Some? {
      var px := PixelArea(gsdMm.value);
      var n := |vals|;
      var avg, volume := TopMean(vals), Sum(vals);
      var a1 := if ref1.Some? then Some(RelativeHeight(avg, ref1.value)) else None;
      var v1 := if ref1.Some? then Some(RelativeVolume(volume, n, ref1.value, px)) else None;
      var a2 := if ref2.Some? then Some(RelativeHeight(avg, ref2.value)) else None;
      var v2 := if ref2.Some? then Some(RelativeVolume(volume, n, ref2.value, px)) else None;
      UpdateHidesRelative(date, imageId, n, CoverageArea(n, gsdMm.value), a1, v1, a2, v2, avg, volume);
    }
  }

  /** `(avg_top5 - ref_h) * 100.0` */
  function RelativeHeight(avg: real, refHeight: real): real {
    (avg - refHeight) * 100.0
  }

  /** `(volume - coverage_px * ref_h) * px_m2` */
  function RelativeVolume(volume: real, n: nat, refHeight: real, px: real): real {
    (volume - n as real * refHeight) * px
  }

  /** What the script records for a plot whose rasters were read: the row
      to append, or the error that stops the run. */
  function PlotRow(path: ImagePath, vals: seq<real>, refTable: Option<seq<RefEntry>>,
                   gsdTable: Option<seq<GsdEntry>>, keepAbsolute: bool): (r: Result<Row, string>)
    ensures r.Failure? <==> vals != [] && GsdLookup(gsdTable, DateOf(path)).None?
    ensures r.Success? ==>
              {DateColumn, ImageColumn, CoveragePixelColumn, RelativeHeightColumn} <= r.value.Keys
              && r.value[DateColumn] == Text(DateOf(path)) && r.value[ImageColumn] == Text(path.file)
    ensures r.Success? && vals != [] ==>
              r.value[CoveragePixelColumn] == Count(|vals|) && r.value[RelativeHeightColumn] == Num(Some(TopMean(vals)))
    ensures r.Success? && vals == [] ==> r.value[CoveragePixelColumn] == Num(None)
  {
    if vals == [] then Success(EmptyRow(DateOf(path), path.file, keepAbsolute))
    else StatsRow(DateOf(path), path.file, vals, GsdLookup(gsdTable, DateOf(path)),
                  RefHeight(refTable, path.file))
  }

  /** The mulch baseline changes nothing in what is recorded. */
  lemma RowIgnoresBaseline(path: ImagePath, vals: seq<real>, ref1: Option<seq<RefEntry>>,
                           ref2: Option<seq<RefEntry>>, gsdTable: Option<seq<GsdEntry>>, keepAbsolute: bool)
    ensures PlotRow(path, vals, ref1, gsdTable, keepAbsolute) == PlotRow(path, vals, ref2, gsdTable, keepAbsolute)
  {
    if vals != [] {
      StatsRowIgnoresBaseline(DateOf(path), path.file, vals, GsdLookup(gsdTable, DateOf(path)),
                              RefHeight(ref1, path.file), RefHeight(ref2, path.file));
    }
  }

  /** A plot with valid heights but no GSD for its date stops the run; a
      plot without valid heights never needs the GSD. */
  lemma MissingGsd(path: ImagePath, vals: seq<real>, refTable: Option<seq<RefEntry>>,
                   gsdTable: Option<seq<GsdEntry>>, keepAbsolute: bool)
    requires GsdLookup(gsdTable, DateOf(path)).None?
    ensures PlotRow(path, vals, refTable, gsdTable, keepAbsolute).Failure? <==> vals != []
  {
  }

  /** `process_image`.  Nothing happens when the DEM or the mask cannot be
      read.  Otherwise -9999 is overwritten with NaN in place, the plot's row
      is built and appended under its date, or, without a GSD for a plot
      with valid heights, the error is returned and nothing is appended. */
  method ProcessImage(path: ImagePath, dem: Option<Matrix<Option<real>>>, mask: Option<MaskImage>,
                      refTable: Option<seq<RefEntry>>, gsdTable: Option<seq<GsdEntry>>,
                      keepAbsolute: bool, output: DateTables)
    returns (error: Option<string>)
    requires dem.Some? ==> Rectangular(dem.value)
    requires mask.Some? ==> mask.value.Valid()
    modifies output
    ensures dem.None? || mask.None? ==> error.None? && output.rows == old(output.rows)
    ensures dem.Some? && mask.Some? ==>
              var outcome := PlotRow(path, PlotValues(dem.value, MaskPlane(mask.value)), refTable, gsdTable, keepAbsolute);
              match outcome
              case Success(row) => error.None? && output.rows == AppendRow(old(output.rows), DateOf(path), row)
              case Failure(e) => error == Some(e) && output.rows == old(output.rows)
  {
    if dem.None? || mask.None? {
      return None;
    }
    var d := dem.value;
    var a := ToArray(d, |d|, Width(d));
    ClearValue(a, Sentinel);
    var cleared := ToMatrix(a);
    var plane := MaskPlane(mask.value);
    MaskedDemOfCleared(d, cleared, plane);
    var vals := Present(MaskedDem(cleared, plane));
    assert vals == PlotValues(d, plane);
    var outcome := PlotRow(path, vals, refTable, gsdTable, keepAbsolute);
    if outcome.Failure? {
      return Some(outcome.error);
    }
    output.Append(DateOf(path), outcome.value);
    return None;
  }
}
