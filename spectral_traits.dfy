/** 9_trait_extract_spectral.py: per plot, the vegetation-index (or colour)
    image is reduced to one grey plane, cropped together with the mask to
    their common extent, and the mean and population standard deviation of
    the grey values under the mask are merged into one row per date and
    image name. */
module SpectralTraits {
  import opened Base
  import opened Matrices
  import opened Text
  import opened Stats
  import opened Plots

  // ---------------------------------------------------------------------
  // Grey conversion (_to_gray_float)

  /** An index image as `skimage.io.imread` returns it: one plane, or a plane
      of `channels` band values per pixel. */
  datatype SpectralImage = Plane(px: Matrix<Option<real>>) | Bands(cube: Matrix<seq<Option<real>>>, channels: nat) {
    predicate Valid() {
      match this
      case Plane(px) => Rectangular(px)
      case Bands(cube, c) =>
        Rectangular(cube) && c >= 1
        && forall i, j :: 0 <= i < |cube| && 0 <= j < |cube[i]| ==> |cube[i][j]| == c
    }
  }

  /** The band values of one pixel when none of them is NaN. */
  function Readings(v: seq<Option<real>>): (r: Option<seq<real>>)
    ensures r.Some? <==> forall k :: 0 <= k < |v| ==> v[k].Some?
    ensures r.Some? ==> |r.value| == |v| && forall k :: 0 <= k < |v| ==> r.value[k] == v[k].value
  {
    if v == [] then Some([])
    else
      match Readings(v[1..])
      case None => None
      case Some(rest) => if v[0].None? then None else Some([v[0].value] + rest)
  }

  /** `mean(axis=-1)` over one pixel's bands: NaN as soon as one band is NaN,
      otherwise the bands' sum over the band count, which lies between the
      smallest and the largest band. */
  function BandMean(v: seq<Option<real>>): (r: Option<real>)
    requires |v| > 0
    ensures r.None? <==> exists k :: 0 <= k < |v| && v[k].None?
    ensures r.Some? ==> r.value == Sum(Readings(v).value) / |v| as real
    ensures r.Some? ==> SeqMin(Readings(v).value) <= r.value <= SeqMax(Readings(v).value)
  {
    match Readings(v)
    case None => None
    case Some(xs) =>
      MeanBounds(xs, SeqMin(xs), SeqMax(xs));
      Some(Mean(xs))
  }

  /** One pixel of `_to_gray_float` for a three-dimensional image: with four
      bands the alpha band is dropped and the first three averaged; with
      three or more the bands are averaged; with one or two, band 0. */
  function GrayPixel(v: seq<Option<real>>): (r: Option<real>)
    requires |v| > 0
    ensures |v| <= 2 ==> r == v[0]
    ensures |v| == 4 ==> r == BandMean(v[..3])
    ensures |v| >= 3 && |v| != 4 ==> r == BandMean(v)
    ensures |v| >= 3 ==> (r.None? <==> exists k :: 0 <= k < |v| && (|v| != 4 || k < 3) && v[k].None?)
  {
    if |v| == 4 then
      var rgb := v[..3];
      assert forall k :: 0 <= k < 3 ==> rgb[k] == v[k];
      BandMean(rgb)
    else if |v| >= 3 then BandMean(v)
    else v[0]
  }

  /** The alpha band of a four-band pixel never affects its grey value. */
  lemma AlphaIgnored(rgb: seq<Option<real>>, a: Option<real>, b: Option<real>)
    requires |rgb| == 3
    ensures GrayPixel(rgb + [a]) == GrayPixel(rgb + [b]) == BandMean(rgb)
  {
    assert (rgb + [a])[..3] == rgb;
    assert (rgb + [b])[..3] == rgb;
  }

  /** An RGB or RGBA pixel whose colour bands are read is grey
      (r + g + b) / 3, whatever its alpha band. */
  lemma GrayOfRgb(red: real, green: real, blue: real, tail: seq<Option<real>>)
    requires |tail| <= 1
    ensures GrayPixel([Some(red), Some(green), Some(blue)] + tail) == Some((red + green + blue) / 3.0)
  {
    var rgb := [Some(red), Some(green), Some(blue)];
    var v := rgb + tail;
    assert v[..3] == rgb;
    var xs := [red, green, blue];
    assert forall k :: 0 <= k < 3 ==> rgb[k].Some?;
    var ys := Readings(rgb).value;
    assert ys[0] == red && ys[1] == green && ys[2] == blue;
    assert ys == xs;
    assert Sum(xs[2..]) == blue;
    assert Sum(xs[1..]) == green + blue;
    assert Sum(xs) == red + green + blue;
    var m := BandMean(rgb);
    assert m.value == (red + green + blue) / 3.0;
    if |tail| == 0 {
      assert v == rgb;
    }
  }

  /** A pixel whose averaged bands all read `x` is grey `x`. */
  lemma GrayOfEqualBands(v: seq<Option<real>>, x: real)
    requires |v| >= 3
    requires forall k :: 0 <= k < |v| ==> v[k] == Some(x)
    ensures GrayPixel(v) == Some(x)
  {
    var used := if |v| == 4 then v[..3] else v;
    assert forall k :: 0 <= k < |used| ==> used[k] == Some(x);
    var xs := Readings(used).value;
    ConstantMean(xs, x);
  }

  /** `_to_gray_float`: a plane as it is, a band image pixel by pixel. */
  function ToGray(img: SpectralImage): (r: Matrix<Option<real>>)
    requires img.Valid()
    ensures img.Plane? ==> r == img.px
    ensures img.Bands? ==> IsRect(r, |img.cube|, Width(img.cube))
    ensures img.Bands? ==> forall i, j :: 0 <= i < |r| && 0 <= j < |r[i]| ==> r[i][j] == GrayPixel(img.cube[i][j])
  {
    match img
    case Plane(px) => px
    case Bands(cube, c) =>
      seq(|cube|, i requires 0 <= i < |cube| =>
        seq(|cube[i]|, j requires 0 <= j < |cube[i]| => GrayPixel(cube[i][j])))
  }

  // ---------------------------------------------------------------------
  // Selection

  /** One cell of `np.where(mask > 0, gray, nan)`.  No value, -9999
      included, is treated as nodata here. */
  function SpectralCell(g: Option<real>, mask: int): (r: Option<real>)
    ensures r.Some? <==> mask > 0 && g.Some?
    ensures r.Some? ==> r == g
  {
    if mask > 0 then g else None
  }

  /** The masked grey image over the common extent of the image and the
      mask. */
  function MaskedGray(gray: Matrix<Option<real>>, mask: Matrix<int>): (r: Matrix<Option<real>>)
    requires Rectangular(gray) && Rectangular(mask)
    ensures IsRect(r, CommonHeight(gray, mask), CommonWidth(gray, mask))
    ensures forall i, j :: 0 <= i < CommonHeight(gray, mask) && 0 <= j < CommonWidth(gray, mask) ==>
              r[i][j] == SpectralCell(gray[i][j], mask[i][j])
  {
    var h, w := CommonHeight(gray, mask), CommonWidth(gray, mask);
    seq(h, i requires 0 <= i < h => seq(w, j requires 0 <= j < w => SpectralCell(gray[i][j], mask[i][j])))
  }

  /** `vals`: the non-NaN masked grey values, row by row. */
  function SelectedValues(gray: Matrix<Option<real>>, mask: Matrix<int>): seq<real>
    requires Rectangular(gray) && Rectangular(mask)
  {
    Present(MaskedGray(gray, mask))
  }

  /** `vals.size` counts each selected pixel once: the selected values hold
      one value per counted grey cell, with its multiplicity. */
  lemma SelectedValueCounts(gray: Matrix<Option<real>>, mask: Matrix<int>)
    requires Rectangular(gray) && Rectangular(mask)
    ensures var cells := Cells(MaskedGray(gray, mask));
            |SelectedValues(gray, mask)| == |cells| - cells[None]
            && forall x :: multiset(SelectedValues(gray, mask))[x] == cells[Some(x)]
  {
    PresentCounts(MaskedGray(gray, mask));
  }

  /** A value is selected exactly when it sits in the common extent, its
      mask pixel is set and it is not NaN. */
  lemma SelectedSource(gray: Matrix<Option<real>>, mask: Matrix<int>, x: real)
    requires Rectangular(gray) && Rectangular(mask)
    requires x in SelectedValues(gray, mask)
    ensures exists i, j :: 0 <= i < CommonHeight(gray, mask) && 0 <= j < CommonWidth(gray, mask)
                           && mask[i][j] > 0 && gray[i][j] == Some(x)
  {
    var m := MaskedGray(gray, mask);
    PresentSource(m, x);
    var i, j :| 0 <= i < |m| && 0 <= j < |m[i]| && m[i][j] == Some(x);
    assert SpectralCell(gray[i][j], mask[i][j]) == Some(x);
  }

  lemma SelectedCell(gray: Matrix<Option<real>>, mask: Matrix<int>, i: nat, j: nat)
    requires Rectangular(gray) && Rectangular(mask)
    requires i < CommonHeight(gray, mask) && j < CommonWidth(gray, mask)
    requires mask[i][j] > 0 && gray[i][j].Some?
    ensures gray[i][j].value in SelectedValues(gray, mask)
  {
    var m := MaskedGray(gray, mask);
    assert m[i][j] == gray[i][j];
    PresentCell(m, i, j);
  }

  // ---------------------------------------------------------------------
  // Statistics

  /** `np.sqrt`, left abstract: any function giving the nonnegative square
      root of a nonnegative argument (so the root of 0 is 0, stated as well
      because the solver does not derive it from the product). */
  type SquareRoot = real -> real

  ghost predicate IsSquareRoot(sqrt: SquareRoot) {
    sqrt(0.0) == 0.0 && forall x :: x >= 0.0 ==> sqrt(x) >= 0.0 && sqrt(x) * sqrt(x) == x
  }

  /** `mean_v` and `std_v` of a plot; `None` is NaN. */
  datatype PlotStat = PlotStat(mean: Option<real>, std: Option<real>)

  /** `np.mean(vals)` and `np.std(vals)` (population, ddof 0), both NaN for
      an empty selection. */
  function SpectralStats(vals: seq<real>, sqrt: SquareRoot): (r: PlotStat)
    requires IsSquareRoot(sqrt)
    ensures r.mean.None? <==> vals == []
    ensures r.std.None? <==> vals == []
    ensures vals != [] ==> r.mean == Some(Mean(vals)) && SeqMin(vals) <= r.mean.value <= SeqMax(vals)
    ensures vals != [] ==> r.std.value >= 0.0 && r.std.value * r.std.value == Variance(vals)
  {
    if vals == [] then PlotStat(None, None)
    else
      MeanBounds(vals, SeqMin(vals), SeqMax(vals));
      VarianceNonneg(vals);
      PlotStat(Some(Mean(vals)), Some(sqrt(Variance(vals))))
  }

  /** A plot of one uniform value has that mean and no spread. */
  lemma UniformPlot(vals: seq<real>, sqrt: SquareRoot)
    requires IsSquareRoot(sqrt) && |vals| > 0
    requires forall i :: 0 <= i < |vals| ==> vals[i] == vals[0]
    ensures SpectralStats(vals, sqrt) == PlotStat(Some(vals[0]), Some(0.0))
  {
    ConstantMean(vals, vals[0]);
    VarianceOfConstant(vals);
  }

  // ---------------------------------------------------------------------
  // Rows keyed by (date, image name)

  /** `(date_component, image_id)` */
  type Key = (string, string)

  function AverageColumn(prefix: string): string { prefix + "_Average" }

  function StdDevColumn(prefix: string): string { prefix + "_StdDev" }

  /** The column names of distinct indices never collide with each other or
      with the key columns. */
  lemma IndexColumns(p: string, q: string)
    ensures AverageColumn(p) != StdDevColumn(q)
    ensures p != q ==> AverageColumn(p) != AverageColumn(q) && StdDevColumn(p) != StdDevColumn(q)
    ensures AverageColumn(p) != DateColumn && AverageColumn(p) != ImageColumn
    ensures StdDevColumn(p) != DateColumn && StdDevColumn(p) != ImageColumn
  {
    var a, s := AverageColumn(p), StdDevColumn(q);
    if |a| == |s| {
      assert a[|a| - 1] == 'e' && s[|s| - 1] == 'v';
    }
    if p != q && |p| == |q| {
      var k :| 0 <= k < |p| && p[k] != q[k];
      assert AverageColumn(p)[k] == p[k] && AverageColumn(q)[k] == q[k];
      assert StdDevColumn(p)[k] == p[k] && StdDevColumn(q)[k] == q[k];
    }
    var ap, sp := AverageColumn(p), StdDevColumn(p);
    assert ap[|ap| - 1] == 'e' && sp[|sp| - 1] == 'v' && |ap| >= 8 && |sp| >= 7;
    assert ImageColumn[|ImageColumn| - 1] == 'D' && |DateColumn| == 4;
  }

  /** `{'Date': date_component, 'Image ID': image_id}` */
  function KeyRow(key: Key): (row: Row)
    ensures row.Keys == {DateColumn, ImageColumn}
    ensures row[DateColumn] == Text(key.0) && row[ImageColumn] == Text(key.1)
  {
    map[DateColumn := Text(key.0), ImageColumn := Text(key.1)]
  }

  /** Writes one index's mean and standard deviation into a row; every other
      column keeps its cell. */
  function SetIndex(row: Row, prefix: string, s: PlotStat): (r: Row)
    ensures r.Keys == row.Keys + {AverageColumn(prefix), StdDevColumn(prefix)}
    ensures r[AverageColumn(prefix)] == Num(s.mean) && r[StdDevColumn(prefix)] == Num(s.std)
    ensures forall c :: c in row && c != AverageColumn(prefix) && c != StdDevColumn(prefix) ==> r[c] == row[c]
  {
    IndexColumns(prefix, prefix);
    row[AverageColumn(prefix) := Num(s.mean)][StdDevColumn(prefix) := Num(s.std)]
  }

  /** The indices of a plot can be processed in either order. */
  lemma SetIndexCommutes(row: Row, p: string, s: PlotStat, q: string, t: PlotStat)
    requires p != q
    ensures SetIndex(SetIndex(row, p, s), q, t) == SetIndex(SetIndex(row, q, t), p, s)
  {
    IndexColumns(p, q);
    IndexColumns(q, p);
    var ap, sp, aq, sq := AverageColumn(p), StdDevColumn(p), AverageColumn(q), StdDevColumn(q);
    assert SetIndex(SetIndex(row, p, s), q, t) == row[ap := Num(s.mean)][sp := Num(s.std)][aq := Num(t.mean)][sq := Num(t.std)];
    assert SetIndex(SetIndex(row, q, t), p, s) == row[aq := Num(t.mean)][sq := Num(t.std)][ap := Num(s.mean)][sp := Num(s.std)];
    UpdatesCommute(row, ap, sp, Num(s.mean), Num(s.std), aq, sq, Num(t.mean), Num(t.std));
  }

  /** Two pairs of map updates at disjoint keys can be made in either order. */
  lemma UpdatesCommute<K, V>(m: map<K, V>, a: K, b: K, x: V, y: V, c: K, d: K, z: V, w: V)
    requires a != c && a != d && b != c && b != d
    ensures m[a := x][b := y][c := z][d := w] == m[c := z][d := w][a := x][b := y]
  {
    var m1, m2 := m[a := x][b := y][c := z][d := w], m[c := z][d := w][a := x][b := y];
    assert m1.Keys == m2.Keys;
    forall k | k in m1 ensures m1[k] == m2[k] {
    }
  }

  /** `rows[key]` after `_process_one` has merged a plot's statistics: the
      existing row, or a fresh key row, with this index's columns set. */
  function MergeStat(rows: map<Key, Row>, key: Key, prefix: string, s: PlotStat): (r: map<Key, Row>)
    ensures r.Keys == rows.Keys + {key}
    ensures forall k :: k in rows && k != key ==> r[k] == rows[k]
    ensures key !in rows ==> r[key] == SetIndex(KeyRow(key), prefix, s)
    ensures key in rows ==> r[key] == SetIndex(rows[key], prefix, s)
  {
    rows[key := SetIndex(if key in rows then rows[key] else KeyRow(key), prefix, s)]
  }

  /** Every key appears once in the insertion order and its row carries the
      key's date and image name. */
  ghost predicate KeyedRows(rows: map<Key, Row>, order: seq<Key>) {
    (forall k :: k in rows <==> k in order)
    && (forall i, j :: 0 <= i < j < |order| ==> order[i] != order[j])
    && (forall k :: k in rows ==>
          DateColumn in rows[k] && ImageColumn in rows[k]
          && rows[k][DateColumn] == Text(k.0) && rows[k][ImageColumn] == Text(k.1))
  }

  /** The insertion order after a merge: a new key goes last. */
  function MergeOrder(rows: map<Key, Row>, order: seq<Key>, key: Key): seq<Key> {
    if key in rows then order else order + [key]
  }

  /** Merging a plot's statistics keeps the rows keyed. */
  lemma MergeKeepsKeys(rows: map<Key, Row>, order: seq<Key>, key: Key, prefix: string, s: PlotStat)
    requires KeyedRows(rows, order)
    ensures KeyedRows(MergeStat(rows, key, prefix, s), MergeOrder(rows, order, key))
  {
    IndexColumns(prefix, prefix);
    var r, o := MergeStat(rows, key, prefix, s), MergeOrder(rows, order, key);
    assert forall k :: k in r <==> k in o;
    if key !in rows {
      forall i, j | 0 <= i < j < |o| ensures o[i] != o[j] {
        if j == |order| {
          assert o[i] == order[i];
        }
      }
    }
    forall k | k in r
      ensures DateColumn in r[k] && ImageColumn in r[k]
      ensures r[k][DateColumn] == Text(k.0) && r[k][ImageColumn] == Text(k.1)
    {
      if k == key {
        var base := if key in rows then rows[key] else KeyRow(key);
        assert r[key] == SetIndex(base, prefix, s);
      }
    }
  }

  /** The `rows` dictionary of `trait_extract_nodem`, with its insertion
      order (the order of the rows in the written sheets). */
  class SpectralRows {
    var rows: map<Key, Row>
    var order: seq<Key>

    ghost predicate Valid()
      reads this
    {
      KeyedRows(rows, order)
    }

    constructor ()
      ensures Valid() && rows == map[] && order == []
    {
      rows := map[];
      order := [];
    }

    /** `_process_one`: nothing changes when the image cannot be read or the
        mask is missing; otherwise the plot's statistics for `prefix` are
        merged into the row of its (date, image name). */
    method ProcessOne(path: ImagePath, image: Option<SpectralImage>, mask: Option<Matrix<int>>,
                      prefix: string, sqrt: SquareRoot)
      requires Valid() && IsSquareRoot(sqrt)
      requires image.Some? ==> image.value.Valid()
      requires mask.Some? ==> Rectangular(mask.value)
      modifies this
      ensures Valid()
      ensures image.None? || mask.None? ==> rows == old(rows) && order == old(order)
      ensures image.Some? && mask.Some? ==>
                var key := (DateOf(path), path.file);
                var s := SpectralStats(SelectedValues(ToGray(image.value), mask.value), sqrt);
                rows == MergeStat(old(rows), key, prefix, s)
                && order == MergeOrder(old(rows), old(order), key)
    {
      if image.None? || mask.None? {
        return;
      }
      var key := (DateOf(path), path.file);
      var gray := ToGray(image.value);
      var s := SpectralStats(SelectedValues(gray, mask.value), sqrt);
      MergeKeepsKeys(rows, order, key, prefix, s);
      rows, order := MergeStat(rows, key, prefix, s), MergeOrder(rows, order, key);
    }
  }

  // ---------------------------------------------------------------------
  // Index folders

  /** The folder suffix of per-plot index images. */
  const PlotFolderSuffix: string := "_by_plot"

  /** `base.endswith('_by_plot') and base != 'dem_by_plot'`, giving
      `base.split('_')[0]` as the index prefix. */
  function IndexPrefix(base: string): (r: Option<string>)
    ensures r.Some? <==> EndsWith(base, PlotFolderSuffix) && base != "dem_by_plot"
    ensures r.Some? ==> '_' !in r.value && StartsWith(base, r.value) && |r.value| < |base| && base[|r.value|] == '_'
  {
    if EndsWith(base, PlotFolderSuffix) && base != "dem_by_plot" then
      var p := FirstToken(base, '_');
      assert base[|base| - |PlotFolderSuffix|] == '_';
      Some(p)
    else None
  }

  /** Every folder `<index>_by_plot` other than the DEM folder holds the
      images of index `<index>` (`NDVI_by_plot` gives `NDVI`). */
  lemma IndexPrefixOfFolder(index: string)
    requires '_' !in index && index != "dem"
    ensures IndexPrefix(index + PlotFolderSuffix) == Some(index)
  {
    var base := index + PlotFolderSuffix;
    assert base[|index|..] == PlotFolderSuffix && base[..|index|] == index;
    assert base[|base| - |PlotFolderSuffix|..] == PlotFolderSuffix;
    FirstTokenAt(base, '_', |index|);
  }
}
