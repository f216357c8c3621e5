/** 7_mulch_height_extract.py: the mulch height of one plot is a robust
    mean of the masked DEM inside the central 5-95% window: the mean of the
    middle 40% of the valid heights by rank. */
module MulchHeight {
  import opened Base
  import opened Matrices
  import opened Stats
  import opened Rasters
  import opened Plots

  // ---------------------------------------------------------------------
  // The mid-40% trimmed mean

  /** `int(0.30 * n)` and `int(0.70 * n)`, read as exact floors. */
  function LowRank(n: nat): nat { (3 * n) / 10 }

  function HighRank(n: nat): nat { (7 * n) / 10 }

  /** The ranks bound a slice of the sorted values, and the slice is empty
      exactly when there are fewer than two values. */
  lemma RankBounds(n: nat)
    ensures LowRank(n) <= HighRank(n) <= n
    ensures LowRank(n) < HighRank(n) <==> n >= 2
  {
    var lo, hi := LowRank(n), HighRank(n);
    assert 10 * lo <= 3 * n < 10 * lo + 10;
    assert 10 * hi <= 7 * n < 10 * hi + 10;
    if n >= 2 {
      assert 10 * hi > 7 * n - 10 >= 3 * n + 4 * n - 10;
    }
  }

  /** The mean of `sorted(values)[lo:hi]`, or NaN when that slice is empty. */
  function MidMean(values: seq<real>): (r: Option<real>)
    ensures r.None? <==> |values| <= 1
  {
    var n := |values|;
    RankBounds(n);
    if LowRank(n) < HighRank(n) then Some(Mean(Sort(values)[LowRank(n)..HighRank(n)])) else None
  }

  /** The trimmed mean lies between the smallest and the largest value. */
  lemma MidMeanBounds(values: seq<real>)
    requires |values| >= 2
    ensures SeqMin(values) <= MidMean(values).value <= SeqMax(values)
  {
    var n := |values|;
    RankBounds(n);
    SortedSliceMeanBounds(values, LowRank(n), HighRank(n));
  }

  /** The order of the values does not matter. */
  lemma MidMeanPermutation(a: seq<real>, b: seq<real>)
    requires multiset(a) == multiset(b)
    ensures MidMean(a) == MidMean(b)
  {
    assert |a| == |multiset(a)| == |multiset(b)| == |b|;
    SortPermutation(a, b);
  }

  /** Every element of `Insert(s, x)` is `x` or an element of `s`. */
  lemma InsertElements(s: seq<real>, x: real, k: nat)
    requires Sorted(s) && k < |s| + 1
    ensures Insert(s, x)[k] == x || Insert(s, x)[k] in s
  {
    var r := Insert(s, x);
    assert r[k] in multiset(r);
  }

  /** Lowering the element at `p` of a sorted sequence leaves the sorted
      order of the elements after `p` unchanged. */
  lemma SortLowered(s: seq<real>, p: nat, x: real)
    requires Sorted(s) && p < |s| && x <= s[p]
    ensures Sort(s[p := x])[p + 1..] == s[p + 1..]
  {
    var low, rest := s[..p], s[p + 1..];
    SortedAround(s, p, low, rest);
    InsertBelow(low, rest, s[p], x);
    var head := Insert(low, x);
    UpdateMultiset(s, p, x);
    ConcatSortedUnique(head, rest, Sort(s[p := x]));
    assert (head + rest)[p + 1..] == rest;
  }

  /** Replacing the element at `p` swaps one value of the multiset. */
  lemma UpdateMultiset(s: seq<real>, p: nat, x: real)
    requires p < |s|
    ensures multiset(s[p := x]) == multiset(s[..p]) + multiset{x} + multiset(s[p + 1..])
  {
    assert s[p := x] == s[..p] + [x] + s[p + 1..];
  }

  /** Raising the element at `p` of a sorted sequence leaves the sorted
      order of the elements before `p` unchanged. */
  lemma SortRaised(s: seq<real>, p: nat, x: real)
    requires Sorted(s) && p < |s| && s[p] <= x
    ensures Sort(s[p := x])[..p] == s[..p]
  {
    var front, high := s[..p], s[p + 1..];
    SortedAround(s, p, front, high);
    InsertAbove(front, high, s[p], x);
    var tail := Insert(high, x);
    UpdateMultiset(s, p, x);
    ConcatSortedUnique(front, tail, Sort(s[p := x]));
    assert (front + tail)[..p] == front;
  }

  /** Around position `p` of a sorted sequence: both sides are sorted, the
      left side lies below `s[p]` and the right side above it. */
  lemma SortedAround(s: seq<real>, p: nat, low: seq<real>, high: seq<real>)
    requires Sorted(s) && p < |s| && low == s[..p] && high == s[p + 1..]
    ensures Sorted(low) && Sorted(high)
    ensures forall i :: 0 <= i < |low| ==> low[i] <= s[p]
    ensures forall j :: 0 <= j < |high| ==> s[p] <= high[j]
  {
    forall j | 0 <= j < |high| ensures s[p] <= high[j] {
      assert high[j] == s[p + 1 + j];
    }
  }

  /** With `low` below a pivot `c` and `high` above it, inserting a value at
      most `c` into `low` keeps the result below `high`. */
  lemma InsertBelow(low: seq<real>, high: seq<real>, c: real, x: real)
    requires Sorted(low) && x <= c
    requires forall i :: 0 <= i < |low| ==> low[i] <= c
    requires forall j :: 0 <= j < |high| ==> c <= high[j]
    ensures forall i, j :: 0 <= i < |low| + 1 && 0 <= j < |high| ==> Insert(low, x)[i] <= high[j]
  {
    var r := Insert(low, x);
    forall i, j | 0 <= i < |r| && 0 <= j < |high| ensures r[i] <= high[j] {
      InsertElements(low, x, i);
      if r[i] != x {
        var k :| 0 <= k < |low| && low[k] == r[i];
      }
    }
  }

  /** With `low` below a pivot `c` and `high` above it, inserting a value at
      least `c` into `high` keeps the result above `low`. */
  lemma InsertAbove(low: seq<real>, high: seq<real>, c: real, x: real)
    requires Sorted(high) && c <= x
    requires forall i :: 0 <= i < |low| ==> low[i] <= c
    requires forall j :: 0 <= j < |high| ==> c <= high[j]
    ensures forall i, j :: 0 <= i < |low| && 0 <= j < |high| + 1 ==> low[i] <= Insert(high, x)[j]
  {
    var r := Insert(high, x);
    forall i, j | 0 <= i < |low| && 0 <= j < |r| ensures low[i] <= r[j] {
      InsertElements(high, x, j);
      if r[j] != x {
        var k :| 0 <= k < |high| && high[k] == r[j];
      }
    }
  }

  /** Moving a value from the bottom 30% by rank further down leaves the
      trimmed mean unchanged. */
  lemma LowerTailOutlier(values: seq<real>, p: nat, x: real)
    requires p < LowRank(|values|)
    requires x <= Sort(values)[p]
    ensures MidMean(Sort(values)[p := x]) == MidMean(values)
  {
    var s := Sort(values);
    var n := |values|;
    RankBounds(n);
    LoweredSlice(s, p, x, LowRank(n), HighRank(n));
  }

  lemma LoweredSlice(s: seq<real>, p: nat, x: real, lo: nat, hi: nat)
    requires Sorted(s) && p < |s| && x <= s[p]
    requires p < lo <= hi <= |s|
    ensures Sort(s[p := x])[lo..hi] == s[lo..hi]
  {
    SortLowered(s, p, x);
    SuffixSlice(Sort(s[p := x]), s, p + 1, lo, hi);
  }

  /** Moving a value from the top 30% by rank further up leaves the trimmed
      mean unchanged. */
  lemma UpperTailOutlier(values: seq<real>, p: nat, x: real)
    requires HighRank(|values|) <= p < |values|
    requires Sort(values)[p] <= x
    ensures MidMean(Sort(values)[p := x]) == MidMean(values)
  {
    var s := Sort(values);
    var n := |values|;
    RankBounds(n);
    RaisedSlice(s, p, x, LowRank(n), HighRank(n));
  }

  lemma RaisedSlice(s: seq<real>, p: nat, x: real, lo: nat, hi: nat)
    requires Sorted(s) && p < |s| && s[p] <= x
    requires lo <= hi <= p
    ensures Sort(s[p := x])[lo..hi] == s[lo..hi]
  {
    SortRaised(s, p, x);
    PrefixSlice(Sort(s[p := x]), s, p, lo, hi);
  }

  // ---------------------------------------------------------------------
  // The plot pipeline (process_image)

  /** One cell after the three steps of `process_image`: -9999 becomes NaN,
      the mask sets unselected cells to 0, and every 0 becomes NaN.  So a
      genuine height of exactly 0 is dropped like an unselected cell. */
  function HeightCell(dem: Option<real>, mask: int): (r: Option<real>)
    ensures r.Some? <==> dem.Some? && dem.value != Sentinel && dem.value != 0.0 && Uint8(mask) != 0
    ensures r.Some? ==> r == dem
  {
    var withNaN := if dem == Some(Sentinel) then None else dem;
    var masked := if Uint8(mask) == 0 then Some(0.0) else withNaN;
    if masked == Some(0.0) then None else masked
  }

  /** The masked DEM over the common extent. */
  function MaskedHeights(dem: Matrix<Option<real>>, mask: Matrix<int>): (r: Matrix<Option<real>>)
    requires Rectangular(dem) && Rectangular(mask)
    ensures IsRect(r, CommonHeight(dem, mask), CommonWidth(dem, mask))
    ensures forall i, j :: 0 <= i < CommonHeight(dem, mask) && 0 <= j < CommonWidth(dem, mask) ==>
              r[i][j] == HeightCell(dem[i][j], mask[i][j])
  {
    var h, w := CommonHeight(dem, mask), CommonWidth(dem, mask);
    seq(h, i requires 0 <= i < h => seq(w, j requires 0 <= j < w => HeightCell(dem[i][j], mask[i][j])))
  }

  /** `int(n * 0.05)` and `int(n * 0.95)`, read as exact floors. */
  function RoiStart(n: nat): nat { (5 * n) / 100 }

  function RoiEnd(n: nat): nat { (95 * n) / 100 }

  /** The central window lies inside the image. */
  lemma RoiBounds(n: nat)
    ensures RoiStart(n) <= RoiEnd(n) <= n
  {
    assert 100 * RoiStart(n) <= 5 * n;
    assert 100 * RoiEnd(n) > 95 * n - 100;
  }

  /** The valid heights inside the central 5-95% window, row by row. */
  function RoiHeights(m: Matrix<Option<real>>, h: nat, w: nat): seq<real>
    requires IsRect(m, h, w)
  {
    RoiBounds(h);
    RoiBounds(w);
    Present(Window(m, RoiStart(h), RoiEnd(h), RoiStart(w), RoiEnd(w)))
  }

  /** The window's list holds one height per valid cell of the window, with
      its multiplicity, so the mean weighs every pixel once. */
  lemma RoiHeightCounts(m: Matrix<Option<real>>, h: nat, w: nat)
    requires IsRect(m, h, w)
    ensures RoiStart(h) <= RoiEnd(h) <= h && RoiStart(w) <= RoiEnd(w) <= w
    ensures var cells := Cells(Window(m, RoiStart(h), RoiEnd(h), RoiStart(w), RoiEnd(w)));
            |RoiHeights(m, h, w)| == |cells| - cells[None]
            && forall x :: multiset(RoiHeights(m, h, w))[x] == cells[Some(x)]
  {
    RoiBounds(h);
    RoiBounds(w);
    PresentCounts(Window(m, RoiStart(h), RoiEnd(h), RoiStart(w), RoiEnd(w)));
  }

  /** Each height of the window's list comes from a valid cell inside the
      window, and each valid cell inside the window contributes its height. */
  lemma RoiHeightSource(m: Matrix<Option<real>>, h: nat, w: nat, x: real)
    requires IsRect(m, h, w)
    requires x in RoiHeights(m, h, w)
    ensures exists i, j :: RoiStart(h) <= i < RoiEnd(h) && RoiStart(w) <= j < RoiEnd(w) && m[i][j] == Some(x)
  {
    RoiBounds(h);
    RoiBounds(w);
    WindowSource(m, RoiStart(h), RoiEnd(h), RoiStart(w), RoiEnd(w), x);
  }

  lemma RoiHeightCell(m: Matrix<Option<real>>, h: nat, w: nat, i: nat, j: nat)
    requires IsRect(m, h, w)
    requires RoiStart(h) <= i < RoiEnd(h) && RoiStart(w) <= j < RoiEnd(w) && m[i][j].Some?
    ensures m[i][j].value in RoiHeights(m, h, w)
  {
    RoiBounds(h);
    RoiBounds(w);
    WindowCell(m, RoiStart(h), RoiEnd(h), RoiStart(w), RoiEnd(w), i, j);
  }

  /** The column of the mulch-height sheet holding the trimmed mean. */
  const HeightColumn: string := "Average Height (5%-95%)"

  /** The row `process_image` appends for a plot. */
  function HeightRow(path: ImagePath, dem: Matrix<Option<real>>, mask: Matrix<int>): (row: Row)
    requires Rectangular(dem) && Rectangular(mask)
    ensures row.Keys == {DateColumn, ImageColumn, HeightColumn}
    ensures row[DateColumn] == Text(DateOf(path)) && row[ImageColumn] == Text(path.file)
    ensures row[HeightColumn] ==
              Num(MidMean(RoiHeights(MaskedHeights(dem, mask), CommonHeight(dem, mask), CommonWidth(dem, mask))))
  {
    var m := MaskedHeights(dem, mask);
    var avg := MidMean(RoiHeights(m, CommonHeight(dem, mask), CommonWidth(dem, mask)));
    map[DateColumn := Text(DateOf(path)), ImageColumn := Text(path.file), HeightColumn := Num(avg)]
  }

  /** A plot whose window holds at least two valid heights gets the mean of
      the middle 40% of them, which lies between the lowest and the highest. */
  lemma HeightWithinRange(path: ImagePath, dem: Matrix<Option<real>>, mask: Matrix<int>)
    requires Rectangular(dem) && Rectangular(mask)
    requires var m := MaskedHeights(dem, mask);
             |RoiHeights(m, CommonHeight(dem, mask), CommonWidth(dem, mask))| >= 2
    ensures var vs := RoiHeights(MaskedHeights(dem, mask), CommonHeight(dem, mask), CommonWidth(dem, mask));
            var cell := HeightRow(path, dem, mask)[HeightColumn];
            cell == Num(MidMean(vs)) && cell.num.Some? && SeqMin(vs) <= cell.num.value <= SeqMax(vs)
  {
    var vs := RoiHeights(MaskedHeights(dem, mask), CommonHeight(dem, mask), CommonWidth(dem, mask));
    MidMeanBounds(vs);
  }

  /** `dem[mask == 0] = 0` on the common extent: a new array in which every
      cell the mask leaves out is 0 and every other cell keeps its value. */
  method ApplyMask(cells: Matrix<Option<real>>, mask: Matrix<int>, h: nat, w: nat) returns (masked: array2<Option<real>>)
    requires h <= |cells| && h <= |mask|
    requires forall i :: 0 <= i < h ==> w <= |cells[i]| && w <= |mask[i]|
    ensures fresh(masked) && masked.Length0 == h && masked.Length1 == w
    ensures forall r, c :: 0 <= r < h && 0 <= c < w ==>
              masked[r, c] == if Uint8(mask[r][c]) == 0 then Some(0.0) else cells[r][c]
  {
    masked := new Option<real>[h, w];
    var i := 0;
    while i < h
      modifies masked
      invariant 0 <= i <= h
      invariant forall r, c :: 0 <= r < i && 0 <= c < w ==>
                  masked[r, c] == if Uint8(mask[r][c]) == 0 then Some(0.0) else cells[r][c]
    {
      var j := 0;
      while j < w
        modifies masked
        invariant 0 <= j <= w
        invariant forall r, c :: (0 <= r < i && 0 <= c < w) || (r == i && 0 <= c < j) ==>
                    masked[r, c] == if Uint8(mask[r][c]) == 0 then Some(0.0) else cells[r][c]
      {
        masked[i, j] := if Uint8(mask[i][j]) == 0 then Some(0.0) else cells[i][j];
        j := j + 1;
      }
      i := i + 1;
    }
  }

  /** `process_image`: nothing happens when the DEM or the mask cannot be
      read; otherwise the plot's row is appended under its date.  The DEM is
      copied into an array in which -9999 and then 0 are overwritten with NaN
      in place, as the script does. */
  method ProcessImage(path: ImagePath, dem: Option<Matrix<Option<real>>>, mask: Option<Matrix<int>>,
                      output: DateTables)
    requires dem.Some? ==> Rectangular(dem.value)
    requires mask.Some? ==> Rectangular(mask.value)
    modifies output
    ensures dem.None? || mask.None? ==> output.rows == old(output.rows)
    ensures dem.Some? && mask.Some? ==>
              output.rows == AppendRow(old(output.rows), DateOf(path), HeightRow(path, dem.value, mask.value))
  {
    if dem.None? || mask.None? {
      return;
    }
    var d, m := dem.value, mask.value;
    var h, w := CommonHeight(d, m), CommonWidth(d, m);
    // -9999 to NaN
    var a := ToArray(d, |d|, Width(d));
    ClearValue(a, Sentinel);
    var cleared := ToMatrix(a);
    // crop to the common extent, then keep the selected cells and zero the rest
    var masked := ApplyMask(cleared, m, h, w);
    // 0 to NaN
    ClearValue(masked, 0.0);
    assert ToMatrix(masked) == MaskedHeights(d, m) by {
      forall r | 0 <= r < h ensures ToMatrix(masked)[r] == MaskedHeights(d, m)[r] {
      }
    }
    var avg := MidMean(RoiHeights(ToMatrix(masked), h, w));
    var row := map[DateColumn := Text(DateOf(path)), ImageColumn := Text(path.file), HeightColumn := Num(avg)];
    output.Append(DateOf(path), row);
  }
}
