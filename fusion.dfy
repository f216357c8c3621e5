/** Mask fusion, the part 5_masks_overlapping_batch_veg.py and
    6_masks_overlapping_batch_mulch.py share (each script carries its own
    copy of these helpers, with the same bodies): binarising a source,
    aligning it to the reference grid, the common file names of the source
    folders, and the AND/OR combination of the stacked masks. */
module Fusion {
  import opened Base
  import opened Matrices
  import opened Text
  import opened Rasters

  // ---------------------------------------------------------------------
  // Binarisation (_read_and_binarize, _read_band1_bool)

  /** True iff the cell is unmasked, is not -9999, is not the file's nodata
      (when one is set) and is positive. */
  predicate Keeps(c: Option<real>, nodata: Option<real>) {
    c.Some? && c.value != Sentinel && (nodata.None? || c.value != nodata.value) && c.value > 0.0
  }

  function Binarize(r: Raster): (m: Matrix<bool>)
    requires r.Valid()
    ensures IsRect(m, r.profile.height, r.profile.width)
    ensures forall i, j :: 0 <= i < r.profile.height && 0 <= j < r.profile.width ==>
              (m[i][j] <==> Keeps(r.band.cells[i][j], r.profile.nodata))
  {
    seq(r.band.height, i requires 0 <= i < r.band.height =>
      seq(r.band.width, j requires 0 <= j < r.band.width => Keeps(r.band.cells[i][j], r.profile.nodata)))
  }

  /** The -9999 test is subsumed by `> 0`, and so is a nodata value that is
      not positive: then a pixel is true iff it is unmasked and positive. */
  lemma BinarizeNonPositiveNodata(r: Raster)
    requires r.Valid()
    requires r.profile.nodata.None? || r.profile.nodata.value <= 0.0
    ensures forall i, j :: 0 <= i < r.profile.height && 0 <= j < r.profile.width ==>
              (Binarize(r)[i][j] <==> r.band.cells[i][j].Some? && r.band.cells[i][j].value > 0.0)
  {
  }

  // ---------------------------------------------------------------------
  // Alignment (_reproject_to_ref, _reproject_bool_to_ref)

  /** Same CRS, transform, width and height. */
  predicate SameGrid(a: Profile, b: Profile) {
    a.crs == b.crs && a.transform == b.transform && a.width == b.width && a.height == b.height
  }

  /** Nearest-neighbour reprojection of a mask onto a reference grid
      (`rasterio.warp.reproject`), which this model does not implement. */
  type Reprojector = (Matrix<bool>, Profile, Profile) -> Matrix<bool>

  /** What the model assumes of the reprojection: its result has the
      reference grid's height and width. */
  ghost predicate FillsReference(reproject: Reprojector) {
    forall m: Matrix<bool>, src: Profile, ref: Profile {:trigger reproject(m, src, ref)} ::
      IsRect(reproject(m, src, ref), ref.height, ref.width)
  }

  /** The mask on the reference grid: the input itself when the grids
      agree, the reprojection otherwise.  Either way a mask of the source's
      shape comes out with the reference's shape. */
  function AlignToRef(m: Matrix<bool>, src: Profile, ref: Profile, reproject: Reprojector): (r: Matrix<bool>)
    requires FillsReference(reproject)
    ensures SameGrid(src, ref) ==> r == m
    ensures !SameGrid(src, ref) ==> r == reproject(m, src, ref)
    ensures IsRect(m, src.height, src.width) ==> IsRect(r, ref.height, ref.width)
  {
    if SameGrid(src, ref) then m else reproject(m, src, ref)
  }

  // ---------------------------------------------------------------------
  // Common file names (_list_common_filenames)

  /** Python's `<` on strings: lexicographic by code point. */
  predicate StrLess(a: string, b: string) {
    if a == [] then b != []
    else if b == [] then false
    else if a[0] != b[0] then a[0] < b[0]
    else StrLess(a[1..], b[1..])
  }

  lemma {:induction false} StrLessIrreflexive(a: string)
    ensures !StrLess(a, a)
  {
    if a != [] {
      StrLessIrreflexive(a[1..]);
    }
  }

  lemma {:induction false} StrLessTransitive(a: string, b: string, c: string)
    requires StrLess(a, b) && StrLess(b, c)
    ensures StrLess(a, c)
  {
    if a != [] && b != [] && c != [] && a[0] == b[0] && b[0] == c[0] {
      StrLessTransitive(a[1..], b[1..], c[1..]);
    }
  }

  /** Distinct strings are ordered one way or the other, and never both. */
  lemma {:induction false} StrLessTotal(a: string, b: string)
    ensures a != b <==> StrLess(a, b) || StrLess(b, a)
    ensures !(StrLess(a, b) && StrLess(b, a))
  {
    if a != [] && b != [] && a[0] == b[0] {
      StrLessTotal(a[1..], b[1..]);
      assert a == [a[0]] + a[1..] && b == [b[0]] + b[1..];
    } else if a == [] && b == [] {
    }
  }

  /** Ascending without repetitions, as `sorted` of a set. */
  predicate StrictlySorted(s: seq<string>) {
    forall i, j :: 0 <= i < j < |s| ==> StrLess(s[i], s[j])
  }

  /** Adds `x` at its place in a strictly sorted sequence. */
  function InsertName(s: seq<string>, x: string): (r: seq<string>)
    requires StrictlySorted(s)
    ensures StrictlySorted(r)
    ensures forall y :: y in r <==> y in s || y == x
  {
    if s == [] then [x]
    else if x == s[0] then s
    else if StrLess(x, s[0]) then
      assert forall j :: 0 < j < |s| ==> StrLess(x, s[j]) by {
        forall j | 0 < j < |s| ensures StrLess(x, s[j]) {
          StrLessTransitive(x, s[0], s[j]);
        }
      }
      [x] + s
    else
      StrLessTotal(x, s[0]);
      var rest := InsertName(s[1..], x);
      assert forall y :: y in rest ==> StrLess(s[0], y);
      [s[0]] + rest
  }

  /** A strictly sorted sequence is determined by its elements: the result
      is the one `sorted` produces for that set. */
  lemma {:induction false} StrictlySortedUnique(a: seq<string>, b: seq<string>)
    requires StrictlySorted(a) && StrictlySorted(b)
    requires forall x :: x in a <==> x in b
    ensures a == b
  {
    if a != [] {
      assert a[0] in b;
    }
    if b != [] {
      assert b[0] in a;
    }
    if a != [] && b != [] {
      assert a[0] in b && b[0] in a;
      StrLessTotal(a[0], b[0]);
      assert a[0] == b[0];
      forall x ensures x in a[1..] <==> x in b[1..] {
        StrLessIrreflexive(a[0]);
        if x in a[1..] {
          var i :| 1 <= i < |a| && a[i] == x;
          assert StrLess(a[0], x) && x in a && x in b;
          var k :| 0 <= k < |b| && b[k] == x;
          assert k != 0;
          assert b[1..][k - 1] == x;
        }
        if x in b[1..] {
          var i :| 1 <= i < |b| && b[i] == x;
          assert StrLess(b[0], x) && x in b && x in a;
          var k :| 0 <= k < |a| && a[k] == x;
          assert k != 0;
          assert a[1..][k - 1] == x;
        }
      }
      StrictlySortedUnique(a[1..], b[1..]);
      assert a == [a[0]] + a[1..] && b == [b[0]] + b[1..];
    }
  }

  /** `fn.lower().endswith((".tif", ".tiff"))` */
  predicate HasMaskExtension(name: string) {
    EndsWith(Lower(name), ".tif") || EndsWith(Lower(name), ".tiff")
  }

  /** The names present in every listing with a `.tif`/`.tiff` extension in
      any case; none when there is no listing. */
  function CommonNames(listings: seq<set<string>>): (r: set<string>)
    ensures forall x :: x in r <==>
              |listings| > 0 && HasMaskExtension(x) && forall d :: 0 <= d < |listings| ==> x in listings[d]
  {
    if |listings| == 0 then {}
    else set x | x in listings[0] && HasMaskExtension(x) && forall d :: 0 <= d < |listings| ==> x in listings[d]
  }

  /** `_list_common_filenames`: the sorted common names. */
  method ListCommonFilenames(listings: seq<set<string>>) returns (names: seq<string>)
    ensures StrictlySorted(names)
    ensures forall x :: x in names <==> x in CommonNames(listings)
    ensures listings == [] ==> names == []
  {
    names := [];
    var remaining := CommonNames(listings);
    while remaining != {}
      invariant StrictlySorted(names)
      invariant forall x :: x in CommonNames(listings) <==> x in names || x in remaining
      decreases |remaining|
    {
      var x :| x in remaining;
      names := InsertName(names, x);
      remaining := remaining - {x};
    }
    if names != [] {
      assert names[0] in CommonNames(listings);
    }
  }

  // ---------------------------------------------------------------------
  // Combination (np.all / np.any over the stacked masks)

  /** Every mask of the stack has `h` rows of `w` columns. */
  predicate Stacked(stack: seq<Matrix<bool>>, h: nat, w: nat) {
    forall k :: 0 <= k < |stack| ==> IsRect(stack[k], h, w)
  }

  /** `np.all(stack, axis=0)` at one pixel. */
  function AllAt(stack: seq<Matrix<bool>>, i: nat, j: nat): (r: bool)
    requires forall k :: 0 <= k < |stack| ==> i < |stack[k]| && j < |stack[k][i]|
    ensures r <==> forall k :: 0 <= k < |stack| ==> stack[k][i][j]
  {
    if stack == [] then true
    else
      assert forall k :: 1 <= k < |stack| ==> stack[k] == stack[1..][k - 1];
      stack[0][i][j] && AllAt(stack[1..], i, j)
  }

  /** `np.any(stack, axis=0)` at one pixel. */
  function AnyAt(stack: seq<Matrix<bool>>, i: nat, j: nat): (r: bool)
    requires forall k :: 0 <= k < |stack| ==> i < |stack[k]| && j < |stack[k][i]|
    ensures r <==> exists k :: 0 <= k < |stack| && stack[k][i][j]
  {
    if stack == [] then false
    else
      assert forall k :: 1 <= k < |stack| ==> stack[k] == stack[1..][k - 1];
      stack[0][i][j] || AnyAt(stack[1..], i, j)
  }

  /** The combination operators the scripts accept. */
  datatype Op = And | Or

  /** `op.upper()` compared with "AND" and "OR"; any other value is the
      ValueError branch. */
  function ParseOp(op: string): (r: Option<Op>)
    ensures r == Some(And) <==> Upper(op) == "AND"
    ensures r == Some(Or) <==> Upper(op) == "OR"
  {
    if Upper(op) == "AND" then Some(And)
    else if Upper(op) == "OR" then Some(Or)
    else None
  }

  /** The operator is case-insensitive. */
  lemma ParseOpIgnoresCase(op: string)
    ensures ParseOp(op) == ParseOp(Upper(op))
  {
    assert Upper(Upper(op)) == Upper(op);
  }

  /** The combined mask of a non-empty stack of equally shaped masks. */
  function Combine(op: Op, stack: seq<Matrix<bool>>, h: nat, w: nat): (r: Matrix<bool>)
    requires Stacked(stack, h, w)
    ensures IsRect(r, h, w)
    ensures forall i, j :: 0 <= i < h && 0 <= j < w ==>
              (op == And ==> (r[i][j] <==> forall k :: 0 <= k < |stack| ==> stack[k][i][j]))
              && (op == Or ==> (r[i][j] <==> exists k :: 0 <= k < |stack| && stack[k][i][j]))
  {
    seq(h, i requires 0 <= i < h =>
      seq(w, j requires 0 <= j < w => if op == And then AllAt(stack, i, j) else AnyAt(stack, i, j)))
  }

  /** Every pixel true under AND is true under OR. */
  lemma AndWithinOr(stack: seq<Matrix<bool>>, h: nat, w: nat, i: nat, j: nat)
    requires Stacked(stack, h, w) && |stack| > 0
    requires i < h && j < w
    requires Combine(And, stack, h, w)[i][j]
    ensures Combine(Or, stack, h, w)[i][j]
  {
    assert stack[0][i][j];
  }

  /** A single mask combines to itself under either operator. */
  lemma CombineSingle(op: Op, m: Matrix<bool>, h: nat, w: nat)
    requires IsRect(m, h, w)
    ensures Combine(op, [m], h, w) == m
  {
    var r := Combine(op, [m], h, w);
    forall i | 0 <= i < h ensures r[i] == m[i] {
      forall j | 0 <= j < w ensures r[i][j] == m[i][j] {
        assert [m][0] == m;
      }
    }
  }

  /** `~m` */
  function Invert(m: Matrix<bool>): (r: Matrix<bool>)
    ensures SameShape(r, m)
    ensures forall i, j :: 0 <= i < |m| && 0 <= j < |m[i]| ==> r[i][j] == !m[i][j]
  {
    seq(|m|, i requires 0 <= i < |m| => seq(|m[i]|, j requires 0 <= j < |m[i]| => !m[i][j]))
  }

  lemma InvertInvolution(m: Matrix<bool>)
    ensures Invert(Invert(m)) == m
  {
    assert forall i :: 0 <= i < |m| ==> Invert(Invert(m))[i] == m[i];
  }

  // ---------------------------------------------------------------------
  // The stack for one file name

  /** One source folder: its name and its files, each mapped to the raster
      opened from it or to `None` when opening or reading it raised. */
  datatype Folder = Folder(name: string, files: map<string, Option<Raster>>)

  /** Every raster that can be read is well formed. */
  predicate WellFormed(folders: seq<Folder>) {
    forall d, fn :: 0 <= d < |folders| && fn in folders[d].files && folders[d].files[fn].Some? ==>
      folders[d].files[fn].value.Valid()
  }

  /** The file names each folder lists. */
  function Listings(folders: seq<Folder>): (r: seq<set<string>>)
    ensures |r| == |folders|
    ensures forall d :: 0 <= d < |folders| ==> r[d] == folders[d].files.Keys
  {
    seq(|folders|, d requires 0 <= d < |folders| => folders[d].files.Keys)
  }

  /** The folder has the file and reading it succeeds. */
  predicate Readable(f: Folder, fn: string) {
    fn in f.files && f.files[fn].Some?
  }

  /** The mask a readable source contributes: binarised, inverted when its
      flag says so, then aligned to the reference grid. */
  function SourceMask(f: Folder, fn: string, invert: bool, ref: Profile, reproject: Reprojector): (m: Matrix<bool>)
    requires Readable(f, fn) && f.files[fn].value.Valid()
    requires FillsReference(reproject)
    ensures IsRect(m, ref.height, ref.width)
  {
    var r := f.files[fn].value;
    var b := Binarize(r);
    AlignToRef(if invert then Invert(b) else b, r.profile, ref, reproject)
  }

  /** The masks the folders `folders[1..n]` contribute for `fn`, in folder
      order; a folder without the file, or whose read fails, contributes
      nothing. */
  function Contributions(folders: seq<Folder>, n: nat, fn: string, invert: seq<bool>,
                         ref: Profile, reproject: Reprojector): (r: seq<Matrix<bool>>)
    requires n <= |folders| && |invert| == |folders|
    requires WellFormed(folders) && FillsReference(reproject)
    ensures Stacked(r, ref.height, ref.width)
    ensures |r| <= n
  {
    if n <= 1 then []
    else
      var rest := Contributions(folders, n - 1, fn, invert, ref, reproject);
      if Readable(folders[n - 1], fn) then
        rest + [SourceMask(folders[n - 1], fn, invert[n - 1], ref, reproject)]
      else rest
  }

  /** A readable source among `folders[1..n]` is in the stack, and every mask
      of the stack comes from such a source. */
  lemma {:induction false} ContributionsFrom(folders: seq<Folder>, n: nat, fn: string, invert: seq<bool>,
                                             ref: Profile, reproject: Reprojector, m: Matrix<bool>)
    requires n <= |folders| && |invert| == |folders|
    requires WellFormed(folders) && FillsReference(reproject)
    ensures m in Contributions(folders, n, fn, invert, ref, reproject) <==>
              exists d :: 1 <= d < n && Readable(folders[d], fn) && m == SourceMask(folders[d], fn, invert[d], ref, reproject)
  {
    if n > 1 {
      ContributionsFrom(folders, n - 1, fn, invert, ref, reproject, m);
    }
  }

  /** The stack for `fn`: the reference mask (inverted when its flag says
      so) followed by the other sources' contributions. */
  function StackFor(folders: seq<Folder>, fn: string, invert: seq<bool>, reproject: Reprojector): (r: seq<Matrix<bool>>)
    requires |folders| > 0 && |invert| == |folders|
    requires WellFormed(folders) && FillsReference(reproject)
    requires Readable(folders[0], fn)
  {
    var ref := folders[0].files[fn].value;
    var b := Binarize(ref);
    [if invert[0] then Invert(b) else b] + Contributions(folders, |folders|, fn, invert, ref.profile, reproject)
  }

  /** The stack is non-empty and every mask in it has the reference's shape. */
  lemma StackShape(folders: seq<Folder>, fn: string, invert: seq<bool>, reproject: Reprojector)
    requires |folders| > 0 && |invert| == |folders|
    requires WellFormed(folders) && FillsReference(reproject)
    requires Readable(folders[0], fn)
    ensures var ref := folders[0].files[fn].value.profile;
            |StackFor(folders, fn, invert, reproject)| >= 1
            && Stacked(StackFor(folders, fn, invert, reproject), ref.height, ref.width)
  {
  }

  /** The loop over `subdirs[1:]` that appends each readable source's mask
      to the reference mask. */
  method BuildStack(folders: seq<Folder>, fn: string, invert: seq<bool>, reproject: Reprojector)
    returns (stack: seq<Matrix<bool>>)
    requires |folders| > 0 && |invert| == |folders|
    requires WellFormed(folders) && FillsReference(reproject)
    requires Readable(folders[0], fn)
    ensures stack == StackFor(folders, fn, invert, reproject)
  {
    var ref := folders[0].files[fn].value;
    var b := Binarize(ref);
    if invert[0] {
      b := Invert(b);
    }
    stack := [b];
    var n := 1;
    while n < |folders|
      invariant 1 <= n <= |folders|
      invariant stack == [b] + Contributions(folders, n, fn, invert, ref.profile, reproject)
    {
      var f := folders[n];
      ghost var before := Contributions(folders, n, fn, invert, ref.profile, reproject);
      if fn in f.files && f.files[fn].Some? {
        var src := f.files[fn].value;
        var m := Binarize(src);
        if invert[n] {
          m := Invert(m);
        }
        m := AlignToRef(m, src.profile, ref.profile, reproject);
        assert m == SourceMask(f, fn, invert[n], ref.profile, reproject);
        assert Contributions(folders, n + 1, fn, invert, ref.profile, reproject) == before + [m];
        AppendAssoc([b], before, [m]);
        stack := stack + [m];
      } else {
        assert Contributions(folders, n + 1, fn, invert, ref.profile, reproject) == before;
      }
      n := n + 1;
    }
  }

  lemma AppendAssoc<T>(a: seq<T>, b: seq<T>, c: seq<T>)
    ensures (a + b) + c == a + (b + c)
  {
  }

  /** A readable source's mask is never dropped from the stack, and a
      source that is missing or fails to read adds nothing. */
  lemma StackSources(folders: seq<Folder>, fn: string, invert: seq<bool>, reproject: Reprojector, m: Matrix<bool>)
    requires |folders| > 0 && |invert| == |folders|
    requires WellFormed(folders) && FillsReference(reproject)
    requires Readable(folders[0], fn)
    ensures var ref := folders[0].files[fn].value.profile;
            m in StackFor(folders, fn, invert, reproject)[1..] <==>
              exists d :: 1 <= d < |folders| && Readable(folders[d], fn)
                          && m == SourceMask(folders[d], fn, invert[d], ref, reproject)
  {
    var ref := folders[0].files[fn].value;
    ContributionsFrom(folders, |folders|, fn, invert, ref.profile, reproject, m);
    assert StackFor(folders, fn, invert, reproject)[1..] == Contributions(folders, |folders|, fn, invert, ref.profile, reproject);
  }

  /** The reference read succeeds for some common file name. */
  predicate SomeReferenceReadable(folders: seq<Folder>) {
    |folders| > 0 && exists fn :: fn in CommonNames(Listings(folders)) && Readable(folders[0], fn)
  }
}
