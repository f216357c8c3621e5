/** 6_masks_overlapping_batch_mulch.py: as the vegetation fusion, except
    that the masks of folders named after a vegetation index are inverted
    (vegetation is not mulch) before they are aligned and combined, and that
    no morphology follows. */
module MulchFusion {
  import opened Base
  import opened Matrices
  import opened Text
  import opened Rasters
  import opened Fusion

  /** The prefixes inverted by default. */
  const DefaultInvertPrefixes: seq<string> := ["ndvi", "osavi"]

  /** `_should_invert`: some prefix begins the folder name, case ignored. */
  function ShouldInvert(name: string, prefixes: seq<string>): (r: bool)
    ensures r <==> exists k :: 0 <= k < |prefixes| && StartsWith(Lower(name), Lower(prefixes[k]))
  {
    if prefixes == [] then false
    else
      assert forall k :: 1 <= k < |prefixes| ==> prefixes[k] == prefixes[1..][k - 1];
      StartsWith(Lower(name), Lower(prefixes[0])) || ShouldInvert(name, prefixes[1..])
  }

  /** Under the default prefixes a folder is inverted exactly when its
      lower-cased name starts with `ndvi` or `osavi`, whatever the case of
      the name. */
  lemma DefaultInversion(name: string)
    ensures ShouldInvert(name, DefaultInvertPrefixes) <==>
              StartsWith(Lower(name), "ndvi") || StartsWith(Lower(name), "osavi")
  {
    LowerWithoutUpper("ndvi");
    LowerWithoutUpper("osavi");
    assert Lower(DefaultInvertPrefixes[0]) == "ndvi" && Lower(DefaultInvertPrefixes[1]) == "osavi";
  }

  /** `[s.strip() for s in option.split(",") if s.strip()]`: the non-empty,
      stripped, comma-free prefixes of the `--invert-prefix` option. */
  function ParseInvertPrefixes(option: string): (r: seq<string>)
    ensures forall k :: 0 <= k < |r| ==> r[k] != [] && Trimmed(r[k]) && ',' !in r[k]
    ensures exists pieces :: CommaPieces(pieces, option) && r == StrippedTokens(pieces)
  {
    var pieces := Split(option, ',');
    StrippedTokensAvoid(pieces, ',');
    var r := StrippedTokens(pieces);
    assert CommaPieces(pieces, option);
    assert forall k :: 0 <= k < |r| ==> r[k] in r;
    r
  }

  /** `pieces` are the pieces of `option` between its commas. */
  predicate CommaPieces(pieces: seq<string>, option: string) {
    |pieces| > 0 && (forall k :: 0 <= k < |pieces| ==> ',' !in pieces[k]) && Join(pieces, ',') == option
  }

  /** Prefixes written comma-separated are read back as written (the
      default `ndvi,osavi` gives `["ndvi", "osavi"]`). */
  lemma ParseJoinedPrefixes(prefixes: seq<string>)
    requires |prefixes| > 0
    requires forall k :: 0 <= k < |prefixes| ==> prefixes[k] != [] && Trimmed(prefixes[k]) && ',' !in prefixes[k]
    ensures ParseInvertPrefixes(Join(prefixes, ',')) == prefixes
  {
    SplitJoin(prefixes, ',');
    StrippedTokensOfTrimmed(prefixes);
  }

  /** The inversion flag of every folder, in folder order. */
  function InvertFlags(folders: seq<Folder>, prefixes: seq<string>): (r: seq<bool>)
    ensures |r| == |folders|
    ensures forall d :: 0 <= d < |folders| ==> r[d] == ShouldInvert(folders[d].name, prefixes)
  {
    seq(|folders|, d requires 0 <= d < |folders| => ShouldInvert(folders[d].name, prefixes))
  }

  /** The file written for `fn` once the operator is known: the combined
      stack encoded as 0/255 under the reference's mask profile. */
  function MulchOutput(folders: seq<Folder>, fn: string, op: Op, prefixes: seq<string>,
                       reproject: Reprojector): (o: Output)
    requires |folders| > 0 && WellFormed(folders) && Readable(folders[0], fn)
    requires FillsReference(reproject)
    ensures var ref := folders[0].files[fn].value.profile;
            o.profile == MaskProfile(ref) && IsRect(o.pixels, ref.height, ref.width) && Binary(o.pixels)
  {
    var ref := folders[0].files[fn].value.profile;
    var flags := InvertFlags(folders, prefixes);
    StackShape(folders, fn, flags, reproject);
    Output(MaskProfile(ref), Encode(Combine(op, StackFor(folders, fn, flags, reproject), ref.height, ref.width)))
  }

  /** A written pixel is 255 exactly where the combination holds: under AND
      every stacked (possibly inverted) mask, under OR some stacked mask. */
  lemma MulchPixelRule(folders: seq<Folder>, fn: string, op: Op, prefixes: seq<string>,
                       reproject: Reprojector, i: nat, j: nat)
    requires |folders| > 0 && WellFormed(folders) && Readable(folders[0], fn)
    requires FillsReference(reproject)
    requires i < folders[0].files[fn].value.profile.height && j < folders[0].files[fn].value.profile.width
    ensures var stack := StackFor(folders, fn, InvertFlags(folders, prefixes), reproject);
            var px := MulchOutput(folders, fn, op, prefixes, reproject).pixels[i][j];
            (op == And ==> (px == On <==> forall k :: 0 <= k < |stack| ==> stack[k][i][j]))
            && (op == Or ==> (px == On <==> exists k :: 0 <= k < |stack| && stack[k][i][j]))
  {
    StackShape(folders, fn, InvertFlags(folders, prefixes), reproject);
  }

  /** The reference folder's mask enters the stack inverted exactly when its
      name matches a prefix, and each other readable source enters as its
      binarised mask, inverted when its own name matches, then aligned. */
  lemma MulchStackOrder(folders: seq<Folder>, fn: string, prefixes: seq<string>, reproject: Reprojector,
                        i: nat, j: nat)
    requires |folders| > 0 && WellFormed(folders) && Readable(folders[0], fn)
    requires FillsReference(reproject)
    requires var ref := folders[0].files[fn].value; i < ref.profile.height && j < ref.profile.width
    ensures var ref := folders[0].files[fn].value;
            StackFor(folders, fn, InvertFlags(folders, prefixes), reproject)[0][i][j]
              == (Keeps(ref.band.cells[i][j], ref.profile.nodata) != ShouldInvert(folders[0].name, prefixes))
  {
  }

  /** Inverting a source before aligning it and aligning it before inverting
      agree when the grids already match. */
  lemma InvertBeforeAlignSameGrid(m: Matrix<bool>, src: Profile, ref: Profile, reproject: Reprojector)
    requires FillsReference(reproject)
    requires SameGrid(src, ref)
    ensures AlignToRef(Invert(m), src, ref, reproject) == Invert(AlignToRef(m, src, ref, reproject))
  {
  }

  /** `combine_mulch_masks` over one folder of mask folders: the map of
      written files, or the ValueError an unknown operator raises at the first
      file whose reference read succeeds. */
  method CombineMulchMasks(folders: seq<Folder>, op: string, prefixes: seq<string>, reproject: Reprojector)
    returns (result: Result<map<string, Output>, string>)
    requires WellFormed(folders)
    requires FillsReference(reproject)
    ensures result.Failure? <==> ParseOp(op).None? && SomeReferenceReadable(folders)
    ensures result.Success? ==>
              forall fn :: fn in result.value <==>
                fn in CommonNames(Listings(folders)) && Readable(folders[0], fn)
    ensures result.Success? ==>
              forall fn :: fn in result.value ==>
                ParseOp(op).Some? && result.value[fn] == MulchOutput(folders, fn, ParseOp(op).value, prefixes, reproject)
  {
    if |folders| == 0 {
      return Success(map[]);
    }
    var names := ListCommonFilenames(Listings(folders));
    var flags := InvertFlags(folders, prefixes);
    var written: map<string, Output> := map[];
    var n := 0;
    while n < |names|
      invariant 0 <= n <= |names|
      invariant forall fn :: fn in written <==> fn in names[..n] && Readable(folders[0], fn)
      invariant ParseOp(op).None? ==> forall fn :: fn in names[..n] ==> !Readable(folders[0], fn)
      invariant forall fn :: fn in written ==>
                  ParseOp(op).Some? && written[fn] == MulchOutput(folders, fn, ParseOp(op).value, prefixes, reproject)
    {
      var fn := names[n];
      assert names[..n + 1] == names[..n] + [fn];
      if fn in folders[0].files && folders[0].files[fn].Some? {
        var stack := BuildStack(folders, fn, flags, reproject);
        var parsed := ParseOp(op);
        if parsed.None? {
          assert fn in CommonNames(Listings(folders));
          return Failure("op must be AND or OR");
        }
        var ref := folders[0].files[fn].value.profile;
        StackShape(folders, fn, flags, reproject);
        var pixels := Encode(Combine(parsed.value, stack, ref.height, ref.width));
        written := written[fn := Output(MaskProfile(ref), pixels)];
      }
      n := n + 1;
    }
    assert names[..n] == names;
    return Success(written);
  }
}
