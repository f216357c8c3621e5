/** 5_masks_overlapping_batch_veg.py: for every file name common to all
    vegetation-mask folders, the binarised masks are aligned to the first
    folder's grid, combined with AND or OR, encoded as 0/255 and optionally
    closed and opened. */
module VegFusion {
  import opened Base
  import opened Matrices
  import opened Rasters
  import opened Fusion

  /** `_postprocess_morph`: the 0/255 encoding, then a closing when
      `k_close > 1`, then an opening when `k_open > 1`. */
  function PostprocessMorph(mask: Matrix<bool>, kClose: int, kOpen: int,
                            close: Morphology, open: Morphology): (r: Matrix<int>)
    requires KeepsBinary(close) && KeepsBinary(open)
    ensures SameShape(r, mask) && Binary(r)
    ensures kClose <= 1 && kOpen <= 1 ==> r == Encode(mask)
  {
    var encoded := Encode(mask);
    var closed := if kClose > 1 then close(encoded, kClose) else encoded;
    if kOpen > 1 then open(closed, kOpen) else closed
  }

  /** The file written for `fn` once the operator is known. */
  function VegOutput(folders: seq<Folder>, fn: string, op: Op, kClose: int, kOpen: int,
                     reproject: Reprojector, close: Morphology, open: Morphology): (o: Output)
    requires |folders| > 0 && WellFormed(folders) && Readable(folders[0], fn)
    requires FillsReference(reproject) && KeepsBinary(close) && KeepsBinary(open)
    ensures var ref := folders[0].files[fn].value.profile;
            o.profile == MaskProfile(ref) && IsRect(o.pixels, ref.height, ref.width) && Binary(o.pixels)
  {
    var ref := folders[0].files[fn].value.profile;
    var stack := StackFor(folders, fn, seq(|folders|, _ => false), reproject);
    StackShape(folders, fn, seq(|folders|, _ => false), reproject);
    var combined := Combine(op, stack, ref.height, ref.width);
    Output(MaskProfile(ref), PostprocessMorph(combined, kClose, kOpen, close, open))
  }

  /** Without morphology a written pixel is 255 exactly where the combination
      holds: under AND every stacked mask, under OR some stacked mask. */
  lemma VegPixelRule(folders: seq<Folder>, fn: string, op: Op, kClose: int, kOpen: int,
                     reproject: Reprojector, close: Morphology, open: Morphology, i: nat, j: nat)
    requires |folders| > 0 && WellFormed(folders) && Readable(folders[0], fn)
    requires FillsReference(reproject) && KeepsBinary(close) && KeepsBinary(open)
    requires kClose <= 1 && kOpen <= 1
    requires i < folders[0].files[fn].value.profile.height && j < folders[0].files[fn].value.profile.width
    ensures var stack := StackFor(folders, fn, seq(|folders|, _ => false), reproject);
            var px := VegOutput(folders, fn, op, kClose, kOpen, reproject, close, open).pixels[i][j];
            (op == And ==> (px == On <==> forall k :: 0 <= k < |stack| ==> stack[k][i][j]))
            && (op == Or ==> (px == On <==> exists k :: 0 <= k < |stack| && stack[k][i][j]))
  {
    var ref := folders[0].files[fn].value.profile;
    StackShape(folders, fn, seq(|folders|, _ => false), reproject);
  }

  /** `find_overlapping_masks` over one folder of mask folders.
      `warned` is the warning printed for AND over fewer than two folders,
      after which the function goes on.  The result is the map of written
      files, or the ValueError an unknown operator raises at the first file
      whose reference read succeeds. */
  method FindOverlappingMasks(folders: seq<Folder>, op: string, kClose: int, kOpen: int,
                              reproject: Reprojector, close: Morphology, open: Morphology)
    returns (warned: bool, result: Result<map<string, Output>, string>)
    requires WellFormed(folders)
    requires FillsReference(reproject) && KeepsBinary(close) && KeepsBinary(open)
    ensures warned <==> |folders| < 2 && op == "AND"
    ensures result.Failure? <==> ParseOp(op).None? && SomeReferenceReadable(folders)
    ensures result.Success? ==>
              forall fn :: fn in result.value <==>
                fn in CommonNames(Listings(folders)) && Readable(folders[0], fn)
    ensures result.Success? ==>
              forall fn :: fn in result.value ==>
                ParseOp(op).Some?
                && result.value[fn] == VegOutput(folders, fn, ParseOp(op).value, kClose, kOpen, reproject, close, open)
  {
    warned := |folders| < 2 && op == "AND";
    if |folders| == 0 {
      return warned, Success(map[]);
    }
    var names := ListCommonFilenames(Listings(folders));
    var noInversion := seq(|folders|, _ => false);
    var written: map<string, Output> := map[];
    var n := 0;
    while n < |names|
      invariant 0 <= n <= |names|
      invariant forall fn :: fn in written <==> fn in names[..n] && Readable(folders[0], fn)
      invariant ParseOp(op).None? ==> forall fn :: fn in names[..n] ==> !Readable(folders[0], fn)
      invariant forall fn :: fn in written ==>
                  ParseOp(op).Some?
                  && written[fn] == VegOutput(folders, fn, ParseOp(op).value, kClose, kOpen, reproject, close, open)
    {
      var fn := names[n];
      assert names[..n + 1] == names[..n] + [fn];
      if fn in folders[0].files && folders[0].files[fn].Some? {
        var stack := BuildStack(folders, fn, noInversion, reproject);
        var parsed := ParseOp(op);
        if parsed.None? {
          assert fn in CommonNames(Listings(folders));
          return warned, Failure("op must be one of: AND, OR");
        }
        var ref := folders[0].files[fn].value.profile;
        StackShape(folders, fn, noInversion, reproject);
        var combined := Combine(parsed.value, stack, ref.height, ref.width);
        var pixels := PostprocessMorph(combined, kClose, kOpen, close, open);
        written := written[fn := Output(MaskProfile(ref), pixels)];
      }
      n := n + 1;
    }
    assert names[..n] == names;
    return warned, Success(written);
  }
}
