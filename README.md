# UAV plot-image pipeline: masks, mask fusion and trait extraction

This project models the per-plot part of the UAV image-processing pipeline in
Dafny. The pipeline reads cropped plot rasters: a DEM (heights) and
vegetation-index images such as NDVI or OSAVI. It then:

1. **Generates masks.** `generate_masks_dem` clusters each plot's rescaled
   heights and keeps the pixels at or above the second cluster centre.
   `generate_masks_vi` thresholds a VI band and optionally closes the result.
   Each mask is written as a 0/255 `uint8` raster with the source's profile
   (module `MaskBuilder`).
2. **Fuses masks.** For every file name common to all mask folders, the
   masks are binarised and aligned to the first folder's grid. They are then
   combined with AND or OR, encoded as 0/255 and written. The vegetation
   variant can close and open the result (`VegFusion`). The mulch variant
   first inverts the masks of folders whose names start with given prefixes
   (`MulchFusion`). Both share `Fusion`.
3. **Extracts traits** into per-date spreadsheet rows:
   - `MulchHeight`: the mean of the middle 40% of masked heights inside the
     central 5%-95% window.
   - `DemTraits`: coverage, the mean of the top 5% of heights, the volume,
     and the GSD-based area.
   - `SpectralTraits`: the mean and population standard deviation of the
     grey value under the mask, merged into one row per (date, image).

`Plots` holds what the three trait scripts share. `Stats` holds sums, means,
sorting, partitioning and variance. `Rasters`, `Matrices`, `Text` and `Base`
hold the data model.

How the model represents things:

- A pixel is an `Option<real>`; `None` stands for NaN or a masked cell.
- A raster is a matrix (`seq<seq<_>>`) with a `Profile` that records
  height, width and nodata.
- Array work is done by methods on `array2`. `MaskBuilder.Paint` and
  `Plots.ClearValue` write in place, as the scripts' NumPy assignments do.
  `MulchHeight.ApplyMask` fills a fresh array, as `cv2.bitwise_and`
  allocates its output, and `Plots.ToArray` copies a matrix into one.
- The per-date tables of scripts 7 and 8, and the keyed rows of script 9,
  are classes whose methods update them.
- Library calls the scripts depend on are function parameters, each
  constrained by a predicate stating what the model relies on:
  - the optimal 1-D k-means (`ckwrap.ckmeans`): `Clusterer`, `CentersWithinRange`
    (only that every centre lies within the range of the clustered values);
  - rasterio reprojection: `Reprojector`, `FillsReference`;
  - OpenCV closing and opening: `Morphology`, `KeepsBinary`;
  - the square root inside `np.std`: `SquareRoot`, `IsSquareRoot`.
- File reads become `Option` inputs, where `None` means the read failed.
  Folder listings become maps from file name to an optional raster.

Behaviours of the code that the model keeps on purpose:

- **VI masks keep -9999.** The VI path (`generate_masks_vi`) does not exclude
  -9999, so a -9999 pixel within the thresholds is set to 255.
- **One DEM cluster is not an empty mask.** With a single cluster the
  threshold is that cluster's centre.
- **A DEM file is skipped when the clustering returns too few centres.**
  `km.centers[center_idx]` raises when the centre list is shorter than
  `center_idx + 1`. The `except` then skips the file and writes no mask
  (`MaskBuilder.DemRaises`). With a clustering that returns the requested
  number of centres this never happens
  (`MaskBuilder.DemRaisesOnlyOnShortCenters`).
- **Script 7 drops zero heights.** A height of exactly 0 counts as unmasked,
  because the masked array's zeros are turned into NaN.
- **Script 7 has no mid-40% mean for one value.** For one valid value the
  mid-40% slice is empty, so the mean is NaN.
- **Script 8 overwrites its relative columns.** It always replaces the
  "Relative" height and volume columns with the absolute top-5% mean and the
  sum, so the reference table changes no row.
- **Script 8 fails without a GSD** (`px_m2` is unbound) when the plot has
  valid pixels.
- **Script 8's absolute columns appear only in the empty case.** Only an
  empty plot gets the optional absolute columns.
- **Script 9 does not exclude -9999.** A masked -9999 grey value enters the
  mean.

## Model

| member | source | states |
|---|---|---|
| MaskBuilder.Paint | sophie_4_generate_mask_on_1orbatch.py:87-95 | the zero-filled uint8 array with the selected cells set to 255 is exactly the 0/255 encoding of the selection |
| MaskBuilder.ParseThresholds | sophie_4_generate_mask_on_1orbatch.py:69-70 | fails (ValueError) exactly when both thresholds are missing; otherwise keeps the given bounds |
| MaskBuilder.ViSelection | sophie_4_generate_mask_on_1orbatch.py:86-94 | a pixel is selected iff it is valid and lies within the lower and/or upper threshold that is given |
| MaskBuilder.CloseKernel | sophie_4_generate_mask_on_1orbatch.py:73-75 | a closing kernel exists iff OpenCV is present and morph_close > 1, and it has that size |
| MaskBuilder.ViMask | sophie_4_generate_mask_on_1orbatch.py:86-99 | the VI mask has the band's shape and is 0/255; without a kernel a pixel is 255 iff it is valid and admitted |
| MaskBuilder.ViMaskedPixelsOff | sophie_4_generate_mask_on_1orbatch.py:87-95 | a nodata-masked pixel is 0 in the unmorphed VI mask |
| MaskBuilder.ViKeepsSentinel | sophie_4_generate_mask_on_1orbatch.py:84-95 | the VI path does not exclude -9999: such a pixel below the upper threshold is set to 255 |
| MaskBuilder.GenerateMasksVi | sophie_4_generate_mask_on_1orbatch.py:66-104 | raises before any file iff no threshold is given; otherwise writes exactly one mask per readable .tif, the one ViMask defines |
| MaskBuilder.PaintVi | sophie_4_generate_mask_on_1orbatch.py:86-101 | the raster painted for one VI image is ViMask (closed when a kernel is given), with the mask profile |
| MaskBuilder.DemCell | sophie_4_generate_mask_on_1orbatch.py:34-36 | a DEM cell is valid iff it is not nodata and not -9999, and then keeps its value |
| MaskBuilder.DemValid | sophie_4_generate_mask_on_1orbatch.py:34-36 | the masked DEM has the band's shape and applies DemCell cell by cell |
| MaskBuilder.Denominator | sophie_4_generate_mask_on_1orbatch.py:45 | the rescaling denominator is positive and at least vmax - vmin |
| MaskBuilder.Rescale | sophie_4_generate_mask_on_1orbatch.py:46 | the lowest valid height rescales to 0, and the highest to 255 when the range exceeds the 1e-12 floor |
| MaskBuilder.RescaleRange | sophie_4_generate_mask_on_1orbatch.py:43-46 | a valid height rescales into [0, 255], and to 0 when every height is equal |
| MaskBuilder.RescaleMonotone | sophie_4_generate_mask_on_1orbatch.py:46 | rescaling preserves the order of heights |
| MaskBuilder.ClusterCount | sophie_4_generate_mask_on_1orbatch.py:52 | the cluster count is at least 1, at most the number of values and at most k, and equals k when 1 <= k <= n |
| MaskBuilder.ScaledValues | sophie_4_generate_mask_on_1orbatch.py:46-48 | the compressed scaled values are the valid heights rescaled one by one |
| MaskBuilder.DemThreshold | sophie_4_generate_mask_on_1orbatch.py:38-55 | there is no threshold exactly when the plot has no valid height; otherwise it is centre 1 of the clustering of the rescaled valid heights into k_use = max(1, min(k, n)) clusters when k_use >= 2, and centre 0 otherwise |
| MaskBuilder.DemRaisesOnlyOnShortCenters | sophie_4_generate_mask_on_1orbatch.py:52-55 | a clustering that returns as many centres as asked for never makes centers[center_idx] raise |
| MaskBuilder.DemSelection | sophie_4_generate_mask_on_1orbatch.py:57-59 | the selection has the band's shape, and a pixel is selected iff it is valid (neither nodata nor -9999), there is a threshold, and its rescaled height is at least the threshold |
| MaskBuilder.DemThresholdRange | sophie_4_generate_mask_on_1orbatch.py:52-55 | for a file that is not skipped, the chosen cluster centre lies in [0, 255] |
| MaskBuilder.DemSelectsPeak | sophie_4_generate_mask_on_1orbatch.py:52-59 | for a file that is not skipped, the highest valid pixel is always selected, so a plot with valid heights never gets an empty mask |
| MaskBuilder.DemSelectionUpward | sophie_4_generate_mask_on_1orbatch.py:57-59 | for a file that is not skipped, the selection is upward closed: a valid pixel at least as high as a selected one is selected |
| MaskBuilder.DemNoValidPixels | sophie_4_generate_mask_on_1orbatch.py:38-41 | a plot without valid heights gets an all-zero mask |
| MaskBuilder.GenerateMasksDem | sophie_4_generate_mask_on_1orbatch.py:25-64 | a mask is written for a name iff it is a readable .tif whose clustering returns the centre it needs; that mask is the 0/255 encoding of DemSelection with the mask profile |
| MaskBuilder.PaintDem | sophie_4_generate_mask_on_1orbatch.py:52-61 | one DEM image gives nothing when centers[center_idx] would raise, and otherwise the 0/255 encoding of DemSelection with the mask profile |
| MaskBuilder.MaskFolderName | sophie_4_generate_mask_on_1orbatch.py:118-119 | the mask folder name is the text before the first '_' of the image folder name, followed by "_mask" |
| Rasters.MaskProfile | sophie_4_generate_mask_on_1orbatch.py:14-20 | a written mask keeps the source's grid and has one uint8 band with nodata 0 |
| Rasters.Encode | 5_masks_overlapping_batch_veg.py:16 | the 0/255 encoding is binary, keeps the shape, and is 255 exactly where the boolean mask holds |
| Fusion.Binarize | 5_masks_overlapping_batch_veg.py:39-47 | a pixel is true iff it is present, not -9999, not the nodata value, and positive |
| Fusion.BinarizeNonPositiveNodata | 5_masks_overlapping_batch_veg.py:43-46 | with a non-positive nodata value, the binarised mask is just "present and positive" |
| Fusion.AlignToRef | 5_masks_overlapping_batch_veg.py:49-67 | a mask on the reference grid is returned unchanged; otherwise it is reprojected onto the reference's shape |
| Fusion.InsertName | 5_masks_overlapping_batch_veg.py:37 | inserting a name keeps the list strictly sorted and adds exactly that name |
| Fusion.StrictlySortedUnique | 5_masks_overlapping_batch_veg.py:37 | two strictly sorted lists with the same names are equal, so the sorted list is determined by the set |
| Fusion.StrLessTotal | 5_masks_overlapping_batch_veg.py:37 | the string order used by `sorted` relates any two distinct names, one way only |
| Fusion.CommonNames | 5_masks_overlapping_batch_veg.py:31-37 | a name is common iff every folder lists it and it has a .tif/.tiff extension in any case |
| Fusion.ListCommonFilenames | 5_masks_overlapping_batch_veg.py:31-37 | returns the common names strictly sorted, and nothing for no folders |
| Fusion.AllAt | 5_masks_overlapping_batch_veg.py:112 | np.all over the stack at a pixel: every mask holds there |
| Fusion.AnyAt | 5_masks_overlapping_batch_veg.py:114 | np.any over the stack at a pixel: some mask holds there |
| Fusion.ParseOp | 5_masks_overlapping_batch_veg.py:111-116 | AND or OR is recognised iff the upper-cased operator spells it; anything else is rejected |
| Fusion.ParseOpIgnoresCase | 5_masks_overlapping_batch_veg.py:111-113 | the operator is case-insensitive |
| Fusion.Combine | 5_masks_overlapping_batch_veg.py:109-114 | the combination has the reference shape and is AllAt under AND and AnyAt under OR, pixel by pixel |
| Fusion.AndWithinOr | 5_masks_overlapping_batch_veg.py:111-114 | for a non-empty stack a pixel kept by AND is kept by OR |
| Fusion.CombineSingle | 5_masks_overlapping_batch_veg.py:109-114 | combining a single mask gives it back, under either operator |
| Fusion.Invert | 6_masks_overlapping_batch_mulch.py:95-96 | inversion keeps the shape and negates every pixel |
| Fusion.InvertInvolution | 6_masks_overlapping_batch_mulch.py:96 | inverting twice gives the mask back |
| Fusion.SourceMask | 6_masks_overlapping_batch_mulch.py:103-108 | a source folder's mask, inverted if flagged and then aligned, has the reference shape |
| Fusion.Contributions | 5_masks_overlapping_batch_veg.py:95-104 | the masks gathered from the other folders have the reference shape, at most one per folder |
| Fusion.ContributionsFrom | 5_masks_overlapping_batch_veg.py:95-104 | a mask is gathered iff some later folder has a readable file of that name and that mask is its aligned mask |
| Fusion.BuildStack | 5_masks_overlapping_batch_veg.py:85-104 | the loop builds exactly the stack StackFor specifies: the reference mask, then the readable later files in folder order |
| Fusion.StackShape | 5_masks_overlapping_batch_veg.py:93-104 | the stack is non-empty and every mask has the reference shape |
| Fusion.StackSources | 5_masks_overlapping_batch_veg.py:93-104 | every stacked mask is the reference mask or comes from a readable later folder |
| VegFusion.PostprocessMorph | 5_masks_overlapping_batch_veg.py:10-25 | the result keeps the shape and is 0/255; with both kernels at most 1 it is the plain encoding |
| VegFusion.VegOutput | 5_masks_overlapping_batch_veg.py:109-125 | the written file has the reference mask profile and shape and is 0/255 |
| VegFusion.VegPixelRule | 5_masks_overlapping_batch_veg.py:109-118 | without morphology a pixel is 255 iff every stacked mask holds (AND), or iff some does (OR) |
| VegFusion.FindOverlappingMasks | 5_masks_overlapping_batch_veg.py:69-129 | warns iff AND over fewer than two folders; fails iff the operator is unknown and some reference read succeeds; otherwise writes exactly the common names whose reference is readable, each as VegOutput |
| MulchFusion.ShouldInvert | 6_masks_overlapping_batch_mulch.py:68-70 | a folder is inverted iff its lower-cased name starts with some lower-cased prefix |
| MulchFusion.DefaultInversion | 6_masks_overlapping_batch_mulch.py:68-73 | with the default prefixes a folder is inverted iff its lower-cased name starts with "ndvi" or "osavi" |
| MulchFusion.ParseInvertPrefixes | 6_masks_overlapping_batch_mulch.py:160 | the prefixes are the stripped, non-empty pieces between the option's commas, in order; each is non-empty, stripped and comma-free |
| MulchFusion.ParseJoinedPrefixes | 6_masks_overlapping_batch_mulch.py:160 | non-empty, stripped, comma-free prefixes written comma-separated are read back as written |
| MulchFusion.InvertFlags | 6_masks_overlapping_batch_mulch.py:95-106 | each folder's inversion flag is ShouldInvert of its name |
| MulchFusion.MulchOutput | 6_masks_overlapping_batch_mulch.py:115-130 | the written file has the reference mask profile and shape and is the 0/255 encoding of the combination |
| MulchFusion.MulchPixelRule | 6_masks_overlapping_batch_mulch.py:115-123 | a written pixel is 255 iff every stacked (possibly inverted) mask holds there under AND, or some does under OR |
| MulchFusion.MulchStackOrder | 6_masks_overlapping_batch_mulch.py:95-97 | the first stacked mask is the reference mask, inverted iff the reference folder is flagged |
| MulchFusion.InvertBeforeAlignSameGrid | 6_masks_overlapping_batch_mulch.py:105-107 | on the reference grid, inverting before aligning equals inverting after |
| MulchFusion.CombineMulchMasks | 6_masks_overlapping_batch_mulch.py:72-134 | fails iff the operator is unknown and some reference read succeeds; otherwise writes exactly the common names whose reference is readable, each as MulchOutput |
| Plots.DateOf | 7_mulch_height_extract.py:32 | the date is the longest '_'-free prefix of the folder two levels above the image: the character after it is '_', or it is the whole name |
| Plots.AppendRow | 7_mulch_height_extract.py:85 | setdefault-and-append adds the row at the end of its date's list and changes no other date |
| Plots.DateTables.constructor | 7_mulch_height_extract.py:92 | the per-date table starts empty |
| Plots.DateTables.Append | 7_mulch_height_extract.py:85 | the table after appending is AppendRow of the table before |
| Plots.AppendKeepsOrder | 7_mulch_height_extract.py:85 | appending never loses or reorders the rows already stored for any date |
| Plots.Uint8 | 7_mulch_height_extract.py:53-54 | the uint8 cast wraps modulo 256 and keeps values already in range |
| Plots.ClearValue | 7_mulch_height_extract.py:43 | in place, every cell equal to the value becomes NaN and every other cell is unchanged |
| Plots.ToArray | 7_mulch_height_extract.py:42 | the array copy has the matrix's shape and contents |
| Plots.Wildcarded | 7_mulch_height_extract.py:127-128 | a token without a wildcard becomes '*' + token + '*'; one with a wildcard is kept |
| Plots.NormalizeToken | 7_mulch_height_extract.py:126-129 | a normalised token is non-empty, has a wildcard, has no upper-case letter, and adds only '*' |
| Plots.PatternTokens | 7_mulch_height_extract.py:124 | the raw tokens are the stripped, non-empty pieces between the ',' and ';' separators, in order |
| Plots.PatternTokensOfPieces | 8_trait_extract_dem.py:13 | the pieces between the separators are unique, so any such pieces give the raw tokens |
| Plots.NormalizePatterns | 7_mulch_height_extract.py:116-130 | an empty option gives the default pattern; otherwise the result is each stripped, non-empty piece between the ',' and ';' separators, normalised, in order |
| Plots.NormalizeAllIdempotent | 7_mulch_height_extract.py:126-129 | normalising an already normalised token list returns it unchanged |
| Plots.NormalizeIdempotent | 8_trait_extract_dem.py:9-19 | normalising the comma-joined normalised patterns gives them back |
| Matrices.CropIdentity | 7_mulch_height_extract.py:46-50 | cropping to the common shape changes nothing when the shapes already agree, so the shape test is harmless |
| Stats.Sort | 7_mulch_height_extract.py:73 | the sort is sorted and a permutation of its input |
| Stats.SortedUnique | 7_mulch_height_extract.py:73 | a sorted permutation is unique, so Sort is the in-place sort's result |
| Stats.SortPermutation | 7_mulch_height_extract.py:73 | permutations have the same sort |
| MulchHeight.RankBounds | 7_mulch_height_extract.py:74-76 | 0 <= int(0.3n) <= int(0.7n) <= n, and the slice is non-empty iff n >= 2 |
| MulchHeight.MidMean | 7_mulch_height_extract.py:70-77 | the mid-40% mean is NaN iff there is at most one valid value |
| MulchHeight.MidMeanBounds | 7_mulch_height_extract.py:73-77 | the mid-40% mean lies between the smallest and the largest value |
| MulchHeight.MidMeanPermutation | 7_mulch_height_extract.py:68-77 | the mid-40% mean does not depend on the order of the values |
| MulchHeight.LowerTailOutlier | 7_mulch_height_extract.py:73-77 | lowering any value in the bottom 30% leaves the mean unchanged (robust to the low tail) |
| MulchHeight.UpperTailOutlier | 7_mulch_height_extract.py:73-77 | raising any value in the top 30% leaves the mean unchanged (robust to the high tail) |
| MulchHeight.HeightCell | 7_mulch_height_extract.py:41-59 | a height counts iff it is present, not -9999, not 0, and its uint8 mask is nonzero |
| MulchHeight.MaskedHeights | 7_mulch_height_extract.py:45-59 | the masked heights have the common crop shape and apply HeightCell cell by cell |
| MulchHeight.ApplyMask | 7_mulch_height_extract.py:56-59 | the masked grid is 0 where the uint8 mask is 0 and the DEM value elsewhere, over the common crop |
| MulchHeight.RoiBounds | 7_mulch_height_extract.py:62-65 | the 5%-95% window lies within the image |
| MulchHeight.RoiHeightSource | 7_mulch_height_extract.py:61-69 | every value in the ROI list is a counted height inside the window |
| MulchHeight.RoiHeightCell | 7_mulch_height_extract.py:61-69 | every counted height inside the window is in the ROI list |
| MulchHeight.RoiHeightCounts | 7_mulch_height_extract.py:61-69 | the window's list holds each valid window cell's height once, with multiplicity, so its length is the number of valid window cells |
| MulchHeight.HeightRow | 7_mulch_height_extract.py:61-84 | the row has exactly the date, image and height columns, with the date, the image name, and the mid-40% mean of the window's masked heights |
| MulchHeight.HeightWithinRange | 7_mulch_height_extract.py:67-84 | with at least two valid window heights, the row's height is their mid-40% mean, a number between their minimum and maximum |
| MulchHeight.ProcessImage | 7_mulch_height_extract.py:30-85 | a failed read changes nothing; otherwise HeightRow is appended under the image's date |
| DemTraits.MaskPlane | 8_trait_extract_dem.py:54-58 | the mask plane is channel 0 of a colour mask, cast to uint8 |
| DemTraits.DemCell | 8_trait_extract_dem.py:50-69 | a DEM value counts iff the mask is positive and the value is present and not -9999 |
| DemTraits.MaskedDem | 8_trait_extract_dem.py:60-69 | the masked DEM has the common crop shape and applies DemCell cell by cell |
| DemTraits.PlotValueSource | 8_trait_extract_dem.py:69-72 | every flattened value is a counted DEM cell |
| DemTraits.PlotValueCell | 8_trait_extract_dem.py:69-72 | every counted DEM cell is among the flattened values |
| DemTraits.PlotValueCounts | 8_trait_extract_dem.py:71-72 | the flattened values hold each counted cell once, with multiplicity, so coverage_px is the number of counted cells |
| DemTraits.TopCountBounds | 8_trait_extract_dem.py:92 | for n >= 1, max(1, int(0.05n)) lies in [1, n], and is 1 below 40 values |
| DemTraits.Largest | 8_trait_extract_dem.py:91-93 | the top slice has k elements drawn from the values, none smaller than any value left out |
| DemTraits.PartitionTopMean | 8_trait_extract_dem.py:93-94 | for any partition at n - k, the mean of its tail equals the top-5% mean |
| DemTraits.TopMeanBounds | 8_trait_extract_dem.py:91-94 | the top-5% mean lies between the overall mean and the maximum |
| DemTraits.TopMean | 8_trait_extract_dem.py:92-94 | with fewer than 40 values k is 1 and the top-5% mean is the maximum |
| DemTraits.PixelArea | 8_trait_extract_dem.py:104 | the pixel area (gsd_mm / 1000)^2 is non-negative |
| DemTraits.CoverageArea | 8_trait_extract_dem.py:106 | the coverage area is non-negative and is 0 for no pixels or a zero GSD |
| DemTraits.CoverageAdditive | 8_trait_extract_dem.py:106 | the coverage area is additive in the pixel count |
| DemTraits.DigitsRoundTrip | 8_trait_extract_dem.py:34 | reading back the decimal text of a natural number gives the number |
| DemTraits.Decimal | 8_trait_extract_dem.py:34 | str of an integer is non-empty and starts with '-' iff it is negative |
| DemTraits.DecimalInjective | 8_trait_extract_dem.py:34 | distinct integers have distinct decimal texts, so the date match is exact |
| DemTraits.DecimalRoundTrip | 8_trait_extract_dem.py:34 | reading back the digits str writes for an integer gives that integer |
| DemTraits.FirstIndex | 8_trait_extract_dem.py:28-29 | the first row whose key matches, or none iff no row matches |
| DemTraits.RefHeight | 8_trait_extract_dem.py:25-29 | no table gives NaN; otherwise the height of the first row with that Image ID, or NaN |
| DemTraits.GsdLookup | 8_trait_extract_dem.py:31-35 | no table gives NaN; otherwise the GSD of the first row whose filename text equals the date |
| DemTraits.GsdNumericDate | 8_trait_extract_dem.py:34 | a date stored as a number in the sheet matches the date text |
| DemTraits.EmptyRow | 8_trait_extract_dem.py:73-86 | an empty plot's row has the four metric columns, plus the absolute ones when asked, all NaN |
| DemTraits.RelativeRow | 8_trait_extract_dem.py:116-123 | the row has the date, the image and the four metric columns |
| DemTraits.WithAbsolute | 8_trait_extract_dem.py:124-127 | the update sets the two relative columns to the given values and keeps every other column |
| DemTraits.UpdateHidesRelative | 8_trait_extract_dem.py:112-127 | after the update the relative values computed before it are gone |
| DemTraits.StatsRow | 8_trait_extract_dem.py:90-127 | fails iff there is no GSD; otherwise the row holds the pixel count, area, top-5% mean and sum |
| DemTraits.StatsRowIgnoresBaseline | 8_trait_extract_dem.py:108-127 | the reference height does not change the row |
| DemTraits.RowIgnoresBaseline | 8_trait_extract_dem.py:108-128 | the reference table does not change the row |
| DemTraits.MissingGsd | 8_trait_extract_dem.py:99-106 | with no GSD the plot fails iff it has valid pixels |
| DemTraits.PlotRow | 8_trait_extract_dem.py:71-128 | fails iff the plot has values and no GSD; otherwise the row has the date, image name and pixel count (NaN when empty), and the top-5% mean in the relative height column |
| DemTraits.ProcessImage | 8_trait_extract_dem.py:38-128 | a failed read changes nothing; otherwise the plot's row is appended under its date, or the GSD failure is reported |
| Stats.PartitionTail | 8_trait_extract_dem.py:93 | the tail of any partition at a cut holds the same values as the sorted tail |
| Stats.SortedTailMean | 8_trait_extract_dem.py:93-94 | the mean of a sorted tail lies between the overall mean and the maximum |
| Stats.SumPermutation | 8_trait_extract_dem.py:95 | the sum does not depend on the order of the values |
| SpectralTraits.BandMean | 9_trait_extract_spectral.py:22-23 | the band mean is NaN iff some band is NaN; otherwise it is the sum of the bands divided by their count, between the smallest and largest band |
| SpectralTraits.GrayPixel | 9_trait_extract_spectral.py:16-24 | grey is band 0 for one or two bands, the band mean of the first three for four bands, and the band mean of all bands for three or more other than four |
| SpectralTraits.GrayOfRgb | 9_trait_extract_spectral.py:20-23 | an RGB or RGBA pixel with read colour bands is grey (r + g + b) / 3, whatever its alpha |
| SpectralTraits.AlphaIgnored | 9_trait_extract_spectral.py:20-21 | the alpha band of an RGBA pixel does not change its grey value |
| SpectralTraits.GrayOfEqualBands | 9_trait_extract_spectral.py:22-23 | a pixel with equal colour bands has that value as its grey |
| SpectralTraits.ToGray | 9_trait_extract_spectral.py:16-24 | the grey image keeps the height and width and applies GrayPixel pixel by pixel |
| SpectralTraits.SpectralCell | 9_trait_extract_spectral.py:52-53 | a grey value counts iff its mask is positive and it is not NaN; -9999 is not excluded |
| SpectralTraits.MaskedGray | 9_trait_extract_spectral.py:45-52 | the masked grey image has the common crop shape and applies SpectralCell cell by cell |
| SpectralTraits.SelectedSource | 9_trait_extract_spectral.py:52-53 | every selected value is a counted grey cell |
| SpectralTraits.SelectedCell | 9_trait_extract_spectral.py:52-53 | every counted grey cell is among the selected values |
| SpectralTraits.SelectedValueCounts | 9_trait_extract_spectral.py:52-53 | the selected values hold each counted grey cell once, with multiplicity, so the mean and std weigh every pixel once |
| SpectralTraits.SpectralStats | 9_trait_extract_spectral.py:54-58 | mean and std are NaN iff nothing is selected; otherwise the mean lies within the values' range and std is non-negative with std^2 the population variance |
| SpectralTraits.UniformPlot | 9_trait_extract_spectral.py:57-58 | a plot of constant values has that value as its mean and 0 as its std |
| Stats.VarianceNonneg | 9_trait_extract_spectral.py:58 | the population variance is non-negative |
| Stats.VarianceOfConstant | 9_trait_extract_spectral.py:58 | constant values have zero variance |
| Stats.MeanBounds | 9_trait_extract_spectral.py:57 | the mean lies between the smallest and the largest value |
| Stats.MeanScaled | 9_trait_extract_spectral.py:23 | the mean times the number of values is their sum |
| SpectralTraits.IndexColumns | 9_trait_extract_spectral.py:63-64 | an index's two columns differ from each other, from another index's, and from the key columns |
| SpectralTraits.KeyRow | 9_trait_extract_spectral.py:62 | a new row holds just the date and the image ID of its key |
| SpectralTraits.SetIndex | 9_trait_extract_spectral.py:63-64 | setting an index's two columns keeps every other column |
| SpectralTraits.SetIndexCommutes | 9_trait_extract_spectral.py:63-64 | the order in which two indices are written to a row does not matter |
| SpectralTraits.MergeStat | 9_trait_extract_spectral.py:60-64 | merging creates the key's row when absent, sets the two columns and leaves other keys alone |
| SpectralTraits.MergeKeepsKeys | 9_trait_extract_spectral.py:60-64 | merging keeps every row keyed by its own date and image, each key once in insertion order with a new key last |
| SpectralTraits.SpectralRows.constructor | 9_trait_extract_spectral.py:70 | the keyed rows start empty |
| SpectralTraits.SpectralRows.ProcessOne | 9_trait_extract_spectral.py:26-64 | a failed read changes nothing; otherwise the plot's statistics are merged into its (date, image) row |
| SpectralTraits.IndexPrefix | 9_trait_extract_spectral.py:75-76 | a folder is an index folder iff it ends in "_by_plot" and is not "dem_by_plot"; its prefix is the text before the first '_', which the '_' follows |
| SpectralTraits.IndexPrefixOfFolder | 9_trait_extract_spectral.py:75-76 | every folder "<index>_by_plot" with a '_'-free index other than "dem" gives that index |
| Text.StrippedTokensAppend | 7_mulch_height_extract.py:124 | the tokens of consecutive pieces are those of the first pieces followed by those of the rest |
| Matrices.PresentRowCounts | 7_mulch_height_extract.py:67-68 | a row's present values hold each present cell once, with multiplicity, and their count is the row length less the NaN cells |
| Matrices.PresentCounts | 8_trait_extract_dem.py:71-72 | a matrix's present values hold each present cell once, with multiplicity, and their count is the cell count less the NaN cells |

## Left out

- File, folder and spreadsheet I/O are not modelled. This covers
  `os.listdir`, `os.walk`, `os.makedirs`, rasterio/OpenCV/skimage reads and
  writes, pandas Excel reads and writes, `argparse` and the log output.
  Reads become `Option` inputs and writes become returned maps or class
  state.
- `_list_mask_dirs` and the hidden-folder filter are not modelled: a mask
  folder's sub-folders are given as an ordered sequence.
- The batch drivers are not modelled: `generate_masks_for_batch`,
  `*_batch`, the `fnmatch`-based `_matches_any`, and the loops of
  `trait_extract_dem`/`trait_extract_nodem` beyond the per-file calls and
  the folder test.
- The library algorithms are parameters, not models. The model assumes:
  - `ckwrap.ckmeans`: only that its centres lie in the range of its input.
    Neither the number of centres nor their order is assumed; a centre list
    too short for `center_idx` skips the file, as the source's `except` does;
  - rasterio `reproject`: only that it fills the reference grid;
  - OpenCV morphology: only that it keeps a 0/255 mask 0/255 and keeps its shape;
  - the square root in `np.std`: only that it is exact on non-negative
    numbers and maps 0 to 0.
- Floating point is not modelled. The model uses exact reals: no float32
  casts and no rounding in means, sums or the 0.3/0.7/0.05 products.
- MulchHeight.RankBounds: the ranks are the exact floors of 3n/10, 7n/10 and
  5n/100. Python's float products can differ from these, for example
  `int(0.7 * 90)` is 62.
- Only the profile keys the scripts use are modelled: height, width, grid
  and nodata.
- Case mapping is ASCII only.
- Text.Strip: only ASCII whitespace (space, tab to carriage return, and the
  separators 28-31) is stripped. Python's `str.strip` also removes Unicode
  whitespace such as U+00A0 and U+2003, so pieces made only of such
  characters are kept as tokens by the model but dropped by the scripts
  (6_masks_overlapping_batch_mulch.py:160, 7_mulch_height_extract.py:124,
  8_trait_extract_dem.py:13).
- `np.partition` is not modelled as an algorithm. DemTraits.PartitionTopMean
  holds for every partition at that cut. The in-place `valid.sort()` is
  modelled by its unique result, Stats.Sort.
- Spreadsheet cells in the GSD and reference lookups are text or integers.
  Float cells, whose `str` text carries a decimal point, are not modelled.
- Script 8's `cv2.bitwise_and` (line 68) is not modelled: its result is
  overwritten on the next line.
- Script 8's "no reference height" warning is not modelled, since it is only
  a log line. The relative values that line 112-114 compute are overwritten
  (DemTraits.UpdateHidesRelative).
- Stats.VarianceOfConstant: only one direction is proved (constant ⇒ zero
  variance), not the converse.
- The column order inside a row is not modelled: rows are maps from column
  name to cell.
- Script 9's final DataFrame construction, `groupby('Date')` and per-date
  sheet writing (lines 88-95) are not modelled. Neither is the `.tif`
  name filter of its walk loop.
- Failure to decode a raster (the `try`/`except` around each file in mask
  generation and fusion) is modelled as an unreadable entry. The same
  `try` also covers the reprojection onto the reference grid
  (5_masks_overlapping_batch_veg.py:99-104,
  6_masks_overlapping_batch_mulch.py:105-107). The `Reprojector` parameter
  is total, so a reprojection that raises is represented by that file's
  entry being unreadable: the file is skipped either way. Write failures are
  not modelled.
