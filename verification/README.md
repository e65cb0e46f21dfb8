# Fundus image preparation: verified model of the core scripts

The repository prepares a dataset of retinal fundus photographs with a chain of batch scripts. This project models the three scripts that contain decision logic and proves their properties in Dafny:

- **Background removal** (`remove_background_fundus_image.py`). Each image is promoted to BGRA and turned to grey. The grey image is binarised at the fixed cutoff 20, and the contour of largest area is picked. A mask is filled from that contour. Colour is kept inside the mask and the alpha channel is set from it. The result is cropped to the contour's bounding rectangle and saved under the input name with its extension replaced by `.png`. This is module `BackgroundRemoval` in `background_removal.dfy`.
- **Quality assessment** (`assess_fundus_image_quality.py`). Brightness, contrast and sharpness go through an ordered first-failing-check-wins classification with thresholds 40/200/20/50. One record per readable file is collected in listing order. This is module `QualityAssessment` in `quality_assessment.dfy`.
- **Quality class sums** (`calculate_quality_class_sums.py`). The records of a quality report are counted by their `assessment` label. Absent or empty labels are skipped with a warning. This is module `QualityClassSums` in `quality_class_sums.dfy`.

Images are grids of byte tuples: rows, then columns, then channels in B, G, R, A order. The OpenCV calls are the fields of a `Vision` value passed in:
- grey conversion;
- `findContours`;
- `contourArea`;
- the filled rasterisation of `drawContours`;
- `boundingRect`.

Every property is therefore proved for whatever those calls return. The decoder's result and the file listings are inputs too: an `Option` for "could not read", and a sequence of entries for `os.listdir`. `posix_path.dfy` (module `PosixPath`) holds the pieces of Python's `os.path` that the scripts use to name files: `basename`, `join` and the root of `splitext`. `wrappers.dfy` holds `Option`.

The mask (zero-filled, then drawn into) and the alpha channel (zero-filled, then set by boolean-indexed assignment) are `array2` values updated in place. The two per-file loops and the counting loop are methods with loop invariants. Each of them is proved against a specification function, and the promised properties are proved as lemmas about those functions.

## Model

| member | source | states |
|---|---|---|
| `BackgroundRemoval.ToBgra` | remove_background_fundus_image.py:30-32 | a 3-channel pixel (b,g,r) becomes (b,g,r,255); an image of any other channel count is returned as read; dimensions are unchanged |
| `BackgroundRemoval.Threshold` | remove_background_fundus_image.py:37-41 | the binary image is 255 exactly where grey > 20 and 0 exactly where grey ≤ 20, so a grey value of 20 is background |
| `BackgroundRemoval.LargestContourIndex` | remove_background_fundus_image.py:50-51 | the chosen contour is in the non-empty list; its area is ≥ every contour's; every earlier contour has strictly smaller area, so ties go to the earliest |
| `BackgroundRemoval.FilledMask` | remove_background_fundus_image.py:57-60 | the mask has the image's dimensions, is 255 exactly where the filled contour paints, and holds only 0 and 255 |
| `BackgroundRemoval.DrawFilledMask` | remove_background_fundus_image.py:57-60 | the zero-filled array into which the contour is drawn has the image's dimensions and contents `FilledMask` |
| `BackgroundRemoval.AlphaOf` | remove_background_fundus_image.py:66-69 | alpha is 255 exactly where the mask is 255 and 0 exactly where it is not |
| `BackgroundRemoval.AlphaChannel` | remove_background_fundus_image.py:66-69 | the zero-filled array set to 255 where the mask is 255 has the mask's dimensions and contents `AlphaOf(mask)` |
| `BackgroundRemoval.MaskColour` | remove_background_fundus_image.py:62-64 | the masked colour grid has the image's dimensions; it is the pixel's B, G, R where the mask is non-zero and (0,0,0) where it is zero |
| `BackgroundRemoval.Merge` | remove_background_fundus_image.py:71-72 | the merged image has 4 channels; each pixel's first three are the colour grid's and its fourth is the alpha grid's |
| `BackgroundRemoval.Composite` | remove_background_fundus_image.py:62-72 | the merged image has 4 channels; colour equals the input's where the mask is non-zero and is 0 where it is zero; alpha is 255 where the mask is 255 and 0 elsewhere |
| `BackgroundRemoval.Crop` | remove_background_fundus_image.py:74-77 | with slicing's clipping, out[r][c] = in[y+r][x+c]; the output never exceeds the input; a rectangle inside the image gives exactly h×w |
| `BackgroundRemoval.RemoveBackgroundSpec` | remove_background_fundus_image.py:13-79 | NotRead exactly when the file could not be read; Raised exactly for a 2-D array or a channel count other than 3 or 4; otherwise a 4-channel image no larger than the input |
| `BackgroundRemoval.RemoveBlackBackground` | remove_background_fundus_image.py:13-79 | the step-by-step processing, with the mask and alpha arrays filled in place, yields exactly `RemoveBackgroundSpec` |
| `BackgroundRemoval.NoContoursKeepsImage` | remove_background_fundus_image.py:43-48 | for a 3- or 4-channel input with no contour the promoted image is returned unchanged: a 4-channel image comes back exactly as read, and a 3-channel one gains an opaque alpha everywhere |
| `BackgroundRemoval.CroppedCompositeAt` | remove_background_fundus_image.py:57-77 | masking with a contour's filled drawing, then cropping, keeps colour with alpha 255 where the contour paints and gives exactly (0,0,0,0) elsewhere |
| `BackgroundRemoval.ForegroundKeptBackgroundCleared` | remove_background_fundus_image.py:50-79 | with at least one contour, the output is that cut-out of the BGRA image at the largest contour's bounding rectangle, h×w when the rectangle is inside the image |
| `BackgroundRemoval.OutputName` | remove_background_fundus_image.py:89-90 | the output name ends in ".png" and is the root of `splitext` plus ".png" |
| `BackgroundRemoval.OutputNameReplacesExtension` | remove_background_fundus_image.py:90 | "stem.ext" is saved as "stem.png" when ext has no dot and stem has a non-dot character |
| `BackgroundRemoval.OutputNameAppendsWithoutExtension` | remove_background_fundus_image.py:90 | a name without a dot gets ".png" appended |
| `BackgroundRemoval.OutputNameKeepsLeadingDots` | remove_background_fundus_image.py:90 | leading dots followed by a dot-free rest are not an extension: ".name" is saved as ".name.png" and "....jpg" as "....jpg.png" |
| `BackgroundRemoval.ProcessFolder` | remove_background_fundus_image.py:85-109 | the per-file loop leaves the output folder equal to `SaveAll`: each processed file is written under its ".png" name, in listing order; failures and non-files write nothing |
| `BackgroundRemoval.SaveAllNames` | remove_background_fundus_image.py:94-104 | after the loop the folder holds the files that were there plus the names written, and no other |
| `BackgroundRemoval.WrittenNamesExactly` | remove_background_fundus_image.py:94-104 | a name is written exactly when some file of the listing is processed into an image and saved under it |
| `BackgroundRemoval.SaveAt` | remove_background_fundus_image.py:94-101 | one loop step: the entry's output name then holds its processed image if it is written; any other name keeps its presence and contents |
| `BackgroundRemoval.SaveAllKeepsUnwritten` | remove_background_fundus_image.py:86-109 | a name no listing file is written under is present after the loop exactly when it was before, with the same contents |
| `BackgroundRemoval.SaveAllHoldsLastWrite` | remove_background_fundus_image.py:86-109 | a written name holds the processed image of the last listing file written under it, so a later file with the same root (a.jpg, then a.tif) overwrites an earlier one |
| `BackgroundRemoval.NewFilesArePng` | remove_background_fundus_image.py:89-101 | every file the loop adds to the output folder has a ".png" name |
| `PosixPath.Basename` | assess_fundus_image_quality.py:73 | the image name holds no separator, is a suffix of the path, and is preceded in it by nothing or a separator |
| `PosixPath.Join` | assess_fundus_image_quality.py:87 | the joined path ends with the component; an absolute component replaces the folder; otherwise the component is appended, after a "/" unless the folder is empty or ends in one |
| `PosixPath.BasenameOfJoin` | assess_fundus_image_quality.py:86-87 | the base name of the folder joined with a plain listing name is that name |
| `PosixPath.SplitextRoot` | remove_background_fundus_image.py:90 | the root is a prefix of the name; when shorter, what follows it is a dot and then no dot and no separator; for a name without a separator, the extension is cut exactly when the name has a dot and something other than dots precedes its last dot |
| `QualityAssessment.Assess` | assess_fundus_image_quality.py:51-67 | the label is one of five; "Poor (Too Dark)" iff brightness < 40; "Poor (Too Bright)" iff > 200; "Poor (Low Contrast)" iff 40 ≤ b ≤ 200 and contrast < 20; "Poor (Blurry)" iff b in range, contrast ≥ 20 and sharpness < 50; "Good" iff all three pass |
| `QualityAssessment.ThresholdsPass` | assess_fundus_image_quality.py:54-67 | because the comparisons are strict, brightness 40 or 200, contrast 20 and sharpness 50 never trigger their Poor label |
| `QualityAssessment.FirstFailing` | assess_fundus_image_quality.py:60-67 | the verdict is that of the first rule that fails the metrics (every earlier rule passes); it is the fallback when no rule fails; in any case it is the fallback or a failing rule's verdict |
| `QualityAssessment.AssessIsFirstFailingRule` | assess_fundus_image_quality.py:60-67 | the if/elif chain equals the ordered rule list (too dark, too bright, low contrast, blurry) with "Good" when no check fails |
| `QualityAssessment.AssessImage` | assess_fundus_image_quality.py:10-78 | no record exactly when the image is unreadable; otherwise the record's name is `Basename` of the path (its last component, a separator-free suffix), and it carries the metrics and `Assess` of them |
| `QualityAssessment.AssessFolder` | assess_fundus_image_quality.py:83-100 | the loop's `all_results` equals `Assessed`: one record appended per file whose image could be read |
| `QualityAssessment.AssessableEntries` | assess_fundus_image_quality.py:89-98 | the kept entries are readable files drawn from the listing, as many as `CountAssessable` counts |
| `QualityAssessment.AssessableEntriesInOrder` | assess_fundus_image_quality.py:86-98 | every readable file of the listing is kept, at the position given by the number of readable files before it, so listing order is preserved |
| `QualityAssessment.AssessableEntriesCounts` | assess_fundus_image_quality.py:86-98 | each readable file is kept as often as it is listed, and nothing else is kept |
| `QualityAssessment.AssessedFollowsListing` | assess_fundus_image_quality.py:83-100 | `all_results` holds exactly one record per readable file, in listing order; unreadable files and non-files add nothing |
| `QualityAssessment.AssessedNames` | assess_fundus_image_quality.py:73-94 | for plain listing names, the k-th record's `image_name` is the name of the k-th readable file |
| `QualityAssessment.AssessedLabels` | assess_fundus_image_quality.py:93-94 | every collected record carries one of the five labels |
| `QualityClassSums.CountOf` | calculate_quality_class_sums.py:37-40 | the number of items with a given assessment is at most the item count, and positive exactly when some item carries it |
| `QualityClassSums.WarningsExactly` | calculate_quality_class_sums.py:37-42 | one warning per item without a non-empty assessment, in order: the item at index i gives the k-th warning, k being the number of earlier skipped items, naming its `image_name` or 'an image' |
| `QualityClassSums.CalculateQualityClassSums` | calculate_quality_class_sums.py:8-44 | None, and no warning, when the report could not be read or decoded; otherwise the counting loop's dictionary is `Tally(items)`, and it warns about each skipped item by `image_name`, or 'an image' when the name is absent |
| `QualityClassSums.TallyCounts` | calculate_quality_class_sums.py:35-40 | a label is a key exactly when it is non-empty and some item carries it, and its count equals the number of items whose assessment is that label |
| `QualityClassSums.TallyLabelled` | calculate_quality_class_sums.py:37-40 | the counts sum to the number of item indices whose assessment is present and non-empty |
| `QualityClassSums.IndicesPartition` | calculate_quality_class_sums.py:37-42 | every item index is either counted or warned about |
| `QualityClassSums.TallyTotal` | calculate_quality_class_sums.py:37-42 | the counts sum to the number of items with a non-empty assessment, and counts plus warnings equal the number of items |
| `QualityClassSums.CountOfPermutation` | calculate_quality_class_sums.py:37-40 | the count of a label does not depend on the order of the records |
| `QualityClassSums.TallyPermutation` | calculate_quality_class_sums.py:37-40 | permuting the records yields the same dictionary |
| `QualityClassSums.Summarise` | calculate_quality_class_sums.py:51-56 | "could not calculate" exactly when the result is None or an empty dictionary; otherwise the dictionary is printed |
| `QualityClassSums.CouldNotCalculateExactly` | calculate_quality_class_sums.py:35-56 | a report that was read gives "could not calculate" exactly when no record has a non-empty assessment, an empty record list included |
| `QualityClassSums.CountingLabelledItems` | calculate_quality_class_sums.py:37-42 | items that all carry a label from a given set raise no warning, their counts sum to their number, and only those labels are keys |
| `QualityClassSums.CountingAssessorReport` | calculate_quality_class_sums.py:35-42 | counting the assessor's own records raises no warning; the counts sum to the number of records and every key is one of the five labels |

## Left out

- Image and file I/O: `cv2.imread`, `cv2.imwrite`, `os.listdir`, `os.path.isfile`, `os.makedirs`, `json.load` and `json.dump`. Their outcomes are inputs: an optional decoded image, listing entries with an is-file flag, and optional parsed records. The output folder is a map from file name to image. Writing it cannot fail in the model.
- OpenCV algorithms: BGRA-to-grey weighting and rounding, `findContours`, `contourArea`, the filled rasterisation of `drawContours`, and `boundingRect`. They are the given functions of `Vision`. Nothing ties the rasterisation or the rectangle to the contour's points, so the claim that the rectangle encloses the painted region is not modelled. Rectangle coordinates are taken as non-negative.
- Floating point: the mean, standard deviation and Laplacian variance, and `round(…, 2)` on the recorded values. The metrics are given as exact reals and recorded unrounded. NaN areas or metrics are not modelled.
- JSON values other than strings in `assessment` or `image_name` are not modelled: numbers, booleans, lists, and an explicit `null` name. A top-level JSON value that is not a list is not modelled either. The records are taken as objects whose two fields are absent or strings.
- Dictionary insertion order: the counts are a Dafny `map`, so the order in which the script prints the classes is not modelled.
- Console output: the progress and error lines are not modelled, and neither is the JSON output path. The aggregator's warnings are kept as the list of names they mention.
- An exception raised inside the quality assessor (for example an image the grey conversion rejects) is not modelled: the script does not catch it.
- Dead code: the unreachable 4-dimensional branch at assess_fundus_image_quality.py:29-30. Also the unused `transparent_background` array at remove_background_fundus_image.py:55.
- move_file_based_on_class.py (CSV reading, directory creation, `shutil.move`) and count_images_based_on_class.py (listing and printing) are filesystem plumbing with no decision logic. They are not part of this model.
- Image depth: pixels are 8-bit values. The 16-bit and floating-point images that `IMREAD_UNCHANGED` can also return are not modelled.
- An empty crop is written like any other image. The writer's refusal of an empty image, and the exception the loop would then catch, are not modelled.
