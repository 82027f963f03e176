# photodate_wm in Dafny

A Dafny model of the core of `photodate_wm`. The tool reads a photo's capture date from EXIF, falling back to the file's modification time. It draws that date into the photo as a text watermark and writes the result. It has two front ends: a command line that enumerates candidate files and reports dates in a dry run, and a desktop application that queues files, resizes them, watermarks them and exports them.

The model has one module per source file of the core and shared modules for the Python library behaviour it relies on:

- `ExifUtils` (`exif_utils.py`):
  - the strict `"YYYY:MM:DD HH:MM:SS"` parser, with calendar validation;
  - the priority search over DateTimeOriginal, DateTimeDigitized and the 0th DateTime;
  - the `exif_only` / `fallback_mtime` policy of `extract_photo_date_string`.
- `Render` (`render.py`):
  - colour resolution with the opacity rule;
  - the nine-code anchor solver;
  - the text watermark's draw plan: the passes in order, stroke and shadow, and the result mode;
  - the image watermark's size, alpha scaling and placement.
- `Cli` (`cli.py`):
  - extension normalisation and the extension filter;
  - candidate enumeration over an abstract `os.walk`, including the non-recursive `break`;
  - `--include-ext` parsing and its default;
  - the dry-run report and `main`'s exit code.
- `GuiApp` (`gui_app.py`):
  - the `App` class, with its queue of items and its settings;
  - `_add_paths`, `_resize_image` and the refusal checks of `run_export`;
  - output naming;
  - the success/skipped/failed tally.
- `Strings`, `Paths`, `Utf8`, `Wrappers`: Python's `str.strip`, ASCII `lower`, `split` and `join`; `posixpath` `basename`/`dirname`/`splitext`/`join`; and `bytes.decode("utf-8", errors="ignore")`. These support the modules above.

The file system, Pillow and the clock are inputs:

| input | what it stands for |
|---|---|
| `PathKind` | what `isfile`/`isdir` report |
| `WalkEntry` list | the triples `os.walk` yields |
| `abspath` function | `os.path.abspath` |
| `ExifLoad` | what `piexif.load` returned, or its failure |
| modification time | the local date of the file's mtime, or its failure |
| `Option<Rgba>` | what `ImageColor.getcolor` made of a colour string |
| measured text box | the size `textbbox` reports |
| `ImageInfo` | the size and mode of an opened image |
| `saves` flag | whether writing the output succeeds |

Python floats are modelled as exact reals:

- `round` is round-half-to-even;
- `int()` of a non-negative value is the floor;
- `a * (b / c)` is characterised by its integer floor quotient.

## Model

| member | source | states |
|---|---|---|
| Strings.Strip | src/photodate_wm/exif_utils.py:13 | the result is the input with its leading and trailing Python whitespace removed; the inner part is kept unchanged and neither end of a non-empty result is whitespace |
| Strings.StripOfStripped | src/photodate_wm/cli.py:67 | stripping text without surrounding whitespace leaves it unchanged |
| Strings.Lower | src/photodate_wm/render.py:35 | same length, no upper-case ASCII letter remains, and each character is lowered on its own |
| Strings.LowerIdempotent | src/photodate_wm/render.py:35 | lowering twice is lowering once |
| Strings.LowerAppend | src/photodate_wm/cli.py:34 | lowering distributes over concatenation |
| Strings.Split | src/photodate_wm/cli.py:67 | `split` yields at least one piece and no piece contains the separator |
| Strings.JoinSplit | src/photodate_wm/cli.py:67 | joining the pieces of a split with the separator gives back the original text |
| Strings.SplitJoin | src/photodate_wm/cli.py:54 | splitting a join of separator-free pieces gives back the pieces |
| Strings.NatToString | src/photodate_wm/cli.py:76 | the decimal rendering of a count is a non-empty string of digits with no leading zero, except "0" itself |
| Strings.NatToStringValue | src/photodate_wm/cli.py:76 | the digits of the rendering denote the count |
| Paths.Basename | src/photodate_wm/gui_app.py:198 | the base name is the slash-free tail of the path and is preceded by a slash when shorter than the path |
| Paths.Dirname | src/photodate_wm/gui_app.py:236 | the directory name is the part of the path before the base name with the separating slashes removed: a prefix, empty iff the path has no slash, followed only by slashes up to the base name, without a trailing slash unless it is all slashes, and then the whole part before the base name |
| Paths.DirnameOfJoin | src/photodate_wm/gui_app.py:236 | the directory of `join(d, name)` is `d` for a directory without a trailing slash and a plain file name |
| Paths.SplitExt | src/photodate_wm/cli.py:24 | root plus extension is the path; the extension is empty, or one dot followed by text without a dot or slash, and the base name has a non-dot character before it |
| Paths.SplitExtFinds | src/photodate_wm/cli.py:24 | a path has a non-empty extension iff its base name holds a dot with a non-dot character before it |
| Paths.ExtOfName | src/photodate_wm/cli.py:34 | a name `stem.e` splits into `stem` and `.e` when the stem has a non-dot character |
| Paths.Join | src/photodate_wm/cli.py:36 | the result ends with the second part; an absolute second part replaces the first, otherwise the first part is a prefix |
| Paths.BasenameOfJoin | src/photodate_wm/gui_app.py:270 | the base name of `join(dir, name)` is `name` for a non-empty slash-free name |
| Utf8.Decode | src/photodate_wm/exif_utils.py:34 | decoding with errors ignored never yields more characters than bytes |
| Utf8.EncodeCharWellFormed | src/photodate_wm/exif_utils.py:34 | the UTF-8 bytes of one character form one well-formed sequence that decodes to that character |
| Utf8.DecodeEncode | src/photodate_wm/exif_utils.py:34 | text stored as UTF-8 bytes decodes back to itself |
| Utf8.DecodeAscii | src/photodate_wm/exif_utils.py:34 | ASCII bytes decode one for one |
| ExifUtils.DaysInMonth | src/photodate_wm/exif_utils.py:13 | every month has 28 to 31 days |
| ExifUtils.ExifText | src/photodate_wm/exif_utils.py:11 | a valid date-time written in the EXIF layout has the EXIF shape |
| ExifUtils.ParseExifDateTime | src/photodate_wm/exif_utils.py:10-15 | a parsed value is a valid date-time, and the stripped input has the exact EXIF shape |
| ExifUtils.ParsedIsExifText | src/photodate_wm/exif_utils.py:10-15 | a parsed value written back in EXIF layout is the stripped input, so nothing lenient is accepted |
| ExifUtils.ParseExifText | src/photodate_wm/exif_utils.py:10-15 | every valid date-time written in EXIF layout parses back to itself |
| ExifUtils.ExifTextOfFields | src/photodate_wm/exif_utils.py:13 | EXIF-shaped text whose fields are valid is the EXIF layout of those fields |
| ExifUtils.FieldsOfExifText | src/photodate_wm/exif_utils.py:13 | reading the fields of the EXIF layout of a date-time gives that date-time |
| ExifUtils.ParseValidFields | src/photodate_wm/exif_utils.py:12-13 | EXIF-shaped text with valid fields parses to those fields |
| ExifUtils.ParseInvalidFields | src/photodate_wm/exif_utils.py:12-15 | EXIF-shaped text with an invalid field (month, day for the month and year, hour, minute, second) is refused |
| ExifUtils.MonthThirteenRefused | src/photodate_wm/exif_utils.py:12-15 | month 13 is refused |
| ExifUtils.FebruaryThirtiethRefused | src/photodate_wm/exif_utils.py:12-15 | February 30 is refused |
| ExifUtils.CommonYearLeapDayRefused | src/photodate_wm/exif_utils.py:12-15 | February 29 of a common year is refused |
| ExifUtils.HourTwentyFourRefused | src/photodate_wm/exif_utils.py:12-15 | hour 24 is refused |
| ExifUtils.LeapSecondRefused | src/photodate_wm/exif_utils.py:12-15 | second 60 is refused |
| ExifUtils.MalformedRefused | src/photodate_wm/exif_utils.py:12-15 | dashes instead of colons, and the empty text, are refused |
| ExifUtils.ParsePaddedExifText | src/photodate_wm/exif_utils.py:10-15 | text with surrounding whitespace around the EXIF text of a valid date-time parses to that date-time |
| ExifUtils.FormatDate | src/photodate_wm/exif_utils.py:53 | `strftime("%Y-%m-%d")` gives four digits, dash, two digits, dash, two digits |
| ExifUtils.ReformatKeepsDigits | src/photodate_wm/exif_utils.py:51-53 | the ISO date of a parsed EXIF text carries the text's year, month and day digits unchanged |
| ExifUtils.FirstTextual | src/photodate_wm/exif_utils.py:30-39 | the result is None iff no field in the order holds bytes or text; otherwise it is the text of the first field that does |
| ExifUtils.ReadExifDateTime | src/photodate_wm/exif_utils.py:18-22 | a failed EXIF load gives no raw text |
| ExifUtils.OriginalWins | src/photodate_wm/exif_utils.py:25-34 | a DateTimeOriginal holding bytes or text decides the raw text alone |
| ExifUtils.DigitizedBeforeDateTime | src/photodate_wm/exif_utils.py:25-38 | without a textual DateTimeOriginal, a textual DateTimeDigitized is used before the 0th DateTime |
| ExifUtils.DateTimeLast | src/photodate_wm/exif_utils.py:28-39 | without the first two, the 0th DateTime is used if textual, else there is no raw text |
| ExifUtils.ExifDate | src/photodate_wm/exif_utils.py:49-52 | an EXIF date, when found, is a valid date-time |
| ExifUtils.ExtractPhotoDateString | src/photodate_wm/exif_utils.py:42-68 | a result has the ISO date shape; a valid EXIF date gives its ISO date; otherwise exif_only gives None, or fallback_mtime gives the mtime's ISO date (None when reading the mtime failed), and otherwise None |
| ExifUtils.ExifOnlyIgnoresFallback | src/photodate_wm/exif_utils.py:55-57 | with exif_only, neither the fallback flag nor the mtime changes the result |
| ExifUtils.FailedLoadIsNoExif | src/photodate_wm/exif_utils.py:19-22 | a failed EXIF load behaves exactly like EXIF data with no date fields |
| ExifUtils.BadOriginalHidesGoodDateTime | src/photodate_wm/exif_utils.py:30-38 | an unparseable DateTimeOriginal stops the search even when the 0th DateTime holds a good date |
| ExifUtils.ReadEncodedOriginal | src/photodate_wm/exif_utils.py:32-34 | a DateTimeOriginal stored as UTF-8 bytes reads back as its text |
| ExifUtils.ReadWithoutDates | src/photodate_wm/exif_utils.py:39 | EXIF data with none of the three fields gives no raw text |
| ExifUtils.TestTextFields | tests/test_exif_utils.py:21 | the test's EXIF text has the EXIF shape and the expected fields |
| ExifUtils.TestTextParses | tests/test_exif_utils.py:21 | the test's EXIF text parses to 2023-08-15 12:34:56 |
| ExifUtils.TestDateFormats | tests/test_exif_utils.py:22 | that date formats as "2023-08-15" |
| ExifUtils.ExifDateScenario | tests/test_exif_utils.py:19-22 | a DateTimeOriginal of UTF-8 bytes gives "2023-08-15" with exif_only and no fallback |
| ExifUtils.MtimeFallbackScenario | tests/test_exif_utils.py:25-32 | without EXIF dates and with fallback, the mtime 2022-01-02 03:04:05 gives "2022-01-02" |
| ExifUtils.ExifOnlyScenario | tests/test_exif_utils.py:35-38 | without EXIF dates and with exif_only, there is no date even with fallback |
| Render.RoundHalfEven | src/photodate_wm/render.py:29 | `round` lands within one half of its argument, and a tie goes to the even integer |
| Render.RoundHalfEvenUnique | src/photodate_wm/render.py:29 | those two properties determine the rounded value |
| Render.OpacityAlpha | src/photodate_wm/render.py:29 | the alpha is within one half of opacity x 255 for opacities in [0, 1]; it is 0 at or below 0 and 255 at or above 1 |
| Render.ParseRgba | src/photodate_wm/render.py:24-31 | an unparseable colour is the colour error; r, g and b are kept; an alpha of 255 is replaced by the opacity alpha and any other alpha is kept |
| Render.ExplicitAlphaWins | src/photodate_wm/render.py:27-31 | a colour with an explicit partial alpha resolves to itself whatever the opacity |
| Render.ColourExamples | src/photodate_wm/render.py:24-31 | opaque red at opacity 0.5 gets alpha 128; red with alpha 128 keeps it at opacity 1.0 |
| Render.CodeOf | src/photodate_wm/render.py:36 | the code of an anchor is one of the nine codes |
| Render.ParsePosition | src/photodate_wm/render.py:35-37 | a position is accepted iff its lower-case form is one of the nine codes, and then the anchor's code is that form; otherwise the error names the position as given |
| Render.ParseCodeOf | src/photodate_wm/render.py:35-36 | every anchor's code parses back to that anchor |
| Render.PositionCaseInsensitive | src/photodate_wm/render.py:35 | a position and its lower-case form are accepted alike and give the same anchor |
| Render.UpperCaseCodes | src/photodate_wm/render.py:35-37 | "BR" and "Tl" are accepted; "top" and "" are refused |
| Render.AxisOffset | src/photodate_wm/render.py:39-53 | the offset is never negative; the near edge gives the margin clamped at 0; the middle gives the floored half gap clamped at 0, with the two gaps differing by at most one pixel; the far edge leaves exactly the margin when the payload fits, else 0 |
| Render.ComputeAnchorXY | src/photodate_wm/render.py:34-53 | accepted iff the position is one of the nine codes, with the invalid-position error otherwise; both coordinates are the axis offsets of the anchor's column and row, and never negative |
| Render.AnchorContained | src/photodate_wm/render.py:34-53 | a box that fits within its margins is placed wholly inside the image |
| Render.BottomRightExample | src/photodate_wm/render.py:34-53 | a 100x20 box on 200x100 with margins 10 goes to (90, 70) at "br" and to (50, 40) at "cc"; a box wider than the image is clamped to x = 0 |
| Render.ResultImage | src/photodate_wm/render.py:96-100 | the returned image has the input's size, and is RGBA iff the input was RGBA, otherwise RGB |
| Render.ResultImageIdempotent | src/photodate_wm/render.py:96-100 | watermarking an already watermarked image keeps its mode |
| Render.MainPass | src/photodate_wm/render.py:90-94 | the main pass is at the anchor in the fill colour; a positive stroke width draws a stroke in the stroke colour resolved at opacity 1.0, and fails iff that colour is unparseable; otherwise there is no stroke |
| Render.DrawTextWatermark | src/photodate_wm/render.py:56-100 | drawing succeeds iff the position is valid, the fill colour parses, the shadow colour parses when there is a shadow, and the stroke colour parses when there is a stroke; a bad position is reported first, and with a valid position every error is the colour error; the result keeps the size and the mode rule; there are two passes iff the shadow offset is not (0, 0) |
| Render.MainPassLast | src/photodate_wm/render.py:82-94 | the last pass is the main text at the anchor of the measured box, in the fill resolved at the opacity, with the stroke rule |
| Render.ShadowPassFirst | src/photodate_wm/render.py:86-88 | with a non-zero offset the first pass is the shadow at the anchor moved by the offset, filled and stroked with the shadow colour at the shadow opacity, with the same stroke width |
| Render.ShadowDoesNotMoveText | src/photodate_wm/render.py:86-94 | the shadow settings do not change the main pass |
| Render.ClampPercent | src/photodate_wm/render.py:118 | the scale percent is clamped to [1, 1000] and kept when already inside |
| Render.FloorOfRatio | src/photodate_wm/render.py:119 | `int(a * (b / c))` on exact reals, for non-negative operands, equals the integer quotient of a*b by c |
| Render.RatioFloor | src/photodate_wm/render.py:119 | the value of `int(a * (b / c))` is the integer quotient of a*b by c: at least 1 when a*b >= c and 0 below |
| Render.ScaledWidth | src/photodate_wm/render.py:119 | the watermark's width is the floor of image width x percent / 100, and at least 1 |
| Render.ScaledHeight | src/photodate_wm/render.py:121-122 | the height keeps the watermark's aspect ratio: it is the floor of width x wmH / wmW, and at least 1 |
| Render.WatermarkSize | src/photodate_wm/render.py:118-123 | the size fails with division by zero iff the watermark's width is 0; otherwise it is the width after the clamped percent and the height after the ratio, both at least 1 |
| Render.ScaleExample | src/photodate_wm/render.py:118-123 | 20 percent of a 1000-pixel image with a 400x200 watermark gives 200x100 |
| Render.ClampUnit | src/photodate_wm/render.py:129 | the clamped opacity lies in [0, 1], equals the opacity inside that range and is 0 at or below 0 |
| Render.FloorProductBounds | src/photodate_wm/render.py:129 | `int(p * o)` for a factor in [0, 1] stays between 0 and p |
| Render.ScaledAlpha | src/photodate_wm/render.py:126-129 | a pixel's alpha never grows; it is unchanged at opacity >= 1, 0 at opacity <= 0, and the floor of alpha x opacity in between |
| Render.ScaledAlphaMonotone | src/photodate_wm/render.py:129 | scaling keeps the order of alphas, so a gradient stays a gradient |
| Render.ScaledAlphas | src/photodate_wm/render.py:128-129 | the new alpha channel has the same length and every pixel is scaled on its own |
| Render.ApplyOpacity | src/photodate_wm/render.py:126-129 | the alpha array is rewritten in place to its scaled values, and is left as it was at opacity >= 1 |
| Render.DrawImageWatermark | src/photodate_wm/render.py:103-137 | a zero-width watermark fails with division by zero before the position is checked; otherwise it succeeds iff the position is valid; the layer has the computed watermark size, sits at the anchor of that size, and the result follows the mode rule |
| Render.ImageWatermarkContained | src/photodate_wm/render.py:131-132 | a watermark that fits within its margins is pasted wholly inside the image |
| Cli.NormalizeExt | src/photodate_wm/cli.py:21 | a normalised extension starts with one added or kept dot and is the lower-case form of the rest |
| Cli.NormalizeNormal | src/photodate_wm/cli.py:21 | a dotted lower-case extension is left unchanged |
| Cli.NormalizeExamples | src/photodate_wm/cli.py:21 | "JPG", ".jpg" and ".JPG" all normalise to ".jpg" |
| Cli.ValidExt | src/photodate_wm/cli.py:21 | every element of the filter set is normalised, and the set is empty iff the list is |
| Cli.ValidExtMembers | src/photodate_wm/cli.py:21 | an extension is in the filter set iff it normalises some listed extension |
| Cli.EmptyFilterAcceptsAll | src/photodate_wm/cli.py:25 | an empty filter accepts every file |
| Cli.AcceptsIff | src/photodate_wm/cli.py:34-35 | with a non-empty list, a file is accepted iff its lower-cased extension normalises some listed extension |
| Cli.StrippedPieces | src/photodate_wm/cli.py:67 | the kept pieces are non-empty and stripped, and there are no more of them than pieces |
| Cli.StrippedPiecesMembers | src/photodate_wm/cli.py:67 | a text is kept iff it is the non-empty stripped form of some piece |
| Cli.StripKeepsOut | src/photodate_wm/cli.py:67 | stripping adds no character |
| Cli.ParseIncludeExt | src/photodate_wm/cli.py:67 | every parsed extension is non-empty, stripped and comma-free |
| Cli.StrippedPiecesOfClean | src/photodate_wm/cli.py:67 | clean pieces are kept as they are |
| Cli.ParseJoin | src/photodate_wm/cli.py:67 | parsing the comma join of clean extensions gives them back |
| Cli.SortedSupportedIsSorted | src/photodate_wm/cli.py:54 | the default list is strictly increasing and holds exactly the supported extensions |
| Cli.DefaultIncludeExtText | src/photodate_wm/cli.py:54 | the default `--include-ext` is ".heic,.heif,.jpeg,.jpg,.png,.tif,.tiff" |
| Cli.SupportedAreNormal | src/photodate_wm/cli.py:9-17 | every supported extension is dotted and lower-case |
| Cli.ValidExtOfNormal | src/photodate_wm/cli.py:21 | the filter set of normalised extensions is the set of them |
| Cli.SortedSupportedElements | src/photodate_wm/cli.py:54 | the sorted default list holds the supported set |
| Cli.DefaultRoundTrip | src/photodate_wm/cli.py:54 | parsing and normalising the default `--include-ext` gives exactly the supported extensions |
| Cli.Listed | src/photodate_wm/cli.py:33-36 | a directory yields at most one result per file name |
| Cli.Visited | src/photodate_wm/cli.py:37-38 | a recursive scan visits every walk entry; a non-recursive one visits only the first |
| Cli.CandidateFiles | src/photodate_wm/cli.py:20-39 | the enumeration fails iff the root is neither a file nor a directory, with the not-found message |
| Cli.ScanEntry | src/photodate_wm/cli.py:33-36 | the inner loop appends exactly the files of one directory that pass the filter, in order, as absolute paths |
| Cli.EnumerateCandidateFiles | src/photodate_wm/cli.py:20-39 | the imperative enumeration, with its early return and `break`, computes the specified result |
| Cli.FileRootAtMostOne | src/photodate_wm/cli.py:23-27 | a file root gives at most one result, which is its absolute path exactly when accepted |
| Cli.NonRecursiveFirstEntryOnly | src/photodate_wm/cli.py:32-38 | without recursion, entries after the first do not matter |
| Cli.ListedMembers | src/photodate_wm/cli.py:33-36 | a path is among a directory's results iff it is the absolute join of some file name that passes the filter |
| Cli.DirFilesMembers | src/photodate_wm/cli.py:33-36 | a path is a directory's result iff it is the absolute join of some accepted file name |
| Cli.WalkFilesAppend | src/photodate_wm/cli.py:32-38 | the files of a walk are those of its entries, in walk order |
| Cli.FilteredExt | src/photodate_wm/cli.py:34 | the filtered extension of `stem.e` is ".e" lower-cased |
| Cli.AcceptsJpg | tests/test_cli.py:26 | the default filter accepts "a.jpg" |
| Cli.AcceptsUpperPng | tests/test_cli.py:27 | the default filter accepts "b.PNG" |
| Cli.RefusesTxt | tests/test_cli.py:28 | the default filter refuses "c.txt" |
| Cli.ScenarioDirFiles | tests/test_cli.py:22-37 | the test's directory yields the .jpg and .PNG files and not the .txt |
| Cli.DirFilesOfThree | src/photodate_wm/cli.py:33-36 | of three files where the first two pass the filter and the third does not, the first two are listed in order |
| Cli.DefaultFilterScenario | tests/test_cli.py:22-37 | the same holds for the default command line over that directory |
| Cli.DefaultArgs | src/photodate_wm/cli.py:47-58 | the defaults: no dry run, not verbose, not recursive, not exif-only, fallback on, and the filter of all supported extensions |
| Cli.DryRunStatus | src/photodate_wm/cli.py:79 | a non-empty date is its own status; otherwise "SKIP: no date" under exif-only and "no date" without |
| Cli.StatusOfExtracted | src/photodate_wm/cli.py:78-79 | an extracted date is shown in ISO form; "SKIP: no date" appears iff exif-only is set and there is no usable EXIF date |
| Cli.StatusLines | src/photodate_wm/cli.py:77-80 | one status line per file, in order, each naming its file with that file's status |
| Cli.Report | src/photodate_wm/cli.py:75-80 | the printing loop produces the header with the count, then the status lines |
| Cli.DryRun | src/photodate_wm/cli.py:75-80 | a dry run prints a header with the count, then each file with its dry-run status, in order |
| Cli.Run | src/photodate_wm/cli.py:62-88 | the exit code is 2 iff the path is missing, and then the only output is the message on stderr; otherwise the code is 0, with the dry-run report or the verbose count on stdout |
| GuiApp.ResizeValue | src/photodate_wm/gui_app.py:211 | the resize value is at least 1, the setting itself when positive, and 1 otherwise |
| GuiApp.Resized | src/photodate_wm/gui_app.py:209-227 | the mode of the image is kept; "none" and unknown modes leave the image alone; width mode fails iff the width is 0 and height mode iff the height is 0; percent mode never fails |
| GuiApp.ResizedNotEmpty | src/photodate_wm/gui_app.py:215-224 | a resized image is never empty |
| GuiApp.ResizedToWidth | src/photodate_wm/gui_app.py:215-217 | width mode sets the width to the value and scales the height by the floor ratio, at least 1 |
| GuiApp.ResizedToHeight | src/photodate_wm/gui_app.py:218-220 | height mode sets the height to the value and scales the width by the floor ratio, at least 1 |
| GuiApp.ResizedByPercent | src/photodate_wm/gui_app.py:221-224 | percent mode scales both sides by value/100, floored and at least 1 |
| GuiApp.HundredPercentKeepsSize | src/photodate_wm/gui_app.py:221-224 | 100 percent keeps a non-empty image's size |
| GuiApp.NonPositiveValueIsOne | src/photodate_wm/gui_app.py:211 | a zero or negative value resizes as 1 does |
| GuiApp.FormatExt | src/photodate_wm/gui_app.py:269 | JPEG output gets ".jpg" and every other format ".png" |
| GuiApp.StemNoSlash | src/photodate_wm/gui_app.py:267 | the stem of a base name has no slash |
| GuiApp.OutputNameNoSlash | src/photodate_wm/gui_app.py:267-269 | with a slash-free prefix and suffix, the output name is a non-empty plain file name |
| GuiApp.SplitWithFormat | src/photodate_wm/gui_app.py:269 | a stem with a non-dot character plus the format's extension splits back into the two |
| GuiApp.OutputNameSplits | src/photodate_wm/gui_app.py:267-269 | the output name's extension is the format's extension, and its root is prefix + stem + suffix |
| GuiApp.ExampleBasename | src/photodate_wm/gui_app.py:267 | the base name of "/photos/IMG_1.png" is "IMG_1.png" |
| GuiApp.ExampleStem | src/photodate_wm/gui_app.py:267 | its stem is "IMG_1" |
| GuiApp.DefaultOutputNameExample | src/photodate_wm/gui_app.py:267-269 | the default prefix, suffix and format name "/photos/IMG_1.png" "IMG_1_watermarked.jpg" |
| GuiApp.OutputPath | src/photodate_wm/gui_app.py:270 | with a slash-free prefix and suffix, the output file's base name is the output name |
| GuiApp.Kept | src/photodate_wm/gui_app.py:188-193 | no more paths are kept than given |
| GuiApp.KeptMembers | src/photodate_wm/gui_app.py:188-193 | a path is kept iff it is given and passes the test |
| GuiApp.KeptStep | src/photodate_wm/gui_app.py:188-193 | one more path adds itself to the kept list iff it passes, at the end |
| GuiApp.AddedPathsMembers | src/photodate_wm/gui_app.py:188-193 | a path is kept iff it is given and is an existing file with a supported extension |
| GuiApp.ItemsOf | src/photodate_wm/gui_app.py:198 | one queued item per kept path |
| GuiApp.ItemsOfSnoc | src/photodate_wm/gui_app.py:198-199 | one more kept path appends one item with that path and its base name at the end of the queue |
| GuiApp.ExportItem | src/photodate_wm/gui_app.py:248-279 | a file that does not open fails; one without a date is skipped; a saved item had a date and saved, is written at the output path, has the resized size, and is RGB when the format is JPEG |
| GuiApp.ExportItemOutcome | src/photodate_wm/gui_app.py:248-279 | an item is saved iff it opens, has a non-empty date, resizes, has a valid position and colour, and writes; it is skipped iff it opens without a date; every other item fails |
| GuiApp.BadPositionFails | src/photodate_wm/gui_app.py:256-266 | an item with a date whose position setting is invalid counts as failed, not skipped |
| GuiApp.TallyOf | src/photodate_wm/gui_app.py:246-279 | each item bumps exactly one counter, so the three add up to the number of items; the saved list has one entry per success |
| GuiApp.OutcomesBy | src/photodate_wm/gui_app.py:247 | there is one outcome per queued item |
| GuiApp.RefusalOf | src/photodate_wm/gui_app.py:230-238 | the export is refused for a missing output directory iff the stripped setting is empty; it is refused as the source folder iff some queued file's absolute directory is the output directory's absolute path |
| GuiApp.AnyInDir | src/photodate_wm/gui_app.py:235-238 | the scan reports a clash iff some queued file's absolute directory is the target |
| GuiApp.Export | src/photodate_wm/gui_app.py:229-279 | an export is refused iff a refusal applies; otherwise its counts add up to the number of queued items |
| GuiApp.SavedFiles | src/photodate_wm/gui_app.py:271-276 | every file in the saved list is the outcome of some item |
| GuiApp.App.constructor | src/photodate_wm/gui_app.py:42-60 | a new application has an empty queue and the initial settings |
| GuiApp.App.AddPaths | src/photodate_wm/gui_app.py:186-202 | the queue grows by exactly the kept paths, in order, with their base names; the settings are untouched; the count is the number kept, and the notice appears iff none was kept |
| GuiApp.App.AppendKept | src/photodate_wm/gui_app.py:188-200 | the queue grows by exactly the items of the paths that pass, in order, and the count is their number |
| GuiApp.App.ResizeImage | src/photodate_wm/gui_app.py:209-227 | with the current settings: the mode of the image is kept; the sizing modes never give an empty side; width and height mode fail iff that side is 0 and otherwise set it to the resize value; any other mode leaves the image alone |
| GuiApp.App.CheckRefusal | src/photodate_wm/gui_app.py:230-238 | the checks, with their early returns, find the specified refusal |
| GuiApp.App.RunExport | src/photodate_wm/gui_app.py:229-279 | the export computes the specified result: the refusal, or the tally of the item outcomes |
| GuiApp.App.TallyItems | src/photodate_wm/gui_app.py:246-279 | the counting loop gives the tally of the outcomes of the items, in order |

## Left out

- Pillow is not modelled: fonts and `_load_font`, `textbbox` measurement, LANCZOS resampling, `alpha_composite`, pixel data, `convert`, and the colour grammar of `ImageColor.getcolor`. Pillow's results are inputs: the measured box, the parsed colour, whether an image opens or saves. The model keeps the draw plan, the sizes, the positions and the modes.
- Floating point: `opacity`, `scale_percent / 100.0`, `wm.height / wm.width` and `new_w / w` are exact reals. IEEE rounding can differ at the edges; for example, `int(100 * (29 / 100.0))` is 28 in floats but 29 on reals.
- Render.RatioFloor: states the exact rational floor, not the floating-point result.
- The Tk user interface is not modelled: widgets, dialogs, drag and drop, thumbnails (`_make_thumb`), the list box, and the text of the message boxes. `AddPaths` returns whether the "nothing added" notice is shown; `RunExport` returns the tally the summary message shows.
- Thumbnails are not modelled. `_make_thumb` can fail, and then the item is still added (without a thumbnail), so the queue is unaffected.
- The per-item error line `run_export` writes to stderr is not modelled.
- `os.makedirs(out_dir, exist_ok=True)` raising is not modelled. It happens outside the per-item `try`.
- An `IntVar` read on a blank entry (which raises `TclError`) is not modelled. Settings hold integers.
- The JPEG quality, font size and font path settings affect only the measured text box and the bytes written, which are inputs.
- The GUI's text is drawn with the default stroke (width 0) and no shadow, as `run_export` passes no style arguments, so ExportItem uses those defaults.
- The command line's argument parsing (`argparse`, `-h`, option spelling), `run_gui.py` and `__main__.py` are left out. `Run` starts from the parsed `Args`.
- The file system is not modelled; `os.walk`, `isfile`/`isdir`, `abspath` and `getmtime` enter as inputs. In particular, the walk's order and the sub-directories it descends into are whatever the `WalkEntry` list says.
- `datetime.fromtimestamp` and the local time zone are not modelled. The local date-time of the mtime is an input.
- `datetime.strptime`'s lenient forms are not modelled: single-digit fields, Unicode digits, and whitespace inside the text. The model accepts exactly the two-digit layout, after stripping.
- `strftime("%Y")` for years below 1000 is platform dependent. The model writes four zero-padded digits.
- Strings.Lower: folds ASCII letters only, while Python's `str.lower` folds all of Unicode. The default extension set, the GUI's set and the nine position codes are ASCII, so they filter alike; a non-ASCII `--include-ext` can filter differently (`--include-ext äbc` accepts `x.ÄBC` in Python, and the model refuses it).
- Paths are POSIX paths, and Windows separators are not modelled.
- `piexif.load`'s parsing of the file is not modelled. `ExifLoad` is its result, or None when it raised.
- The `except Exception: continue` around the UTF-8 decode (exif_utils.py:35-36) cannot be reached, because decoding with `errors="ignore"` never raises. The model has no such branch.
- `tests/test_cli_process_and_preserve_exif.py` passes `--position` and `--font-size`, which `cli.py` does not define, and expects an output directory to be written, so it describes behaviour outside this core.
- The code has no rotation, manual coordinates or tight-fit text layer, and none is modelled.
- Facts of the code that the model keeps:
  - centring uses floor division `//`, which rounds toward minus infinity for payloads wider than the image;
  - a non-positive resize value acts as 1;
  - the image watermark's alpha is truncated with `int`;
  - the text is drawn on a full-size overlay.
