# Image timestamp watermark — a Dafny model

The program lets a user pick a photo, reads the photo's capture time from its
embedded metadata (or falls back to the current time), lets the user edit
that timestamp, and burns it into the lower-left corner of a copy of the
image on a semi-transparent backing rectangle. This project models the
deterministic logic of that program (`main.py`) and proves its properties:

- **Capture-time extraction** (`ExifExtract`, with `Text` and `ExifDate`):
  the lower-cased text after the last `.` of the path selects the JPEG tag
  table (`jpg`, `jpeg`) or the HEIF embedded EXIF blob (`heic`, `heif`);
  any other extension, a missing tag, a missing or unparsable blob and a
  value that cannot be converted all give `None`. The EXIF 2.3
  DateTimeOriginal value (tag 0x9003, `YYYY:MM:DD HH:MM:SS`) is converted
  by replacing its first two colons with hyphens (`ExifDate.NormaliseDate`,
  Python's `str.replace(':', '-', 2)`). The scan over the tag table, which
  returns at the first DateTimeOriginal entry, is a method with a loop.
- **Font-size search** (`FontFit`): the binary search over
  `[min_font_size, max_font_size]` is a method with loop invariants, proved
  to terminate, to stay in range, to return either the lower bound or a size
  that was measured to fit, and to return what the probe sequence
  `SearchResult` gives. For every measurement, that size never decreases
  when the image gets wider or the text gets narrower. When the measured
  width grows with the size, the search returns exactly the reference
  answer `LargestFitting` (the largest fitting size, scanning down).
- **Overlay geometry** (`Overlay`): the text origin `(10, height - text_height - 18)`
  and the backing rectangle padded by 5 px.
- **Output path policy** (`SavePath`): `os.path.splitext` (the generic
  algorithm, for POSIX and Windows separators), the JPEG-family rule and the
  `_watermarked` marker.
- **Render-button guard** (`WatermarkRequest`): missing file first, then
  empty timestamp, otherwise the save plan; and the timestamp field's initial
  value after a file is chosen.

The text measurement (`draw.textbbox` with the requested or the default font)
is a parameter `width: int -> nat` of the search; the metadata libraries are
replaced by the datatypes `ImageMetadata`, `TagEntry` and `BlobRead`; the
clock is a parameter `now`. The ratio test `text_width / image_width < 0.2`
is written `text_width * 5 < 1 * image_width`.

## Model

| member | source | states |
|---|---|---|
| `Text.JoinSplit` | main.py:11 | joining the pieces of `s.split(sep)` with `sep` gives back `s` |
| `Text.LastPieceAfterLastSep` | main.py:11 | `split(sep)[-1]` is the suffix after the last separator (the whole string when there is none) and holds no separator |
| `Text.Lower` | main.py:11 | lower-casing keeps the length and folds each character on its own |
| `ExifExtract.Extension` | main.py:11 | the extension is the lower-cased suffix of the path after its last dot (the whole path without one), free of dots |
| `ExifExtract.KindOf` | main.py:11-22 | the tag table is consulted exactly for `jpg`/`jpeg`, the blob exactly for `heic`/`heif` |
| `ExifDate.ReplaceColonsAt` | main.py:19 | position by position, a character changes exactly when it is a colon preceded by fewer than the limit of colons, and becomes `-`; the length is kept |
| `ExifDate.ReplaceColonsCount` | main.py:19 | exactly min(2, colons) colons are replaced, so a string with fewer than two colons has none left |
| `ExifDate.NormaliseDate` | main.py:30 | the conversion both paths apply keeps the length and leaves max(0, colons - 2) colons |
| `ExifDate.NormaliseExifDate` | main.py:19 | on a `YYYY:MM:DD HH:MM:SS` value the conversion replaces the colons at positions 4 and 7 and copies every other character, the time's colons included |
| `ExifDate.ExifDateBecomesCanonical` | main.py:19 | a `YYYY:MM:DD HH:MM:SS` value becomes a `YYYY-MM-DD HH:MM:SS` value |
| `ExifExtract.TableDateFirst` | main.py:16-19 | the scan answers from the first DateTimeOriginal entry, normalised when it is text, `None` when the replacement would raise |
| `ExifExtract.TableDateAbsent` | main.py:15-33 | a tag table without DateTimeOriginal yields `None` |
| `ExifExtract.ScanTagTable` | main.py:16-21 | the loop with early return computes the first-match answer `TableDate` |
| `ExifExtract.BlobDate` | main.py:23-32 | the HEIF path yields a timestamp exactly when the blob parses and holds a non-empty decodable DateTimeOriginal, and then its normalised text |
| `ExifExtract.ExifDatetime` | main.py:10-33 | only a recognised extension yields a timestamp; a JPEG without a tag table yields none; a HEIF yields what its blob gives |
| `ExifExtract.GetExifDatetime` | main.py:10-33 | dispatching once on the extension and consulting only that encoding computes the extractor's specification `ExifDatetime` |
| `ExifExtract.UnknownExtensionGivesNone` | main.py:11-33 | any extension other than jpg, jpeg, heic, heif yields `None`, whatever the metadata |
| `ExifExtract.JpegDate` | main.py:12-19 | a JPEG's first DateTimeOriginal text yields that text normalised, in canonical form when it is a well-formed EXIF date |
| `ExifExtract.JpegNoDate` | main.py:12-33 | a JPEG without a tag table or without the tag yields `None` |
| `ExifExtract.HeifNoDate` | main.py:22-33 | a HEIF blob lacking the capture-time field yields `None`, not an error |
| `FontFit.LargestFitting` | main.py:39-51 | the reference answer: within range, the lower bound or a fitting size, and no larger size in range fits |
| `FontFit.LargestFittingUnique` | main.py:39-51 | those properties determine the answer |
| `FontFit.LargestFittingGrowsWithImage` | main.py:47 | a wider image never lowers the answer |
| `FontFit.LargestFittingGrowsAsTextShrinks` | main.py:45-47 | text no wider at every size never gets a smaller answer |
| `FontFit.SearchResultBounds` | main.py:39-51 | from a state whose best is at most `left`, the search returns that best or an accepted size in left..right |
| `FontFit.SearchResultGrows` | main.py:39-51 | when every size that fits under one measurement fits under another, the second search ends no lower, for any measurements |
| `FontFit.SearchGrowsWithImage` | main.py:47 | a wider image never lowers the chosen size, for any measurement |
| `FontFit.SearchGrowsAsTextShrinks` | main.py:45-47 | text no wider at every size never gets a smaller chosen size, for any measurement |
| `FontFit.FitFontSize` | main.py:35-51 | the binary search terminates, returns a size in range (the lower bound when the range is empty), the lower bound or a size measured to fit, equals the probe sequence `SearchResult` (so the growth lemmas apply), and for a width growing with size is exactly `LargestFitting` |
| `FontFit.FitWatermarkFont` | main.py:64 | with the defaults the size lies in 10..200, equals `SearchResult` (so it never drops for a wider image) and is the largest fitting size for a monotone measurement |
| `Overlay.PlaceAsWritten` | main.py:66-72 | the nominal text box starts 10 px from the left, ends 18 px above the image bottom, and the backing rectangle is that box grown by exactly 5 px on every side |
| `Overlay.AsWrittenGlyphPlacement` | main.py:66-73 | the drawn glyphs lie inside the backing rectangle only when the measured box starts within 5 px of the drawing origin, and their bottom is 18 px above the image bottom only when its top offset is 0 |
| `Overlay.AsWrittenGlyphsLeaveBacking` | main.py:66-73 | a box measured 19 px below the origin puts the glyphs' bottom past an 800 px image and outside the rectangle |
| `Overlay.PlaceCorrected` | main.py:69-73 | drawing at the origin minus the measured offset puts the glyphs 10 px from the left, 18 px above the bottom, inside the rectangle with a 5 px margin |
| `Overlay.CorrectedKeepsBacking` | main.py:69-73 | the correction keeps the rectangle and moves only the text origin |
| `SavePath.SplitExt` | main.py:78 | `stem + ext` is the path; a non-empty extension is a dot followed by no dot or separator, split off only after a non-dot character of the final component; nothing is split off only when every dot of the final component has only dots before it (`.bashrc`) |
| `SavePath.PlanSave` | main.py:78-85 | the plan is JPEG exactly for the lower-cased extensions .heic, .heif, .jpg, .jpeg, .gif, PNG otherwise, at `stem + "_watermarked" + ".jpg"/".png"` |
| `SavePath.SaveNeverOverwrites` | main.py:78-85 | the output path is never the source path |
| `SavePath.SplitExtAt` | main.py:78 | a name ending in an ordinary character followed by `.ext` splits at that dot |
| `SavePath.SavedPathSplits` | main.py:79-85 | splitting the output path again gives the stem with the marker and the extension of the chosen format |
| `SavePath.HeicPlan` | main.py:79-82 | `photo.heic` is saved as `photo_watermarked.jpg` in JPEG |
| `SavePath.BmpPlan` | main.py:83-85 | `photo.bmp` is saved as `photo_watermarked.png` in PNG |
| `WatermarkRequest.InitialTimestamp` | main.py:96-100 | the field shows the extracted timestamp when it is non-empty, the current time otherwise |
| `WatermarkRequest.DoWatermark` | main.py:103-112 | a missing or empty file path warns first, then an empty timestamp; only a request with both is saved, at the policy's path |
| `WatermarkRequest.RenderAfterSelection` | main.py:94-112 | right after a file is chosen the render button saves, and never over the chosen file |

## Findings

| source | as written | input that shows it | evidently intended | confidence | as-written member | corrected member |
|---|---|---|---|---|---|---|
| main.py:66-73 | the rectangle and the origin `(x, y)` use only the width and height of the box measured at `(0, 0)`, but the glyphs are drawn where that box lies shifted to `(x, y)`, offset included | measured box `(0, 19, 500, 91)` on an 800 px tall image: glyph bottom at 801, rectangle bottom at 787 | the glyphs' bottom 18 px above the image bottom and the rectangle 5 px around the glyphs | medium (TrueType boxes measured at the origin usually start below it); not executed | `Overlay.AsWrittenGlyphsLeaveBacking` | `Overlay.PlaceCorrected` |

## Left out

- The Tkinter window, buttons, `StringVar`, file dialog and message boxes (main.py:87, main.py:90-101, main.py:114-133); the chosen file kept on `select_file` is the `selected` argument of `DoWatermark`.
- Pillow image decoding, RGBA conversion, drawing, `alpha_composite`, the conversion to RGB and the file write: pixel I/O in an external library. Only the coordinates, the output path and the format are modelled.
- Font loading (`ImageFont.truetype`, `load_default`) and `draw.textbbox`: the search takes the measured width as a function of size; the reload of the font at the chosen size (main.py:52-55) returns a font object, not modelled, so the mismatch that the default-font fallback can cause between the measured and the final font is not captured.
- `piexif.load`, `_getexif`, `ExifTags.TAGS` and `bytes.decode`: binary EXIF parsing in external libraries, replaced by `ImageMetadata`; the tag-name table is taken to name only tag 0x9003 "DateTimeOriginal"; the diagnostic printed by the handlers is not modelled.
- `FontFit.FitFontSize`: the float test `text_width / image_width < 0.2` is modelled exactly as `5 * text_width < image_width`; the two can differ only when the quotient lies within one double-precision step of 0.2, which needs image widths beyond about 10^15 pixels. A zero image width, which raises `ZeroDivisionError` when the range is not empty, is excluded by the precondition rather than modelled as an error.
- `Text.Lower`: folds only the ASCII letters; Python's `str.lower` folds all of Unicode.
- `datetime.now()`: the clock is the `now` parameter of `InitialTimestamp`.
- The extractor reads the extension as the last `.`-segment of the whole path while the save policy uses `os.path.splitext`; the two are modelled separately, as the source has them, and not related to each other.
