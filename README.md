# exif-framer, modelled in Dafny

exif-framer puts a photo into a white "Polaroid" frame and prints the camera's
metadata in the frame's bottom band. This project models the part of the
application that decides what is shown:

- `exif_helper.dfy` (utils/exifHelper.ts): the five normalisers that turn raw
  metadata into display strings. The focal length becomes `<k>mm`, the aperture
  `f/<n>`, the ISO `ISO <n>`, the shutter `<n>s` or `1/<k>s`, and an EXIF date
  `YYYY:MM:DD hh:mm:ss` becomes `YYYY.MM.DD`. The module also models the tag
  selection of `extractExif`, including its fallbacks and the cases that make it
  return the empty record.
- `controls.dfy` (components/Controls.tsx): the number each display string is
  stripped back to for its edit box, the three layout buttons, whose press is `AppModel.SetLayout`, and the preset colours.
- `app.dfy` (App.tsx): the page state as the class `AppModel`. Its fields are the
  state record, the `downloading` flag and the locale. Its methods are the upload,
  edit, reset, download, colour, layout and language handlers. Every method keeps
  the focal length, aperture and ISO in their formatted form.
- `canvas_renderer.dfy` (utils/canvasRenderer.ts): the geometry of the exported
  frame, the logo's aspect ratio read from the `viewBox` of the brand mark, the
  logo box, and the two text lines.
- `preview_card.dfy` (components/PreviewCard.tsx): the hex colour parser, the
  dark/light decision, the text palette, the title and the alignment.
- `types.dfy` (types.ts): `ExifData`, `INITIAL_EXIF` and `AppState`.

Two modules hold the JavaScript semantics the source relies on:

- `js_string.dfy`: `\s`, `toLowerCase`, `trim`, `replace`, `split`, `join`,
  `slice` and `startsWith`.
- `js_number.dfy`: `parseFloat` and `parseInt`, `Math.round`, and number printing.

`parseFloat` is modelled by the decimal numeral it reads: its sign, whole digits
and fraction digits. `Value` gives the exact number. `None` stands for NaN or an
infinity, which is all that `isFinite` distinguishes. Printing a number writes
its shortest numeral.

The source is followed where it departs from the documented intent:

- `formatShutter` is not idempotent. A fraction is kept verbatim and gets
  another `s` each time, so `1/200` becomes `1/200s` and then `1/200ss`.
  `ShutterNotIdempotent` exhibits this. The other normalisers are idempotent,
  and the app's class invariant covers only those.
- `parseHex` cannot throw on a string, so the `catch` in `isDarkBg` is never
  taken. A colour whose channels do not parse still counts as light: `parseInt`
  gives NaN, the luminance is NaN, and `NaN < 0.5` is false.
- The preview card and the canvas renderer both clean up the model name with the
  same rule. `CanvasRenderer.DisplayModel` is that rule, and the preview's title
  uses it.

## Model

| member | source | states |
|---|---|---|
| Types.With | types.ts:1-10 | `{ ...exif, [key]: v }` sets the named field to `v` and keeps every other field |
| ExifHelper.FormatFocalLength | utils/exifHelper.ts:4-5 | an empty input gives the empty focal length |
| ExifHelper.FocalTextOfNumeral | utils/exifHelper.ts:7 | lower-casing and removing `mm` and white space leaves a printed number, with or without its `mm`, unchanged |
| ExifHelper.FocalLengthOfInt | utils/exifHelper.ts:15-18 | a whole number `k` is shown as `<k>mm` |
| ExifHelper.FocalLengthFixedPoint | utils/exifHelper.ts:7-18 | `<k>mm` reads back as `k` millimetres and is shown unchanged |
| ExifHelper.FocalLengthIdempotent | utils/exifHelper.ts:4-22 | formatting a formatted focal length changes nothing |
| ExifHelper.FractionSplit | utils/exifHelper.ts:9-10 | `a/b` splits at its one `/` into the two numerals |
| ExifHelper.FocalLengthOfRational | utils/exifHelper.ts:9-18 | `a/b` with `b ≠ 0` is shown as the rounded quotient |
| ExifHelper.FocalLengthZeroDivisor | utils/exifHelper.ts:13 | `a/0` falls back to `parseFloat("a/0")`, so it shows `a` millimetres |
| ExifHelper.FNumberValue | utils/exifHelper.ts:27-30 | the aperture read is always kept as its shortest numeral |
| ExifHelper.FormatFNumber | utils/exifHelper.ts:24-25 | an empty input gives the empty aperture |
| ExifHelper.ApertureTextOfNumeral | utils/exifHelper.ts:27 | lower-casing, removing a leading `f/` and trimming give back the numeral after `f/` |
| ExifHelper.FNumberFixedPoint | utils/exifHelper.ts:27-30 | `f/<n>` for a shortest numeral `n` reads back as `n` and is shown unchanged |
| ExifHelper.FNumberOfNumeral | utils/exifHelper.ts:27-30 | a bare shortest numeral `n` is shown as `f/<n>` |
| ExifHelper.FNumberIdempotent | utils/exifHelper.ts:24-34 | formatting a formatted aperture changes nothing |
| ExifHelper.FNumberPrefixOptional | utils/exifHelper.ts:27 | `f/x` and `x` give the same aperture when `x` has no prefix of its own |
| ExifHelper.FormatISO | utils/exifHelper.ts:36-37 | an empty input gives the empty ISO |
| ExifHelper.IsoPrefixRemoved | utils/exifHelper.ts:39 | removing every `iso` in any case turns the `ISO ` label into one space |
| ExifHelper.IsoNumeralKept | utils/exifHelper.ts:39 | a printed number holds no `iso` to remove |
| ExifHelper.IsoFixedPoint | utils/exifHelper.ts:39-42 | `ISO <n>` reads back as `n` and is shown unchanged |
| ExifHelper.IsoOfInt | utils/exifHelper.ts:39-42 | a bare integer `n` is shown as `ISO <n>` |
| ExifHelper.ISOIdempotent | utils/exifHelper.ts:36-46 | formatting a formatted ISO changes nothing |
| ExifHelper.ISOLabelIgnored | utils/exifHelper.ts:39 | `ISO x` and `x` give the same display |
| ExifHelper.FormatShutter | utils/exifHelper.ts:48-49 | an empty input gives the empty shutter |
| ExifHelper.ShutterCases | utils/exifHelper.ts:48-56 | a fraction gets an `s` verbatim; nothing finite gives ""; at least 1 second gives `<n>s`; below 1 gives `1/<k>s` with `k` the whole number `Math.round` gives for the reciprocal; zero or negative gives "" |
| ExifHelper.ShutterNotIdempotent | utils/exifHelper.ts:50 | `1/200` becomes `1/200s`, and formatting again gives `1/200ss` |
| ExifHelper.FormatDate | utils/exifHelper.ts:58-59 | an empty input gives the empty date |
| ExifHelper.DatePartClean | utils/exifHelper.ts:61 | the pieces of the date part hold no `:` and no space |
| ExifHelper.DateShape | utils/exifHelper.ts:61-65 | with three pieces the result holds no `:` and no space; otherwise the input is kept |
| ExifHelper.DateIdempotent | utils/exifHelper.ts:58-69 | formatting a formatted date changes nothing |
| ExifHelper.DateOfExifLayout | utils/exifHelper.ts:61-63 | `Y:M:D time` becomes `Y.M.D` |
| ExifHelper.GetTagThrows | utils/exifHelper.ts:77-83 | `getTag` throws exactly for a tag with no description whose value is an empty array; a missing tag and every other tag are read without failing |
| ExifHelper.ExtractExif | utils/exifHelper.ts:71-99 | a decoder failure gives `INITIAL_EXIF`; the focal length, aperture and ISO are always in formatted form, and the date is a fixed point of its formatter |
| ExifHelper.LensFallback | utils/exifHelper.ts:88 | a `LensModel` that gives nothing (missing, or an empty text) hands the lens lookup to `Lens`; one that gives a text is the lens |
| ExifHelper.ExtractedFields | utils/exifHelper.ts:85-94 | when no lookup throws, make, model and lens are the texts found or "", and focal length, aperture, shutter, ISO and date are the formatters applied to `FocalLength`, `FNumber`, `ExposureTime`, `ISOSpeedRatings` and `DateTimeOriginal` |
| ExifHelper.ExtractedLens | utils/exifHelper.ts:88 | the lens shown is the `LensModel` text, else the `Lens` text, else "" |
| ExifHelper.AnyThrowAborts | utils/exifHelper.ts:72-99 | any lookup that throws makes the whole extraction return `INITIAL_EXIF` |
| ExifHelper.LensModelWins | utils/exifHelper.ts:88 | a non-empty `LensModel` description is the lens |
| ExifHelper.EmptyArrayAborts | utils/exifHelper.ts:81-98 | an undescribed empty array in a tag that is read makes the whole extraction return `INITIAL_EXIF`: always for the eight tags read unconditionally, and for `Lens` only when `LensModel` gives nothing |
| ExifHelper.MakeAndModelSelection | utils/exifHelper.ts:80-87 | the make is its description, and the model is the first array element when it has no description |
| Controls.ParseNumberStringSpec | components/Controls.tsx:73-78 | the result is "" or the shortest numeral of the number read, which reads back to the same number; applying it twice changes nothing |
| Controls.DropFinalS | components/Controls.tsx:99 | one final `s` is removed, and nothing else |
| Controls.EmptyFieldEmptyInput | components/Controls.tsx:79-101 | an empty display value shows an empty input |
| Controls.FocalEditRoundTrip | components/Controls.tsx:79-84 | `<k>mm` is edited as `<k>`, and formatting `<k>` gives `<k>mm` back |
| Controls.FNumberEditRoundTrip | components/Controls.tsx:85-90 | `f/<n>` is edited as `<n>`, and formatting `<n>` gives `f/<n>` back |
| Controls.IsoEditRoundTrip | components/Controls.tsx:91-96 | `ISO <n>` is edited as `<n>`, and formatting `<n>` gives `ISO <n>` back |
| Controls.ShutterVerbatimRoundTrip | components/Controls.tsx:97-101 | a lower-case, trimmed fraction `v` is displayed as `vs` and edited as `v` |
| Controls.ShutterLongRoundTrip | components/Controls.tsx:97-101 | an exposure of at least a second, `<n>s`, is edited as `<n>` and formats back to `<n>s` |
| Controls.ShutterFractionInput | components/Controls.tsx:97-101 | `1/<k>s` is edited as `1/<k>` and formats back to `1/<k>s` |
| Controls.ShutterEditRoundTrip | components/Controls.tsx:97-101 | every shutter display survives the edit round trip (see "Left out" for the condition on a typed fraction) |
| App.InitialState | App.tsx:14-21 | the page starts with no file, no image, the empty record, not processing, white and left-aligned |
| App.NormalizeKeepsNormalized | App.tsx:55-68 | storing an edit keeps the record's numeric fields in formatted form; normalising twice equals normalising once, except for the shutter |
| App.EditedDateKeepsLayout | App.tsx:55-60 | a date typed in the EXIF layout `Y:M:D time` is stored as typed, unlike extraction, which shows it as `Y.M.D` |
| App.EffectiveBorderColor | App.tsx:168 | the colour used is the stored one when non-empty, else white |
| App.ScreenOf | App.tsx:142-143 | the editor shows exactly when there is an image; the spinner shows exactly when there is none and a file is being processed |
| App.DownloadFilenameSpec | App.tsx:101 | the file name starts with `frame-`, holds no white space, and is `frame-<model>-<time>` for a model without white space |
| App.DownloadFilenameOfWords | App.tsx:101 | each white-space run of the model becomes exactly one `-`: a word, a run and the rest give `frame-<word>-<rest>-<time>`, with the rest's own runs replaced in turn |
| App.NextLocale | App.tsx:200 | the switch always gives the other of `zh` and `en` |
| App.NextLocaleInvolution | App.tsx:200 | switching twice returns to the locale |
| App.InitialLocale | App.tsx:218 | the stored locale when non-empty, else `zh` |
| App.AppModel.constructor | App.tsx:14-23 | the initial record, not downloading, the initial locale; the invariant holds |
| App.AppModel.BeginUpload | App.tsx:29 | only `isProcessing` is set |
| App.AppModel.CompleteUpload | App.tsx:46-51 | the record is replaced by the file, its URL and the extracted metadata, dropping colour and layout |
| App.AppModel.HandleFileSelect | App.tsx:28-52 | the whole upload: the new record, and white and left as the effective colour and layout |
| App.AppModel.HandleExifUpdate | App.tsx:55-68 | only the edited field changes, to its normalised value; the invariant is kept |
| App.AppModel.HandleReset | App.tsx:71-81 | the record returns to exactly the initial one |
| App.AppModel.HandleDownload | App.tsx:84-114 | nothing happens without an image; otherwise the export gets the file name and background colour, and the flag is cleared on success and on failure |
| App.AppModel.SetBorderColor | App.tsx:180 | only the colour changes, and a non-empty colour is the one used |
| App.AppModel.SetLayout | App.tsx:182 | only the layout changes, and it is the layout used |
| App.AppModel.SwitchLocale | App.tsx:200-208 | the locale becomes the other one |
| App.InitialIsNormalized | types.ts:21-30 | the empty record is in formatted form |
| CanvasRenderer.FrameProportions | utils/canvasRenderer.ts:27-54 | border 4% of the longer side, bottom band 14%, canvas adds 8% and 18%, fonts 1.8% and 1.53% |
| CanvasRenderer.PhotoInsideCanvas | utils/canvasRenderer.ts:38-49 | the photo is drawn at `(border, border)` at its own size, inside the canvas with the band below |
| CanvasRenderer.ColumnsSpanPhoto | utils/canvasRenderer.ts:61-62 | the text columns are anchored at the photo's left and right edges |
| CanvasRenderer.TextInBottomBand | utils/canvasRenderer.ts:60-117 | both text lines start below the photo, and the second line ends above the canvas bottom |
| CanvasRenderer.LogoRatio | utils/canvasRenderer.ts:69-75 | the logo's aspect ratio is always positive |
| CanvasRenderer.FindViewBoxSkips | utils/canvasRenderer.ts:69 | the first `viewBox` is found past text that cannot start one |
| CanvasRenderer.NoViewBoxRatio | utils/canvasRenderer.ts:70 | markup without a `viewBox` gives the default ratio 5 |
| CanvasRenderer.ViewBoxMatch | utils/canvasRenderer.ts:69 | `viewBox="x y w h"` is matched with `w` and `h` as its groups |
| CanvasRenderer.ParseDigits | utils/canvasRenderer.ts:72-73 | `parseFloat` of a digit group is the number it denotes |
| CanvasRenderer.LogoRatioOfViewBox | utils/canvasRenderer.ts:69-75 | the first `viewBox` gives the ratio `w / h`, or 5 when either is zero |
| CanvasRenderer.LogoBoxFor | utils/canvasRenderer.ts:83-85 | the logo is at least 12 pixels and the base font high, as wide as the ratio says, and raised a tenth of its height above the first line at the left anchor |
| CanvasRenderer.Logo | utils/canvasRenderer.ts:68 | a logo is drawn exactly when the markup is not empty |
| CanvasRenderer.LogoInsideBand | utils/canvasRenderer.ts:83-85 | for a photo whose longer side is at least 91 pixels the logo lies between the photo and the canvas bottom |
| CanvasRenderer.LogoOverrunsTinyPhoto | utils/canvasRenderer.ts:83-85 | for a 50×50 photo the 12-pixel minimum pushes the logo past the canvas bottom |
| CanvasRenderer.DisplayModelSpec | utils/canvasRenderer.ts:94-97 | the make is dropped, and the rest trimmed, exactly when it begins the model in any case |
| CanvasRenderer.DisplayModelEmptyMake | utils/canvasRenderer.ts:94-97 | an empty make only trims the model |
| CanvasRenderer.DisplayModelOnlyMake | utils/canvasRenderer.ts:94-97 | a model that is the make in another case shows as "" |
| CanvasRenderer.DisplayModelStripsMake | utils/canvasRenderer.ts:94-97 | `make name` shows `name` |
| CanvasRenderer.LeftLineStartsWithMake | utils/canvasRenderer.ts:98 | the first line starts with the make and a space, and repeats the whole model when the make does not begin it |
| PreviewCard.DoubledAt | components/PreviewCard.tsx:16 | every character of the code appears twice, in order, in its expansion |
| PreviewCard.HexTextOfCode | components/PreviewCard.tsx:15 | a code without white space or another `#` is sliced as written, with or without its `#` |
| PreviewCard.HashOptional | components/PreviewCard.tsx:15 | a code parses the same with or without its `#` |
| PreviewCard.ShorthandMatchesLong | components/PreviewCard.tsx:14-20 | `#abc` and `#aabbcc` give the same triple |
| PreviewCard.HexByte | components/PreviewCard.tsx:17-19 | two hex digits make a channel in 0..255 |
| PreviewCard.ParseIntTwoHex | components/PreviewCard.tsx:17-19 | `parseInt` of two hex digits in base 16 is their byte |
| PreviewCard.SixDigitChannels | components/PreviewCard.tsx:14-20 | a six-digit code gives each channel the byte of its two digits |
| PreviewCard.UnreadableIsLight | components/PreviewCard.tsx:26-33 | a colour with an unreadable channel counts as light |
| PreviewCard.NamedColourIsLight | components/PreviewCard.tsx:14-33 | `red` is not read as a colour and counts as light |
| PreviewCard.DeepShadowIsDark | components/PreviewCard.tsx:22-30 | channels of at most 10 take the linear branch and give luminance below one half |
| PreviewCard.BlackIsDark | components/PreviewCard.tsx:22-30 | `#` and six `0` digits (`#000000`) is dark, whatever the power branch computes |
| PreviewCard.WhiteIsLight | components/PreviewCard.tsx:22-30 | `#` and six `f` digits in either case (`#ffffff`, `#FFFFFF`) is light when the power branch maps 1 to 1 |
| PreviewCard.PaletteContrast | components/PreviewCard.tsx:35-37 | white text on `#000000` and `#111827` text, never the border's own white, on `#ffffff` |
| PreviewCard.PresetShape | components/Controls.tsx:143 | every preset colour is `#` and six hex digits |
| PreviewCard.PresetsReadable | components/Controls.tsx:143 | the card reads all three channels of every preset colour, each in 0..255 |
| PreviewCard.TitleFallsBack | components/PreviewCard.tsx:68 | the title is the make when the cleaned model is empty, in particular when the model is only the make; an empty title means an empty make |
| PreviewCard.TitleOfMakeAndName | components/PreviewCard.tsx:39-44 | `make name` is titled `name` |
| PreviewCard.AlignmentMatchesLayout | components/PreviewCard.tsx:63-74 | the text aligns as the layout is named; the rows centre, end or start exactly for centre, right and left |
| JsString.ReplaceSpaceRunsSpec | App.tsx:101 | replacing white-space runs leaves no white space, keeps every other character in order, and changes nothing in a string without white space |
| JsString.ReplaceSpaceRunsPrefix | App.tsx:101 | a prefix without white space is copied unchanged |
| JsString.ReplaceSpaceRunsSplice | App.tsx:101 | one maximal run of white space between a word and the rest becomes exactly one separator |
| JsString.SplitJoin | utils/exifHelper.ts:61 | splitting loses nothing: joining the pieces with the separator gives the string back |
| JsString.SplitPartsClean | utils/exifHelper.ts:61 | no piece of a split holds the separator |
| JsString.RemoveAllKeeps | utils/exifHelper.ts:39 | a global removal leaves a prefix that cannot start the pattern untouched |
| JsNumber.PrintRoundTrip | utils/exifHelper.ts:30 | printing a number and reading it back gives the same number and the same text |
| JsNumber.IntStrRoundTrip | utils/exifHelper.ts:42 | a printed integer reads back as itself |

## Left out

- Reading the metadata out of the file's bytes is the `exifreader` library's job, which is not part of this model. `ExtractExif` takes the tag map the library returns, or `None` when it threw.
- HEIC detection and conversion, object URLs, image loading, `snapdom` and the canvas drawing calls are left out. They are browser I/O. The export's success and the clock (`Date.now()`) are parameters of `HandleDownload`.
- The brand mark's SVG markup comes from `BrandIcon`, which is not part of this model. The markup is an input.
- React rendering, the colour picker, the i18n texts and `localStorage` are left out. The stored locale is a parameter.
- Number syntax with an exponent (`1e3`), and the exponent form JavaScript prints for very large or very small numbers, are left out. Numbers are exact decimals, so IEEE rounding is not modelled.
- `toLowerCase` and the `i` flag are modelled on the ASCII letters only.
- `Math.pow(x, 2.4)` is the parameter `pow24` of `IsDarkBg`. The lemmas depend on it only through `pow24(1.0) == 1.0`.
- Only the tag shapes the normalisers see are modelled: text or number scalars and arrays of them. Nested arrays are not.
- `generateFinalImage` is never called by the app, and it paints its background white whatever colour the preview shows. The model covers its geometry and text, not its paint.
- A date typed into the edit box is stored as typed, because `handleExifUpdate` does not run `formatDate` on edits. `EditedDateKeepsLayout` states this.
- `parseNumberString` is declared in Controls.tsx but never used there. It is modelled on its own.
- ShutterEditRoundTrip: holds only when a fraction was typed in lower case and without surrounding white space. Such a fraction is stored verbatim with an `s`, and the edit box lower-cases and trims it, so any other fraction comes back changed.
- Strings are sequences of Unicode scalar values, so lengths and indices count code points. JavaScript counts UTF-16 code units, so for text outside the Basic Multilingual Plane the `length === 3` test of `parseHex` and the `slice` calls see different lengths, and a lone surrogate cannot be represented.
- The catch branches of the normalisers are unreachable for string inputs and are not modelled separately.
