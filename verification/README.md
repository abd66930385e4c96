# A verified model of the browser toolbox's image and colour logic

The toolbox is a set of browser panels for working with images and colours. This
project models in Dafny the parts of those panels that compute something:

- **Background remover** (`js/bgremove.js`), split across several modules:
  - `BgGrid` and `Pixels` cover pixel addressing.
  - `BgBorder` takes the component-wise median of the Lab colours in the border ring. A pixel counts as background when its CIE76 distance to that median is within the threshold.
  - `BgFill` is the edge-seeded flood fill over the `mask`/`visited` arrays and the `qx`/`qy` queue, followed by the sweep of unreached pixels.
  - `BgMorph` is the 3×3 erode/dilate passes and the opening and closing cycles.
  - `BgArtifacts` is the breadth-first removal of small 4-connected islands.
  - `BgRemove` holds the options, the whole pipeline, the alpha write-back and the grey debug mask.
- **Dominant-palette extractor** (`js/palette.js`):
  - `PaletteHistogram` builds the 16-level colour histogram in a `Map`.
  - `PaletteSeed` is the weighted k-means++ seeding.
  - `PaletteKMeans` is the fixed-iteration weighted k-means and the dominance ordering of its clusters.
- **Colour-string helpers** (`js/utils.js`, module `Utils`): clamping, `#rgb`/`#rrggbb` parsing and formatting, `rgb(...)`/`hsl(...)` extraction and hue arithmetic.
- **Palette generator** (`js/color.js`, module `Color`): hex normalisation, the harmony offsets, the grayscale fallback, the de-duplicated and padded harmony list, and the export formats.
- **Image studio** (`js/studio.js`, module `Studio`): the hex parser, the colour-to-transparency loop, the CSS filter string, the filter presets, the 30-entry cap applied by `saveUndo` and the resize rule.
- **Frame overlay** (`js/frames.js`, module `Frames`): near-white recolouring, exact colour keying, and the overlay's size, offset and opacity arithmetic.
- **Analyser** (`js/analyze.js`, module `Analyze`): coarse colour bins, the translucent-pixel count, the heuristic label and the format label.
- **Preset browser** (`js/presets.js`, module `Presets`): the search filter, the category menu and a preset click.
- **Gradient maker** (`js/gradient.js`, module `Gradient`): the CSS value and the Copy CSS text.

`Js` states the JavaScript built-ins these files rely on:

- `trim`, `parseInt`, and the `x || d` default;
- `Math.round` of a quotient (`RoundDiv`) and the truncating `%`;
- `Uint8ClampedArray` stores (`ClampByte`) and `toString(radix)`;
- `join`, `split` and `includes`;
- ASCII case mapping and `JSON.stringify` of strings.

`Sets` holds counting facts about index sets.

The code mutates state in place in three kinds of places:

- pixel loops over RGBA bytes;
- the fill, morphology and island arrays;
- the histogram, seeding and k-means accumulators.

These are modelled as methods over `array`s and classes. Each method is proved against a specification function, and the properties are proved about that function. Pure expression code is modelled as functions and lemmas.

Integers are unbounded. A JavaScript float quotient of integers is stated exactly over the rationals. Where the source rounds such a quotient (`Math.round` in the frame overlay), the double it rounds can fall just below an exact half, so the model's result can be one pixel more than the browser's; "Left out" names the members concerned. The floating-point colour conversions are passed in as functions and are not modelled; see "Left out".

Each morphology pass writes into a zero-filled buffer, leaves the outermost pixel ring of that buffer untouched and then copies the buffer over the whole mask. So after any pass the ring is 0, that is background (`BgMorph`, `BgRemove.FinalRing`).

The model also proves that the flood fill's connectivity has no effect. After the unvisited sweep, the mask is exactly the per-pixel threshold test (`BgFill.FillMask`, `BgRemove.FinalPlain`).

## Model

| member | source | states |
|---|---|---|
| Js.TrimStart | js/utils.js:14 | the result is a suffix of the input, everything dropped is whitespace, and it does not start with whitespace |
| Js.TrimEnd | js/utils.js:14 | the result is a prefix of the input, everything dropped is whitespace, and it does not end with whitespace |
| Js.Trim | js/utils.js:14 | `trim()` leaves no whitespace at either end |
| Js.TrimNoop | js/color.js:15 | a text without surrounding whitespace is returned unchanged by `trim()` |
| Js.TrimIdempotent | js/color.js:15 | trimming twice is trimming once |
| Js.ToLower | js/color.js:15 | the model's lower-casing maps ASCII letters only: it keeps the length, turns every ASCII capital into its small letter and leaves every other character alone |
| Js.ToUpper | js/analyze.js:131 | the model's upper-casing maps ASCII letters only: it keeps the length, turns every ASCII small letter into its capital and leaves every other character alone |
| Js.ToLowerIdempotent | js/color.js:18 | lower-casing twice is lower-casing once |
| Js.ToLowerConcat | js/presets.js:98 | lower-casing distributes over concatenation |
| Js.RoundDiv | js/palette.js:80-82 | `Math.round(n / d)` for a positive count is the integer nearest n/d, halves rounded up |
| Js.RoundDivBounds | js/palette.js:80-82 | the rounded mean of values in [lo, hi] is in [lo, hi] |
| Js.RootCompare | js/studio.js:345-346 | comparing `Math.sqrt(s)` with a bound t is the same as comparing s with t² for t >= 0 |
| Js.Rem | js/utils.js:95 | JavaScript `%`: the remainder has the sign of the dividend and magnitude below the divisor's |
| Js.ClampByte | js/bgremove.js:98 | a write into a `Uint8ClampedArray` stores a value in range as is, a negative value as 0 and a value above 255 as 255 |
| Js.DigitCharValue | js/utils.js:6 | the digit character `toString` writes for d reads back as d |
| Js.DigitsValueAppend | js/utils.js:22 | the value of two digit blocks written one after the other is the first scaled by radix^length of the second plus the second |
| Js.NatToDigits | js/utils.js:6 | `n.toString(radix)` is a non-empty run of lowercase digits of the radix whose value is n |
| Js.HexDigitsLength | js/utils.js:6 | `toString(16)` has one digit below 16 and two digits from 16 to 255 |
| Js.DecimalDigitsLength | js/utils.js:64 | numbers below 10 take one decimal digit and numbers below 1000 at most three |
| Js.IntToString | js/studio.js:126-130 | the template-literal text of an integer is non-empty and starts with '-' exactly for negative numbers |
| Js.ParseInt | js/frames.js:171 | definition, no contract; its properties are stated by Js.DigitPrefix, Js.DecimalMagnitude, Js.UnsignedText, Js.SignedText and Js.IntToStringRoundTrip |
| Js.DigitPrefix | js/utils.js:17 | the longest digit prefix is a prefix, all digits, and is followed by a non-digit or the end |
| Js.DigitPrefixAll | js/utils.js:17 | a text made only of digits is its own digit prefix |
| Js.DecimalMagnitude | js/studio.js:163 | `parseInt` reads a run of decimal digits as the number they denote |
| Js.OrElse | js/gradient.js:49 | `x \|\| d` keeps a parsed non-zero number and gives d for NaN or 0 |
| Js.IntToStringRoundTrip | js/gradient.js:49 | `parseInt(String(i))` gives back i for every integer, with radix 10 or none |
| Js.UnsignedText | js/studio.js:163 | a digit text whose magnitude reads as v parses to v |
| Js.SignedText | js/studio.js:163 | a '-' before a magnitude text parses to the negated magnitude |
| Js.Join | js/color.js:458 | `join` of no elements is empty and of one element is that element |
| Js.Split | js/analyze.js:131 | `split(c)` always returns at least one piece |
| Js.SplitJoin | js/studio.js:131 | splitting a joined list again on the separator gives the list back when no element holds the separator |
| Js.SplitPlain | js/analyze.js:131 | a text without the separator splits into itself alone |
| Js.SplitPrefix | js/analyze.js:131 | a separator-free head and its separator split off as the first piece |
| Js.Includes | js/presets.js:98 | definition, no contract; its properties are stated by Js.IncludesAt and Js.IncludesEmpty |
| Js.IncludesAt | js/presets.js:98 | `includes(q)` is true whenever q occurs at some offset |
| Js.IncludesEmpty | js/presets.js:98 | every text includes the empty text |
| Js.RemoveFirst | js/color.js:448 | `replace('#', '')` leaves a text without '#' alone and drops a leading '#' |
| Js.JsonChar | js/color.js:460 | `JSON.stringify` writes an ordinary character as itself |
| Js.JsonQuote | js/color.js:460 | the JSON text of a string starts and ends with a double quote |
| Js.JsonQuotePlain | js/color.js:460 | a string without quotes, backslashes or control characters is quoted verbatim |
| Js.JsonBodyPlain | js/color.js:460 | the escaped body of such a string is the string itself |
| Js.JsonArray | js/presets.js:119 | the JSON text of an array of strings is bracketed |
| Js.MapJsonQuote | js/color.js:460 | quoting each element keeps the length and quotes each in place |
| Sets.DistinctBelow | js/bgremove.js:104-127 | a list of distinct pixel indices below n has at most n entries (the bound behind the queue size) |
| Sets.DistinctCard | js/bgremove.js:190-214 | a list of distinct indices has as many elements as its set |
| Sets.SubsetBelow | js/palette.js:52-87 | a set of indices below n has at most n elements |
| Utils.Clamp | js/utils.js:4 | the result lies in [min, max] when min <= max; a value already in range is returned unchanged, one below is raised to min and one above lowered to max |
| Utils.HexString | js/utils.js:6 | `n.toString(16)` is never empty |
| Utils.PadStart2 | js/utils.js:6 | `padStart(2, '0')` leaves texts of two or more characters alone and otherwise left-fills with '0' to exactly two characters, keeping the text as the suffix |
| Utils.ToHex2 | js/utils.js:6 | for a byte, `toHex2` is exactly two lowercase hex digits whose value is the byte |
| Utils.RgbToHex | js/utils.js:28 | for byte channels, the text is `#` plus six lowercase hex digits, seven characters in all, whose three digit pairs read back as red, green and blue |
| Utils.StripHash | js/utils.js:15-20 | the optional leading `#` of the pattern is dropped when present and nothing else changes |
| Utils.HexToRgb | js/utils.js:12-26 | the result is present exactly when the input is non-empty and, once trimmed, is an optional `#` followed by exactly 3 or 6 hex digits (either case); every accepted colour has byte channels |
| Utils.HexDigitsToRgb | js/utils.js:15-25 | digits are accepted exactly when there are 3 or 6 hex digits; the short form doubles each digit (channel = 17 times the digit) |
| Utils.DoubledDigit | js/utils.js:17-19 | `parseInt(d+d, 16)` is 17·d and below 256 |
| Utils.ThreeBytes | js/utils.js:24-25 | `(int>>16)&255`, `(int>>8)&255` and `int&255` recover the three bytes of a 24-bit value |
| Utils.HexPairs | js/utils.js:22-25 | the 24-bit value of six hex digits splits into the values of its three digit pairs, red first |
| Utils.HexDigitsLong | js/utils.js:22-25 | six hex digits give the colour whose channels are the three digit pairs |
| Utils.HexRoundTrip | js/utils.js:12-28 | `hexToRgb(rgbToHex(c))` gives back c for every colour with byte channels |
| Utils.HexTextToRgb | js/utils.js:12-26 | `#` followed by three lowercase two-digit pairs parses to the colour of those pairs |
| Utils.Number3 | js/utils.js:64 | a `\d{1,3}` group reads a number below 1000 and consumes input |
| Utils.Field | js/utils.js:64 | a `\s*(\d{1,3})\s*` group followed by its separator reads a number below 1000 and consumes input |
| Utils.RgbFrom | js/utils.js:64 | a match of the `rgb(...)` pattern starts with `rgb(` (any case) and reads three numbers below 1000 |
| Utils.RgbFields | js/utils.js:64 | the three comma-separated groups read numbers below 1000 |
| Utils.GreenBlue | js/utils.js:64 | reading green and blue keeps the red already read, both new values below 1000 |
| Utils.Blue | js/utils.js:64 | reading blue keeps red and green, the new value below 1000 |
| Utils.RgbAt | js/utils.js:64 | a match at position k lies inside the text and starts with `rgb(` |
| Utils.FirstMatch | js/utils.js:64 | `String.prototype.match` without the g flag: the reported match is at the leftmost position where the pattern matches, and no match means no position matches |
| Utils.ParseRgb | js/utils.js:63-69 | the result is present exactly when the leftmost `rgb(...)` match exists and has all three parts at most 255; the result is that match |
| Utils.Separator | js/utils.js:72 | the `\s*(?:,|\s)\s*` separator consumes at least one character |
| Utils.Percent | js/utils.js:72 | a `(\d{1,3})%` group reads a number below 1000 and consumes input |
| Utils.HslFrom | js/utils.js:72 | a match of the `hsl(...)` pattern starts with `hsl(` and reads a signed hue and two unsigned percentages, each of at most three digits |
| Utils.HslAt | js/utils.js:72 | a match at position k lies inside the text and starts with `hsl(` |
| Utils.ParseHsl | js/utils.js:71-77 | the result is present exactly when the leftmost `hsl(...)` match exists with saturation and lightness at most 100, and then it is that match; the hue is not range-checked (anything between -999 and 999) |
| Utils.RgbLabelRoundTrip | js/utils.js:63-69 | the `rgb(r,g,b)` text built from a byte colour parses back to that colour |
| Utils.RgbTextParses | js/utils.js:63-69 | `rgb(` three comma-separated one-to-three-digit runs `)` parses to the values of those runs when they are bytes |
| Utils.RotateHue | js/utils.js:95 | the result is congruent to h + deg modulo 360; it is in [0, 360) when h + deg >= -360 and negative below that (unless a multiple of 360), because `%` keeps the dividend's sign |
| Utils.RemCongruent | js/utils.js:95 | JavaScript's truncating `%` is congruent to the mathematical remainder |
| Utils.ClampHsl | js/utils.js:104-109 | the hue lands in [0, 360) congruent to h; saturation and lightness are clamped to [0, 100] |
| Color.NormalizeHex | js/color.js:13-19 | null exactly for an empty input or one that, `#`-prefixed, `hexToRgb` rejects; otherwise a canonical `#rrggbb` (lowercase) that is `rgbToHex` of the colour `hexToRgb` reads |
| Color.HashPrefixed | js/color.js:16 | the text handed to `hexToRgb` always starts with `#` |
| Color.LowerNormal | js/color.js:18 | lower-casing a canonical hex leaves it unchanged |
| Color.NormalizeHexIdempotent | js/color.js:13-19 | normalising a normalised colour gives it back |
| Color.NormalTextPrefixed | js/color.js:16 | a canonical hex already carries its `#` and is not prefixed again |
| Color.NormalizeHexAccepts | js/color.js:13-19 | a colour is accepted exactly when the input is non-empty and, trimmed, has the hex shape `hexToRgb` accepts (optional `#`, 3 or 6 hex digits) |
| Color.OffsetsFor | js/color.js:87-96 | every mode gives a non-empty list of offsets in [-30, 360) starting with -30 or 0 |
| Color.OffsetsIncludeBase | js/color.js:87-96 | every mode's offsets include 0, so the base hue is among the candidates |
| Color.OffsetsUnknown | js/color.js:95 | an unknown mode falls back to the single offset 0 |
| Color.GraySteps | js/color.js:83 | five lightness steps in [5, 95], in non-decreasing order, each being L plus its step of -24..24 whenever that is in range, 5 when it falls below 5 and 95 when it rises above 95 |
| Color.GrayscaleSet | js/color.js:80-85 | five colours with the base's hue and saturation, one at each lightness step |
| Color.Rotated | js/color.js:118-120 | one candidate per offset, each either null (empty) or a canonical hex |
| Color.RotatedBy | js/color.js:119-120 | a rotated candidate is null or a canonical hex |
| Color.Push | js/color.js:110 | `push` appends a non-empty colour that is not yet present and otherwise leaves the list alone |
| Color.PushAllSpec | js/color.js:109-112 | pushing a list keeps the existing prefix, never creates a duplicate, and the result holds exactly the old entries plus the non-empty pushed ones |
| Color.Pad | js/color.js:113 | padding keeps the list as a prefix, reaches length max(n, 5), and fills with the base colour |
| Color.HarmonyList | js/color.js:98-130 | definition, no contract; its properties are stated by Color.HarmonySet (the loops compute it) and Color.HarmonyListShape |
| Color.HarmonySet | js/color.js:98-130 | the loops of `harmonySet` compute the harmony list |
| Color.PushEach | js/color.js:112 | the `forEach(push)` loop pushes each entry in turn |
| Color.PadToFive | js/color.js:113 | the `while` loop pads to five with the base |
| Color.HarmonyListShape | js/color.js:98-130 | for an accepted base: at least five entries, the base first, a duplicate-free prefix holding exactly the base and the non-empty candidates (grey steps for saturation <= 1, rotated hues otherwise), then only copies of the base, and only when fewer than five were distinct |
| Color.BareHexNormal | js/color.js:448 | the `hexes()` entry of a canonical colour is the colour without `#` |
| Color.XmlLine | js/color.js:484 | an xml line exists exactly when `hexToRgb` accepts the entry (otherwise the export throws) |
| Color.XmlLines | js/color.js:484 | the xml lines exist exactly when every entry has one, one per entry in order |
| Color.ExportText | js/color.js:449-487 | every format except xml yields text; csv is the bare lowercase hexes joined by commas; csvhash the entries joined by ", "; an unknown format the empty text |
| Color.CsvRoundTrip | js/color.js:458 | splitting the csv export of canonical colours on commas gives one field per colour, each the colour without its `#` |
| Color.CssExportLines | js/color.js:455 | the css export splits into `:root{`, one `--color-N` line per colour in order, and `}` |
| PaletteHistogram.Key | js/palette.js:65-66 | the bin key is below 4096 and its three 4-bit fields are the top four bits of red, green and blue |
| PaletteHistogram.ShiftIsDivision | js/palette.js:65 | `x >> 4` on a byte is x / 16 |
| PaletteHistogram.KeyFields | js/palette.js:66 | `(ri<<8) \| (gi<<4) \| bi` with 4-bit fields is ri·256 + gi·16 + bi |
| PaletteHistogram.KeyInjective | js/palette.js:65-66 | two colours share a bin exactly when the top four bits of each channel agree |
| PaletteHistogram.CountedBefore | js/palette.js:61-62 | the number of pixels with alpha at least 16 among the first n is at most n |
| PaletteHistogram.AddPixelSpec | js/palette.js:60-74 | one loop step keeps the histogram well formed (distinct keys below 4096 in first-seen order, every bucket with count >= 1 and byte-bounded sums) and adds one to the total count exactly when alpha >= 16 |
| PaletteHistogram.AddExisting | js/palette.js:68-73 | growing an existing bucket keeps the histogram well formed and adds one to the total |
| PaletteHistogram.AddFresh | js/palette.js:69-73 | a new bucket for an unseen key, appended to the insertion order, keeps the histogram well formed and adds one to the total |
| PaletteHistogram.HistOf | js/palette.js:58-74 | definition, no contract; its properties are stated by PaletteHistogram.HistOfSpec, HistStep and Accumulate |
| PaletteHistogram.HistOfSpec | js/palette.js:60-74 | after n pixels the histogram is well formed and its counts add up to the pixels with alpha >= 16 |
| PaletteHistogram.HistStep | js/palette.js:60-74 | the histogram invariant carries over one more pixel |
| PaletteHistogram.PointOf | js/palette.js:79-84 | the point of a bucket has byte channels (rounded means) and the bucket's count as weight |
| PaletteHistogram.PointsOf | js/palette.js:77-85 | one point per bucket, in `Map` insertion order |
| PaletteHistogram.PointsWeight | js/palette.js:77-85 | the points' weights add up to the buckets' counts |
| PaletteHistogram.BuildHistogram | js/palette.js:52-87 | `buildHistogram` returns the points of the well-formed histogram of the image |
| PaletteHistogram.Accumulate | js/palette.js:58-74 | the pixel loop builds exactly the histogram of the whole image |
| PaletteHistogram.ToPoints | js/palette.js:77-85 | the `bins.values()` loop produces the points of the buckets in insertion order |
| PaletteHistogram.HistogramPoints | js/palette.js:52-87 | at most 4096 points, each with byte channels and weight >= 1, whose total weight is the number of pixels with alpha >= 16 |
| PaletteHistogram.PointsGood | js/palette.js:79-84 | points of good buckets have byte channels and positive weights |
| PaletteSeed.Dist | js/palette.js:112-113 | the squared RGB distance is non-negative and 0 exactly at the same colour |
| PaletteSeed.MinDist | js/palette.js:110-115 | the best distance is at most the distance to every centroid |
| PaletteSeed.MinDistAttained | js/palette.js:110-115 | the best distance is the distance to some centroid |
| PaletteSeed.Weights | js/palette.js:93-94 | one weight per point |
| PaletteSeed.D2 | js/palette.js:116-117 | one weighted distance per point |
| PaletteSeed.Scan | js/palette.js:96-99 | the subtract-until-non-positive scan stops at an index between its start and the end |
| PaletteSeed.ScanSpec | js/palette.js:124-129 | the scan stops at the first index whose running sum reaches the draw, and every earlier running sum is below it |
| PaletteSeed.Pick | js/palette.js:100 | the picked index is in range, falling back to the last point |
| PaletteSeed.PickCovers | js/palette.js:92-101 | a draw in [0, 1) times a positive total never runs off the end, and a positive draw picks an entry of positive weight |
| PaletteSeed.ScaledDraw | js/palette.js:95 | `Math.random() * total` lies in [0, total), and is positive for a positive draw |
| PaletteSeed.SeedIndex | js/palette.js:103-130 | the chosen point index is in range, for the first pick, the uniform fallback and the D² pick |
| PaletteSeed.UniformIndex | js/palette.js:121 | `(Math.random() * n) \| 0` is an index below n |
| PaletteSeed.Seeds | js/palette.js:90-133 | the seeding with c draws gives c centroids |
| PaletteSeed.NextSeed | js/palette.js:106-131 | definition, no contract; its properties are stated by PaletteSeed.SeedsNext, NextSeedIsNew and NextCentroid |
| PaletteSeed.SeedsNext | js/palette.js:106-131 | each loop round appends the centroid chosen from the centroids so far |
| PaletteSeed.SeedsArePoints | js/palette.js:98-130 | every centroid is a copy of some point's RGB |
| PaletteSeed.NextSeedIsNew | js/palette.js:116-130 | with weights >= 1, a positive draw, and a point off the centroids, the next centroid is new |
| PaletteSeed.D2Signs | js/palette.js:116 | every weighted distance is non-negative, and positive for a point off the centroids |
| PaletteSeed.D2PositiveIsNew | js/palette.js:116 | a point with positive weighted distance is not a centroid |
| PaletteSeed.NearestDistance | js/palette.js:110-115 | the inner loop computes the distance to the nearest centroid |
| PaletteSeed.FillD2 | js/palette.js:107-119 | the loop fills `d2` with the weighted distances and returns their sum |
| PaletteSeed.ScanPick | js/palette.js:124-130 | the scan loop and `Math.min(idx, n-1)` pick the index `Pick` describes |
| PaletteSeed.PickByWeight | js/palette.js:92-101 | `pickByWeight` returns the first centroid of the seeding |
| PaletteSeed.NextCentroid | js/palette.js:106-131 | one round returns the next centroid of the seeding |
| PaletteSeed.KppInitWeighted | js/palette.js:90-133 | `kppInitWeighted` returns the max(k, 1) centroids of the seeding |
| PaletteSeed.KppShape | js/palette.js:90-133 | exactly max(k, 1) centroids, each a copy of some point's RGB |
| PaletteKMeans.Wt | js/palette.js:150 | `p[3] \|\| 1` is never 0 |
| PaletteKMeans.NearestIn | js/palette.js:151-157 | the chosen cluster is at least as near as every other, and strictly nearer than every lower index (first one on ties) |
| PaletteKMeans.Nearest | js/palette.js:151-157 | every point is assigned to a cluster that exists |
| PaletteKMeans.Zeros | js/palette.js:146 | the zeroed accumulators are all zero |
| PaletteKMeans.AssignPrefix | js/palette.js:149-163 | one accumulator per cluster |
| PaletteKMeans.Assign | js/palette.js:149-163 | one accumulator per cluster after the pass |
| PaletteKMeans.TotalAccUpdate | js/palette.js:161 | changing one cluster's accumulator changes the total weight by the difference |
| PaletteKMeans.TotalZeros | js/palette.js:146 | zeroed accumulators have total weight 0 |
| PaletteKMeans.AssignConservesWeight | js/palette.js:149-163 | the per-cluster weights add up to the total weight of the points |
| PaletteKMeans.AssignBounded | js/palette.js:158-161 | with byte points of weight >= 1, every cluster's sums lie between 0 and 255 times its weight |
| PaletteKMeans.Update | js/palette.js:166-175 | each centroid moves to its cluster's rounded mean when the weight is positive, and stays otherwise |
| PaletteKMeans.MovedValid | js/palette.js:168-174 | a bounded cluster moves to a byte colour |
| PaletteKMeans.WeightsOf | js/palette.js:162 | `weightsPerCluster` holds each cluster's accumulated weight |
| PaletteKMeans.Run | js/palette.js:144-176 | the iterations keep one centroid and one weight per cluster |
| PaletteKMeans.RunValid | js/palette.js:144-176 | iterating keeps every centroid a byte colour |
| PaletteKMeans.UpdateValid | js/palette.js:166-175 | the update pass maps byte centroids and bounded clusters to byte centroids |
| PaletteKMeans.Kept | js/palette.js:179-181 | the kept clusters are those of positive weight, with their colour and weight, in cluster order |
| PaletteKMeans.KeptComplete | js/palette.js:181 | every cluster of positive weight is kept |
| PaletteKMeans.Insert | js/palette.js:182 | insertion adds exactly the new entry |
| PaletteKMeans.InsertSorted | js/palette.js:182 | inserting into a sorted list keeps it sorted by descending weight, ties by index |
| PaletteKMeans.SortRanks | js/palette.js:182 | the sort is a permutation |
| PaletteKMeans.SortRanksSorted | js/palette.js:182 | the sort orders by descending weight, ties in cluster order (a stable sort) |
| PaletteKMeans.Dominant | js/palette.js:179-183 | no more colours than clusters |
| PaletteKMeans.DominantSpec | js/palette.js:179-185 | the result lists exactly the clusters of positive weight, each once, heavier first, ties in cluster order |
| PaletteKMeans.KMeans | js/palette.js:135-186 | definition, no contract; its properties are stated by PaletteKMeans.KMeansShape, DominantSpec and KMeansWeighted |
| PaletteKMeans.KMeansShape | js/palette.js:135-186 | empty for no points; at most min(k, points) colours; byte colours when the points are byte colours |
| PaletteKMeans.NearestIndex | js/palette.js:151-157 | the inner loop finds the nearest cluster |
| PaletteKMeans.AssignPass | js/palette.js:146-163 | zeroing and the assignment loop leave the accumulators and weights of one assignment pass |
| PaletteKMeans.ZeroPass | js/palette.js:146 | the zeroing loop clears every accumulator and weight |
| PaletteKMeans.AddPoint | js/palette.js:158-162 | adding a point changes only its cluster's accumulator, and the weights stay in step |
| PaletteKMeans.UpdatePass | js/palette.js:166-175 | the update loop moves the centroids as `Update` says |
| PaletteKMeans.RunNext | js/palette.js:144-176 | one more iteration is an assignment pass followed by an update |
| PaletteKMeans.Iterate | js/palette.js:144-176 | the `iters` rounds leave the centroids and weights of `Run` |
| PaletteKMeans.Round | js/palette.js:145-175 | one round assigns against the old centroids, then moves them |
| PaletteKMeans.KMeansWeighted | js/palette.js:135-186 | `kmeansWeighted` returns the colours `KMeans` describes |
| BgGrid.DivModUnique | js/bgremove.js:203 | `p % w` and `(p / w) \| 0` are the only column and row with p = row·w + column |
| BgGrid.IdxCoords | js/bgremove.js:203 | an in-image pixel's cell `y*w + x` is in [0, w·h), and its column and row come back from it |
| BgGrid.CellCoords | js/bgremove.js:203 | every mask cell is the cell of the pixel at its column and row |
| BgGrid.NextRow | js/bgremove.js:206-207 | one row down is w cells on |
| BgGrid.NbrsSpec | js/bgremove.js:203-207 | the four guarded neighbours of a cell are exactly the in-image cells one step away horizontally or vertically |
| BgGrid.NbrsAdjacent | js/bgremove.js:204-207 | every guarded neighbour is an in-image adjacent cell |
| BgGrid.StepAdjacent | js/bgremove.js:133-136 | a unit step that stays in the image lands on an adjacent cell |
| BgGrid.AdjacentNbrs | js/bgremove.js:204-207 | every in-image adjacent cell is a guarded neighbour |
| BgGrid.NbrsSymmetric | js/bgremove.js:204-207 | the neighbour relation is symmetric |
| BgBorder.Dist2 | js/bgremove.js:56-61 | the squared ΔE76 distance is non-negative |
| BgBorder.NearIsDeltaE | js/bgremove.js:56-61 | the square-root-free background test agrees with `deltaE76(lab, bg) <= threshold` |
| BgBorder.NearSymmetric | js/bgremove.js:56-61 | the test is symmetric, and a pixel of exactly the background colour passes for every non-negative threshold |
| BgBorder.Classify | js/bgremove.js:153-160 | one entry per pixel, true exactly when the pixel is within the threshold of the background |
| BgBorder.Scan | js/bgremove.js:71-79 | every cell sampled before pixel (x, y) comes before it in scan order |
| BgBorder.BorderCells | js/bgremove.js:71-79 | every sampled cell is a pixel of the image |
| BgBorder.ScanMember | js/bgremove.js:71-79 | a pixel is sampled before (x, y) exactly when it is on the border and comes earlier in scan order |
| BgBorder.ScanIncreasing | js/bgremove.js:71-79 | the scan visits cells in strictly increasing order |
| BgBorder.BorderCellsSpec | js/bgremove.js:71-79 | a pixel is sampled exactly when it lies within borderSize of an edge; each sample is in the image and none comes twice |
| BgBorder.ScanStep | js/bgremove.js:73-77 | one scan step pushes the colour of the pixel exactly when it is on the border |
| BgBorder.LabsSnoc | js/bgremove.js:66-68 | pushing a cell appends its Lab colour |
| BgBorder.BorderLabs | js/bgremove.js:64-79 | the nested border loops push the Lab colours of the border cells in row-major order |
| BgBorder.BorderRow | js/bgremove.js:72-78 | one row of the loop extends the samples by that row's border pixels |
| BgBorder.Insert | js/bgremove.js:83 | insertion adds exactly the new value |
| BgBorder.InsertSorted | js/bgremove.js:83 | inserting into an ascending list keeps it ascending |
| BgBorder.Sort | js/bgremove.js:83 | the numeric sort is a permutation |
| BgBorder.SortSorted | js/bgremove.js:83 | the numeric sort is ascending |
| BgBorder.SortedUnique | js/bgremove.js:83 | two ascending lists of the same values are equal, so the sort's result depends only on the values |
| BgBorder.SortedFirst | js/bgremove.js:83 | the first element of an ascending list is its least value |
| BgBorder.Median | js/bgremove.js:82-86 | definition, no contract; its properties are stated by BgBorder.MedianPermutation, MedianBounds, MedianSampled and MiddleSplits |
| BgBorder.MedianPermutation | js/bgremove.js:82-86 | the median depends only on the multiset of values, not on their order |
| BgBorder.MedianBounds | js/bgremove.js:82-86 | the median lies within any bounds that hold for all values |
| BgBorder.MedianSampled | js/bgremove.js:85 | with an odd count the median is one of the samples |
| BgBorder.MiddleSplits | js/bgremove.js:84-85 | at least half of the sorted samples lie at or below the median and at least half at or above |
| BgBorder.Column | js/bgremove.js:83 | `arr.map(v => v[comp])` takes component comp of each sample, in order |
| BgBorder.BackgroundLab | js/bgremove.js:87-93 | definition, no contract; its properties are stated by BgBorder.UniformBorder, BackgroundWithinBorder and BackgroundOrderFree |
| BgBorder.UniformBorder | js/bgremove.js:87-93 | a border of one colour gives that colour as the background |
| BgBorder.ColumnConstant | js/bgremove.js:82-86 | the median of a constant column is the constant |
| BgBorder.BackgroundWithinBorder | js/bgremove.js:87-93 | each background component lies between the least and greatest value of that component on the border |
| BgBorder.BackgroundOrderFree | js/bgremove.js:87-93 | the background colour does not depend on the order of the border samples |
| BgBorder.ColumnPermute | js/bgremove.js:83 | reordering the samples reorders each component column the same way |
| BgBorder.Matching | js/bgremove.js:83 | the last sample has a partner in any reordering, and the remainders are reorderings of each other |
| BgBorder.ColumnRemove | js/bgremove.js:83 | a column is the column without element j plus that element's component |
| BgFill.Threshold | js/bgremove.js:153-160 | one mask value per pixel, from the colour test alone |
| BgFill.Range | js/bgremove.js:121-126 | the values a seeding `for` loop runs through, in order |
| BgFill.AtRow | js/bgremove.js:124-126 | one seeding attempt per x of a row, in order |
| BgFill.AtColumn | js/bgremove.js:120-122 | one seeding attempt per y of a column, in order |
| BgFill.SeededAsWritten | js/bgremove.js:107-117 | the as-written seeding enqueues at most one coordinate per attempt |
| BgFill.SeededAll | js/bgremove.js:107-117 | when every attempt passes the test, the as-written seeding enqueues all of them, already-seeded pixels included |
| BgFill.SideAttemptsSpec | js/bgremove.js:120-123 | the left/right loops make 2·b attempts per row, all in the image when b <= w |
| BgFill.EdgeAttemptsSpec | js/bgremove.js:124-127 | the top/bottom loops make 2·b attempts per column, all in the image when b <= h |
| BgFill.AttemptsSpec | js/bgremove.js:119-127 | with b <= w and b <= h there are 2·b·h + 2·b·w attempts, every one an in-image pixel |
| BgFill.UniformSeedCount | js/bgremove.js:100-127 | on an all-background image the as-written seeding enqueues 2·b·(w + h) coordinates, corner pixels twice |
| BgFill.AttemptsSeed | js/bgremove.js:107-117 | on an all-background image every in-image attempt seeds |
| BgFill.Repeats | js/bgremove.js:104-106 | the number of queue entries that repeat an earlier entry, never more than the entries |
| BgFill.SeedCountBound | js/bgremove.js:104-127 | for any image and any border no wider or taller than it, the as-written seeding enqueues at most 2·b·(w + h) coordinates |
| BgFill.SeedRepeats | js/bgremove.js:104-127 | for any image and a border at most half its width and height, the attempts repeat exactly (2·b)² pixels, and the as-written seeding enqueues at most (2·b)² repeated coordinates |
| BgFill.FilterRepeats | js/bgremove.js:107-117 | dropping the attempts that do not pass the test never adds a repeat |
| BgFill.SideMember | js/bgremove.js:120-123 | the left/right loops over n rows attempt exactly the pixels of those rows within b of the left or right edge |
| BgFill.EdgeMember | js/bgremove.js:124-127 | the top/bottom loops over n columns attempt exactly the pixels of those columns within b of the top or bottom edge |
| BgFill.SideRepeats | js/bgremove.js:120-123 | with 2·b <= w the left/right loops attempt no pixel twice |
| BgFill.EdgeRepeats | js/bgremove.js:119-127 | after the first n columns of the top/bottom loops, the repeats are the 2·b attempts of each of those columns lying in the left or right band |
| BgFill.UniformSeedsOverrun | js/bgremove.js:100-127 | on a uniform 2b×2b image the seeding alone enqueues twice as many coordinates as the `w*h` queues hold |
| BgFill.FloodFill.constructor | js/bgremove.js:98-102 | fresh arrays: nothing visited, nothing queued |
| BgFill.FloodFill.Mark | js/bgremove.js:112-115 | an unvisited cell gets its test value in the mask, becomes visited, and is queued exactly when it is background; the queue never exceeds w·h because queued cells are distinct visited cells |
| BgFill.FloodFill.AttemptSeed | js/bgremove.js:107-117 | `attemptSeed` with a visited check added, which keeps the queue invariant |
| BgFill.FloodFill.Seed | js/bgremove.js:119-127 | the seeding loops keep the invariant: distinct queued cells, all visited, every visited cell holding its test value |
| BgFill.FloodFill.Grow | js/bgremove.js:130-151 | the fill loop ends with an empty queue, keeping the invariant |
| BgFill.FloodFill.Sweep | js/bgremove.js:153-160 | after the sweep every cell holds its colour-test value |
| BgFill.FillMask | js/bgremove.js:95-160 | seeding, fill and sweep give exactly the per-pixel threshold mask |
| BgMorph.WindowInGrid | js/bgremove.js:165-170 | every window cell of an interior pixel is in the image |
| BgMorph.Window | js/bgremove.js:168-173 | the nine window values of an interior pixel |
| BgMorph.FoldSpec | js/bgremove.js:167-173 | the erode loop gives the least window value (255 if all are larger) and the dilate loop the greatest (0 if all are smaller), and the result is the start value or one of the values |
| BgMorph.Morphed | js/bgremove.js:163-179 | a pass keeps the mask length |
| BgMorph.MorphedInterior | js/bgremove.js:165-176 | on a 0/255 mask an interior cell becomes the minimum (erode) or maximum (dilate) of its 3×3 window, a value some window cell has |
| BgMorph.MorphedRing | js/bgremove.js:164-178 | the outermost ring of cells is 0 after every pass, because `out` starts zeroed and the loops skip it |
| BgMorph.MorphedBinary | js/bgremove.js:163-179 | a pass keeps a mask 0/255 |
| BgMorph.MorphedCentre | js/bgremove.js:168-175 | on interior cells erode never raises and dilate never lowers a cell's value |
| BgMorph.Cycle | js/bgremove.js:182-187 | an opening + closing cycle keeps the mask length |
| BgMorph.Cycles | js/bgremove.js:181-188 | n cycles keep the mask length |
| BgMorph.CyclesSpec | js/bgremove.js:181-188 | cycles keep the mask 0/255, and after at least one cycle the outer ring is background |
| BgMorph.WindowExtreme | js/bgremove.js:167-174 | the `ky`/`kx` loops compute the min/max fold of the window |
| BgMorph.RowGap | js/bgremove.js:165-166 | the cells the loops skip between rows are ring cells, left at 0 |
| BgMorph.MorphRow | js/bgremove.js:166-176 | the x loop writes the window value of each interior cell of row y |
| BgMorph.AfterLastRow | js/bgremove.js:165 | cells from the last row on are ring cells, left at 0 |
| BgMorph.MorphPass | js/bgremove.js:163-179 | `morphPass` replaces the mask by the morphed mask |
| BgMorph.Morphology | js/bgremove.js:181-188 | the morphology loop applies max(morphPasses, 0) cycles |
| BgArtifacts.Region | js/bgremove.js:196-208 | a region holds only cells of the mask |
| BgArtifacts.PathCells | js/bgremove.js:204-207 | every cell of a neighbour path is a foreground cell |
| BgArtifacts.RegionHasSelf | js/bgremove.js:198 | a foreground cell lies in its own region |
| BgArtifacts.RegionForeground | js/bgremove.js:204-207 | a region holds only foreground cells, and is empty when its cell is background |
| BgArtifacts.Extend | js/bgremove.js:204-207 | a foreground neighbour of a region cell is in the region |
| BgArtifacts.Reverse | js/bgremove.js:204-207 | reachability is symmetric |
| BgArtifacts.StepBack | js/bgremove.js:204-207 | a step between foreground cells can be taken back |
| BgArtifacts.Chain | js/bgremove.js:204-207 | reachability is transitive |
| BgArtifacts.SameRegion | js/bgremove.js:194-213 | every cell of a region has that same region, so the regions partition the foreground |
| BgArtifacts.ClosedHoldsRegion | js/bgremove.js:201-208 | a set closed under foreground steps that holds p holds p's whole region |
| BgArtifacts.PathInClosed | js/bgremove.js:201-208 | a path starting in a closed set stays in it |
| BgArtifacts.Cleaned | js/bgremove.js:190-214 | the cleaned mask keeps the mask length |
| BgArtifacts.CleanedBinary | js/bgremove.js:209-212 | island removal keeps a 0/255 mask 0/255 |
| BgArtifacts.CleanedOnlyClears | js/bgremove.js:209-212 | only foreground cells change, and only to background; a foreground cell that remains has a region of at least smallArtifactPx cells |
| BgArtifacts.CleanedOneKeeps | js/bgremove.js:209 | a limit of 1 or less removes nothing |
| BgArtifacts.PathTransfer | js/bgremove.js:204-207 | a path whose cells stay foreground stays a path |
| BgArtifacts.PathInRegion | js/bgremove.js:204-207 | every cell along a path from p is in p's region |
| BgArtifacts.CleanedRegion | js/bgremove.js:190-214 | a surviving cell keeps its whole region |
| BgArtifacts.CleanedIdempotent | js/bgremove.js:190-214 | running island removal again changes nothing |
| BgArtifacts.SearchStart | js/bgremove.js:197-198 | queuing p0 and marking it seen starts a valid search |
| BgArtifacts.Offer | js/bgremove.js:204-207 | one neighbour test queues an unseen foreground neighbour, keeps earlier queue entries and seen marks, and leaves the neighbour seen if it is a foreground step |
| BgArtifacts.SearchAdd | js/bgremove.js:204-207 | queuing an unseen foreground neighbour keeps the search invariant, and the queue has room |
| BgArtifacts.Measure | js/bgremove.js:196-208 | the search from p0 returns p0's region with no cell twice, and marks seen exactly the earlier seen cells plus that region |
| BgArtifacts.Neighbours | js/bgremove.js:203-207 | the four tests on a dequeued cell keep the search invariant with that cell done |
| BgArtifacts.NbrsCases | js/bgremove.js:204-207 | the four guarded tests look at exactly the grid neighbours |
| BgArtifacts.OfferedStep | js/bgremove.js:204-207 | seeing more cells keeps earlier tests done, and a test is done once its neighbour is seen |
| BgArtifacts.Covered | js/bgremove.js:204-207 | after the four tests every foreground neighbour is seen |
| BgArtifacts.SeenApart | js/bgremove.js:195 | a cell outside a closed seen set has no seen cell in its region |
| BgArtifacts.SearchNext | js/bgremove.js:201-202 | a dequeued cell whose foreground neighbours are all seen counts as done |
| BgArtifacts.SearchDone | js/bgremove.js:201-208 | an exhausted queue holds exactly p0's region |
| BgArtifacts.SweptUntouched | js/bgremove.js:194-195 | during the scan unseen cells keep their values and the seen set is closed |
| BgArtifacts.SweptStart | js/bgremove.js:192-194 | the scan starts with nothing seen and the mask as it was |
| BgArtifacts.SweptEnd | js/bgremove.js:194-213 | after the last cell the mask is the cleaned mask |
| BgArtifacts.CleanedNothing | js/bgremove.js:191 | with smallArtifactPx <= 0 the mask is already clean |
| BgArtifacts.SweptSkip | js/bgremove.js:195 | a seen or background cell needs no search |
| BgArtifacts.SweptRegion | js/bgremove.js:196-212 | searching a region and clearing it when small advances the scan |
| BgArtifacts.Clear | js/bgremove.js:211 | the listed cells become background and the others keep their values |
| BgArtifacts.Visit | js/bgremove.js:195-212 | one turn of the scan keeps the scan invariant |
| BgArtifacts.RemoveSmallArtifacts | js/bgremove.js:190-214 | step 4 turns the mask into the cleaned mask, and leaves it alone when smallArtifactPx <= 0 |
| BgRemove.Resolve | js/bgremove.js:5-12 | definition, no contract; its properties are stated by BgRemove.ResolveSpec |
| BgRemove.ResolveSpec | js/bgremove.js:5-12 | without options the defaults are ΔE 28, feather 2, border 4, one morphology pass, no island removal, no debug; given options are used as given |
| BgRemove.ApplyAlpha | js/bgremove.js:216-219 | each pixel's alpha becomes its mask value (clamped to a byte) and the colour bytes stay |
| BgRemove.MaskImage | js/bgremove.js:232-247 | the debug image shows mask value v as the grey pixel (v, v, v, 255) |
| BgRemove.FinalMask | js/bgremove.js:63-214 | one mask value per pixel |
| BgRemove.FinalBinary | js/bgremove.js:95-214 | the final mask is 0/255 everywhere, so the alpha is the mask itself |
| BgRemove.FinalRing | js/bgremove.js:162-188 | with at least one morphology pass the outermost ring of pixels ends transparent, whatever the image |
| BgRemove.FinalPlain | js/bgremove.js:95-160 | without morphology and island removal a pixel stays opaque exactly when its colour is farther than the threshold from the border's median colour |
| BgRemove.RemoveBackground | js/bgremove.js:4-250 | the colour bytes stay, the alpha is the final 0/255 mask, and a grey mask image is returned exactly when debug is set |
| Studio.Doubled | js/studio.js:356 | each character of the three-digit form is written twice, in place: twice the length, characters 2i and 2i+1 both equal character i |
| Studio.ReadSix | js/studio.js:357-362 | a colour exactly for `#` and six hex digits in either case, and then every channel lies in 0..255 |
| Studio.ParseHexForStudio | js/studio.js:353-363 | null exactly for the empty text or one that is not `#` and six hex digits once the `#` is added and a three-digit form expanded; a result is a valid colour |
| Studio.StudioAgrees | js/studio.js:353-363 | on text without surrounding whitespace the studio's parser and `hexToRgb` accept the same texts and read the same colour |
| Studio.ShortAgrees | js/studio.js:356 | `#abc` is read as `#aabbcc`, the colour `hexToRgb` reads from `abc` |
| Studio.LongAgrees | js/studio.js:357-362 | `#rrggbb` is read as `hexToRgb` reads `rrggbb` |
| Studio.StudioHexRoundTrip | js/studio.js:353-363 | every colour written by `rgbToHex` is read back unchanged |
| Studio.HashTextTrimmed | js/studio.js:327 | a `#rrggbb` text is left alone by `trim()` |
| Studio.Tolerance | js/studio.js:331 | the tolerance always lies in 0..255, and an empty or non-numeric field gives 0 |
| Studio.ToleranceOfNumber | js/studio.js:331 | a typed number is used as entered inside 0..255 and clamped to the nearest end outside it |
| Studio.Within | js/studio.js:344-346 | definition, no contract; its properties are stated by Studio.WithinIsEuclidean, Studio.Keyed and Studio.TargetKeyed |
| Studio.WithinIsEuclidean | js/studio.js:344-346 | the integer test on the squared distance agrees with `Math.sqrt(dr²+dg²+db²) <= tol` for the non-negative root |
| Studio.Keyed | js/studio.js:343-346 | colour channels unchanged; alpha 0 exactly when the pixel is within the tolerance of the target, otherwise unchanged |
| Studio.TargetKeyed | js/studio.js:346 | a pixel of exactly the target colour always becomes transparent, whatever non-negative tolerance |
| Studio.KeyOut | js/studio.js:342-347 | every pixel of the buffer is replaced by its keyed form and nothing else changes |
| Studio.ColorToTransparency | js/studio.js:324-351 | the target is the trimmed, lower-cased field parsed by `parseHexForStudio`; when it is invalid the pixels are untouched, otherwise every pixel is keyed with the clamped tolerance |
| Studio.Adjustments.constructor | js/studio.js:229 | all five adjustments start at 0 |
| Studio.Adjustments.ApplyPreset | js/studio.js:221-227 | grayscale sets saturation -100 and hue 0, sepia 10 and 18, invert hue 180, sharpen contrast 20, each leaving the other fields; any other button changes nothing |
| Studio.Adjustments.Clear | js/studio.js:229 | every adjustment back to 0 |
| Studio.NonEmpty | js/studio.js:131 | `.filter(Boolean)` keeps no empty text and never lengthens the list |
| Studio.IntToStringNoSpace | js/studio.js:126-130 | a formatted number holds no space, so the space separator is unambiguous |
| Studio.MakeFilter | js/studio.js:125-131 | definition, no contract; its properties are stated by Studio.FilterSplits, FilterSplitsEntries and EntriesShape |
| Studio.FilterSplits | js/studio.js:125-131 | splitting the CSS filter on spaces gives back brightness, contrast and saturate at `100 + adj` percent, hue-rotate in degrees, and a blur entry exactly when blur is positive |
| Studio.FilterSplitsEntries | js/studio.js:125-131 | joining the non-empty entries with spaces and splitting again returns the four fixed entries and the blur entry when present |
| Studio.EntriesShape | js/studio.js:125-130 | the four fixed entries are never empty and the blur entry is empty exactly when blur is not positive |
| Studio.EntriesSpaceless | js/studio.js:125-130 | no entry holds a space |
| Studio.WrapSpaceless | js/studio.js:126-130 | a number between two space-free texts forms a space-free entry |
| Studio.Capped | js/studio.js:269-270 | definition, no contract; its properties are stated by Studio.Latest, LatestStep, SavesKeepLatest and Studio.UndoStack.Save |
| Studio.Latest | js/studio.js:269-270 | the last min(n, length) snapshots |
| Studio.SavesKeepLatest | js/studio.js:264-271 | starting within the limit, any run of saves leaves exactly the 30 most recent snapshots, oldest dropped first |
| Studio.LatestStep | js/studio.js:269-270 | one capped push followed by more pushes keeps the same latest 30 as pushing everything |
| Studio.UndoStack.constructor | js/studio.js:115 | the undo stack starts empty |
| Studio.UndoStack.Save | js/studio.js:264-271 | without an image the stack is unchanged; otherwise the snapshot is pushed and the oldest dropped past 30, so a stack within the limit stays within it |
| Studio.UndoStack.Clear | js/studio.js:188 | loading a file empties the stack |
| Studio.ResizeDim | js/studio.js:163-164 | the new dimension is at least 1, and an empty or non-numeric field keeps the image's own dimension |
| Studio.ResizeDimTyped | js/studio.js:163-164 | a positive typed size is used as entered, 0 falls back to the image's dimension and a negative size gives 1 |
| Frames.WhiteishBand | js/frames.js:136 | near-white is the band: darkest channel above 220 and spread between channels below 8 |
| Frames.Recolored | js/frames.js:135-138 | alpha kept; a near-white pixel takes the target's channels (clamped as the byte buffer stores them), any other pixel is unchanged |
| Frames.RecoloredIdempotent | js/frames.js:132-140 | recolouring twice with the same target equals recolouring once |
| Frames.RecolorWhiteish | js/frames.js:132-140 | every pixel of the buffer is replaced by its recoloured form |
| Frames.KeyedExact | js/frames.js:145 | colour kept; alpha 0 exactly on an exact match of all three channels, otherwise unchanged |
| Frames.ExactIsZeroTolerance | js/frames.js:145 | exact keying is the studio's colour-to-transparency test at tolerance 0 |
| Frames.MakeColorTransparent | js/frames.js:142-147 | every pixel of the buffer is replaced by its exactly keyed form |
| Frames.KeyBase | js/frames.js:157-166 | with the key fields all 0 or empty nothing changes, so black is never keyed; otherwise every exact match of the key becomes transparent |
| Frames.RecolorFrame | js/frames.js:185-194 | unchecked leaves the frame as it is; checked recolours every near-white pixel to the typed target |
| Frames.KeyOutOfRange | js/frames.js:145 | a key with a channel outside 0..255 matches no pixel |
| Frames.FrameHeight | js/frames.js:81-87 | the derived height is at least 1 |
| Frames.FrameHeightAspect | js/frames.js:170-172 | the derived height is within half a pixel of width × natural height ÷ natural width whenever that is at least one half, rounding exact halves up |
| Frames.FrameHeightNatural | js/frames.js:170-172 | at the frame's natural width the height is its natural height |
| Frames.Scaled | js/frames.js:176-177 | a scaled size is at least 1 |
| Frames.ScaledFull | js/frames.js:176-177 | at 100% a positive size is kept |
| Frames.Offset | js/frames.js:199-200 | definition, no contract; its properties are stated by Frames.OffsetCentred and Frames.OffsetShifts |
| Frames.OffsetCentred | js/frames.js:199-200 | with no typed offset the overlay is centred, twice the offset plus its size being the canvas size or one more |
| Frames.OffsetShifts | js/frames.js:199-200 | a typed offset moves the centred position by exactly that many pixels |
| Frames.Opacity | js/frames.js:198 | the opacity lies in 0..1, and an empty or non-numeric field gives 0.33 |
| Frames.Layout | js/frames.js:168-200 | the derived height, the drawn width and height are at least 1 and the opacity lies in 0..1 |
| Frames.LayoutDefaults | js/frames.js:168-200 | with every field empty the frame is drawn at its natural size scaled to 33%, centred, at opacity 0.33 |
| Analyze.BinKey | js/analyze.js:116 | the key fits in 24 bits |
| Analyze.BinFields | js/analyze.js:116 | the shifts and OR of three fields below 256 equal the weighted sum the model uses |
| Analyze.BinKeySpec | js/analyze.js:116 | each channel falls in one of eleven bands of 24, the key gives the three bands back, and two colours share a key exactly when their bands agree |
| Analyze.Unpack | js/analyze.js:116 | three fields below 256 are recovered from their packed value |
| Analyze.Keys | js/analyze.js:113-116 | one key per pixel |
| Analyze.Translucent | js/analyze.js:118 | the count of non-opaque pixels never exceeds the pixel count |
| Analyze.Counts | js/analyze.js:113-119 | definition, no contract; its properties are stated by Analyze.CountsTally, CountBins, BinsTotal and ColorsBound |
| Analyze.CountsTally | js/analyze.js:113-119 | counting pixel after pixel leaves the map holding exactly the keys of the pixels, each with its number of pixels |
| Analyze.CountBins | js/analyze.js:113-119 | the bins hold, for every key present, the number of pixels with it, and the alpha count is the number of pixels with alpha below 255 |
| Analyze.TallyStep | js/analyze.js:117 | `bins.set(key, (bins.get(key) \|\| 0) + 1)` counts one more pixel under that key and keeps every other count |
| Analyze.BinsTotal | js/analyze.js:113-121 | the counts add up to the number of pixels and each bin counts between 1 and that many |
| Analyze.MultiplicityBound | js/analyze.js:117 | no key is counted more often than there are pixels |
| Analyze.ColorsBound | js/analyze.js:121 | the colour count is the number of distinct keys, at most the number of pixels |
| Analyze.SetOfSeq | js/analyze.js:121 | the distinct keys are no more than the keys |
| Analyze.HeuristicMonotone | js/analyze.js:140-143 | fewer colours and less entropy never give a less professional label |
| Analyze.Heuristic | js/analyze.js:140-143 | definition, no contract; its properties are stated by Analyze.HeuristicCases and Analyze.HeuristicMonotone |
| Analyze.HeuristicCases | js/analyze.js:140-143 | Professional exactly at ≤100 colours and entropy ≤7.5, Possibly Professional exactly otherwise within ≤200 and ≤8.5, Colorful/Organic exactly above 200 colours or 8.5 bits |
| Analyze.LastPart | js/analyze.js:131 | definition, no contract; its properties are stated by Analyze.SplitLast and Analyze.FormatOfExtension |
| Analyze.FormatLabel | js/analyze.js:131 | definition, no contract; its properties are stated by Analyze.FormatOfExtension, FormatWithoutDot and NoDotExcluded |
| Analyze.FormatOfExtension | js/analyze.js:131 | a name `stem.ext` with no '.' in ext is labelled with ext upper-cased, whatever dots the stem holds |
| Analyze.FormatWithoutDot | js/analyze.js:131 | a name without '.' is labelled '—' |
| Analyze.NoDotExcluded | js/analyze.js:131 | `includes('.')` is false on a text without '.' |
| Analyze.SplitLast | js/analyze.js:131 | the last piece of `split('.')` is what follows the last '.' |
| Presets.Keep | js/presets.js:94-99 | definition, no contract; its properties are stated by Presets.FilterMembers, FilterShowsAll and JoinedColoursMatchAcross |
| Presets.Filter | js/presets.js:94-100 | definition, no contract; its properties are stated by Presets.FilterMembers and Presets.FilterOrder |
| Presets.FilterMembers | js/presets.js:94-100 | a preset is shown exactly when it is in the library and passes both the category and the search test |
| Presets.FilterOrder | js/presets.js:96-100 | the shown presets keep their library order |
| Presets.FilterShowsAll | js/presets.js:94-100 | with All selected and an empty search every preset is shown |
| Presets.JoinedColoursMatchAcross | js/presets.js:98 | colours are joined with no separator, so a query spanning two colours matches |
| Presets.First | js/presets.js:84 | the index of the first occurrence of a value |
| Presets.Distinct | js/presets.js:84 | definition, no contract; its properties are stated by Presets.DistinctSpec and Presets.DistinctExtend |
| Presets.DistinctSpec | js/presets.js:84 | `[...new Set(xs)]` holds every value of xs, none twice, in order of first appearance |
| Presets.DistinctExtend | js/presets.js:84 | a value not seen before goes last, after every earlier first appearance |
| Presets.CategoryMenu | js/presets.js:84 | definition, no contract; its properties are stated by Presets.CategoryMenuSpec |
| Presets.CategoryMenuSpec | js/presets.js:84-100 | every library category has one menu option and nothing else does, and each option filters to at least one preset with an empty search |
| Presets.SharedPalette.constructor | js/presets.js:118 | the shared palette starts empty |
| Presets.SharedPalette.Choose | js/presets.js:111-119 | the shared palette becomes a copy of the preset's colours, the first colour is the generators' base, and the clipboard gets the JSON list of colours |
| Gradient.Angle | js/gradient.js:48 | definition, no contract; its properties are stated by Gradient.FieldDefaults and Gradient.AngleUse |
| Gradient.Stop1 | js/gradient.js:48 | definition, no contract; its properties are stated by Gradient.FieldDefaults |
| Gradient.Stop2 | js/gradient.js:48 | definition, no contract; its properties are stated by Gradient.FieldDefaults |
| Gradient.StopList | js/gradient.js:50-52 | definition, no contract; its properties are stated by Gradient.CssCloses and Gradient.FieldDefaults |
| Gradient.HeadFor | js/gradient.js:50-52 | definition, no contract; its properties are stated by Gradient.CssKind and Gradient.KindOpening |
| Gradient.Head | js/gradient.js:48-52 | definition, no contract; its properties are stated by Gradient.CssKind and Gradient.AngleUse |
| Gradient.Css | js/gradient.js:47-53 | definition, no contract; its properties are stated by Gradient.CssKind, CssCloses, AngleUse and FieldDefaults |
| Gradient.CssKind | js/gradient.js:50-53 | the value is a linear gradient exactly for type linear, a circular radial gradient exactly for radial, and a conic gradient exactly for any other type |
| Gradient.KindOpening | js/gradient.js:50-53 | the opening of each type is distinguishable whatever follows it |
| Gradient.Prefixed | js/gradient.js:51-53 | a text built on an opening starts with that opening |
| Gradient.CssCloses | js/gradient.js:48-54 | every value ends with its closing parenthesis |
| Gradient.Framed | js/gradient.js:64 | text framed by a prefix and a suffix starts and ends with them |
| Gradient.Unprefixed | js/gradient.js:51-53 | a text starting with an opening begins with its first character |
| Gradient.AngleUse | js/gradient.js:49-53 | the angle field has no effect on a radial gradient, and on the others only through its parsed value |
| Gradient.FieldDefaults | js/gradient.js:49 | an empty or non-numeric angle or first stop counts as 0, an empty, non-numeric or zero second stop as 100, any other number as entered |
| Gradient.CopyText | js/gradient.js:64 | definition, no contract; its properties are stated by Gradient.CopyTextSpec |
| Gradient.CopyTextSpec | js/gradient.js:64 | the clipboard text is `background: ` then the gradient value then `;` |
| Gradient.ApplyPreset | js/gradient.js:80 | definition, no contract; its properties are stated by Gradient.PresetGradient |
| Gradient.PresetGradient | js/gradient.js:80 | after a preset click the gradient is the preset's linear gradient at its angle with the stops unchanged |

## Left out

- Floating-point colour science is not modelled: sRGB→linear→XYZ→Lab (IEC 61966-2-1 sRGB with a D65 white) and the CIE 1976 ΔE (js/bgremove.js:28-61). The conversion is a parameter (`BgBorder.LabMath`), and the threshold test is stated exactly over real numbers.
- `rgbToHsl` and `hexFromHsl` (js/color.js) are parameters (`Color.Conversions`). The harmony list is proved correct for any such functions.
- Entropy (js/analyze.js:124-127) uses float `Math.log2`, so it is a parameter of `Analyze.Heuristic`.
- The transparency percentage and the file-size and dimension lines of the analyser report are formatting only and are not modelled.
- Feathering (js/bgremove.js:223-230) is a canvas `blur` filter plus compositing, so it is not modelled. `BgRemove.RemoveBackground` returns the alpha before feathering.
- Canvas drawing is not modelled: `drawImage`, `getImageData`/`putImageData`, `toDataURL`, rotation, flips and the drawing of the resized image. The models start and end with the RGBA bytes or the numbers these calls consume.
- `FileReader`, image `onload` callbacks, the clipboard, `alert`, DOM construction and event wiring are not modelled. Clipboard text and field values are modelled as strings that go in or come out.
- The Undo and Redo buttons (js/studio.js:273-283) and the redo stack are left out by choice. Only `saveUndo`, its cap and the clearing on file load are modelled. The stack updates of both buttons are synchronous: `commitFromCanvas` calls `saveUndo` before anything else (js/studio.js:154-155), and only the decoding of the new image waits for `onload`. The proved cap (Studio.UndoStack.Save, Studio.SavesKeepLatest) covers runs of saves, not these buttons.
  - Undo pops one entry, and `saveUndo` then pushes the current image back. A full stack stays at 30, and pressing Undo again switches between the same two images.
  - Redo pushes a snapshot with no cap (js/studio.js:281), then `saveUndo` pushes again and drops only one entry. From a full stack, k undos followed by k redos leave 30 + k entries. This is a reading of the code; it was not executed.
- The studio's aspect-ratio lock on the resize fields (js/studio.js:238-239) and `fitToContainer` are float layout over DOM sizes, so they are not modelled.
- `Math.random` draws are a supplied sequence of reals in [0, 1). This covers `kppInitWeighted`'s draws. `randomHex` in the gradient maker and the preset shuffle are left out. The preset library `LIB` is a parameter.
- `image.naturalWidth || image.width` is not modelled: the remover takes the image's width and height as given.
- Color.ExportText: the `extended` format (js/color.js:462-482) computes float CMYK, HSB and Lab, so the function requires a different format.
- Color.OffsetsFor: a mode that names an inherited object property, such as `constructor` or `toString`, makes `({…})[mode] || [0]` (js/color.js:87-95) yield a function, and the caller then throws. The model gives `[0]` instead. The mode menu never sends such a value.
- Frames.Layout: `hInp.value` is not written back, because it is a DOM field. The derived height is returned as `inputH`. Its derived height and its drawn width and height inherit the one-pixel difference described for Frames.FrameHeight and Frames.Scaled.
- Frames.FrameHeight: `Math.round(w / (nw / nh))` rounds a double, and the model rounds the exact rational `w * nh / nw` with halves going up. When that rational is an exact half the double can fall just below it: for natural width 2, natural height 75 and width 3 the browser gives 112 and the model 113. Away from exact halves the two agree.
- Frames.FrameHeightAspect: its half-pixel bound is about the exact rational, so at an exact half it describes the model's 113 and not the browser's 112 (same input as above).
- Frames.Scaled: `Math.round(size * (percent / 100))` multiplies by a double that is not exact for most percentages, so at an exact half the model can be one more: 50 px at 29% gives 14 in the browser and 15 in the model. Up to 100% the percentages 29, 35, 41, 47, 57, 58, 69, 70, 82 and 94 can do this, and larger ones such as 113, 138 and 163 can too; the default 33 does not.
- Js.ToLower: only ASCII letters are mapped. JavaScript's `toLowerCase` also maps other letters ('É' to 'é', the Kelvin sign U+212A to 'k'), and U+0130 lower-cases to two code units, so the length can change. Presets.Keep (the search box) is therefore exact only for ASCII names and searches. Color.NormalizeHex is unaffected, since no non-ASCII character lower-cases to a hex digit.
- Js.ToUpper: only ASCII letters are mapped. JavaScript's `toUpperCase` also maps other letters ('é' to 'É') and can lengthen the text ('ß' becomes "SS"). Analyze.FormatLabel (the file-type label) is therefore exact only for ASCII extensions.
- BgFill.SeedRepeats: the repeat count is proved for borders at most half the width and the height. A wider border makes the left and right bands, or the top and bottom bands, overlap as well; those repeats are not counted. For example, width 3, height 10 and border 2 give 22 repeats among 52 attempts. SeedCountBound's 2·b·(w + h) bound holds for every border no larger than the image.

## Findings

| source | as written | input that shows it | evidently intended | confidence | as-written member | corrected member |
|---|---|---|---|---|---|---|
| js/bgremove.js:100-127 | `attemptSeed` enqueues a border pixel without checking `visited`. Pixels covered by two seeding loops, such as the corners, are queued twice, so the `w*h`-sized `qx`/`qy` queue is written past its end. Reading the fill loop (js/bgremove.js:129-151), not executing it: writes past an `Int32Array` are dropped, so once `qh` reaches `w*h` the dequeued coordinates are `undefined`. Then `nx` and `ny` are NaN, the bounds guard lets them through, and `(p << 2)` is 0. If pixel 0 passes the test, each such dequeue enqueues four more entries and the loop never ends | a uniform 8×8 image of background colour with the default `borderSize` 4: every border pixel is seeded twice, so 128 entries are queued in a 64-cell queue, and by the reading above the fill then never ends | each pixel enters the queue at most once, so the queue never exceeds `w*h` | not executed | BgFill.UniformSeedsOverrun | BgFill.FillMask |
