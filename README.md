# Palette generation and template recolouring, in Dafny

This project models the core of a wallpaper-driven theming tool:

- **Palette generation** (`src/lib/colors.ts`). One seed colour in the OKLCH
  space (lightness, chroma, hue) gives a fixed-shape scheme:
  - a 25-stop lightness ramp, `base-98` down to `base-02`, that shares the
    seed's chroma (clamped to [0.03, 0.25]) and its hue (normalised to
    [0, 360));
  - error, warning and success accents at fixed hues 29, 109 and 142, each
    with a light (`-70`) and a dark (`-30`) variant.

  The scheme is flattened into the candidate list used for matching, and
  serialised into a dictionary from entry name to `{ oklch, hex }`.
- **Template recolouring** (`src/lib/templates.ts`). A template's text is
  scanned for `#rgb` / `#rrggbb` literals and for `oklch(...)` literals.
  Each literal is decoded to a lightness, and the two kinds are merged into
  start order. Each literal is then replaced by the palette entry nearest in
  lightness, written in the literal's own syntax. Everything between the
  literals is copied through.
- **Wallpaper lookup** (`src/lib/wallpaper.ts`). A depth-first search of a
  parsed JSON configuration for the first string that looks like an image
  path. Inside an object, values under keys mentioning "wallpaper" are
  searched before every other value.

Modules:

| module | file | contents |
|---|---|---|
| `Wrappers` | `wrappers.dfy` | `Option` and `Result` |
| `Ascii` | `ascii.dfy` | ASCII case folding, as the `/i` regular-expression flag applies it |
| `Colors` | `colors.dfy` | seed normalisation, ramp, names, the scheme, its flattening and its dictionary |
| `Templates` | `templates.dfy` | the two literal grammars, the global-regex scan, and the decode loop |
| `Recolor` | `recolor.dfy` | the merge by start, the nearest-entry choice, the rewrite loop, one template end to end |
| `Wallpaper` | `wallpaper.dfy` | the JSON search and its reference definition |

The colour library's conversions are not modelled. They enter as
parameters:

- `Colors.Projection`: the hex and CSS projections of an OKLCH value.
- `Templates.Decoder`: the parse of a literal to its lightness, or `None`
  when it does not parse.

Every property is proved for all such functions.

Three behaviours of the code shape the model:

- **Decoded lightness is not clamped.** The lightness of a literal is
  whatever the colour library's parser returns
  (`src/lib/templates.ts:29`, `src/lib/templates.ts:38`); no bound is
  applied to it before the nearest-entry choice.
- **The two patterns can overlap.** Both patterns match inside
  `oklch(#abc)` (`Recolor.PatternsOverlap`). Only the decoder keeps such
  overlaps out.
  - The layout and length properties of the rewrite are therefore stated
    for matches that lie in order and apart (`Recolor.InOrder`).
  - Soundness and nearest-choice properties hold unconditionally.
- **`\b` applies only after a hex literal.** A `#abc` preceded by a word
  character (as in `x#abc`) is still a match.

## Model

| member | source | states |
|---|---|---|
| Ascii.LowerChar | src/lib/wallpaper.ts:21 | an ASCII capital is lowered by 32 code points; every other character is kept. The same fold serves the `/i` of `OKLCH_RE` (src/lib/templates.ts:18) and of `/wallpaper/i` (src/lib/wallpaper.ts:32) |
| Ascii.Lower | src/lib/wallpaper.ts:21 | the folded text has the same length, and each character is the fold of the original one. It is also the `/i` comparison for src/lib/templates.ts:18 and src/lib/wallpaper.ts:32 |
| Colors.ClampChroma | src/lib/colors.ts:61 | the seed chroma lands in [0.03, 0.25]: unchanged inside, the nearer bound outside |
| Colors.Rem360 | src/lib/colors.ts:62 | JavaScript `% 360` keeps the sign of its operand, lies strictly within (-360, 360) and names the same angle |
| Colors.NormalizeHue | src/lib/colors.ts:62 | the normalised hue lies in [0, 360), names the same angle as the seed hue, and equals it when already in range |
| Colors.NormalizeHueOfSameAngle | src/lib/colors.ts:62 | hues that differ by whole turns normalise to the same value |
| Colors.KeepAtLeast | src/lib/colors.ts:42 | every value the filter keeps is a value of the input and at least the bound; length and completeness are stated by `KeepAtLeastBound` and `KeepAtLeastKeepsAll` |
| Colors.KeepAtLeastBound | src/lib/colors.ts:42 | the stop filter keeps only values at least the bound and never lengthens the list |
| Colors.KeepAtLeastKeepsAll | src/lib/colors.ts:42 | the filter removes nothing when every value passes |
| Colors.LightnessStops | src/lib/colors.ts:42 | every stop is at least 2 |
| Colors.LightnessStopsShape | src/lib/colors.ts:42 | there are exactly 25 stops, `98 - 4i`, strictly decreasing from 98 to 2 |
| Colors.LightnessStopAt | src/lib/colors.ts:42 | stop `i` of the 25 is the tier `98 - 4i` |
| Colors.DecimalStringDigits | src/lib/colors.ts:65 | `String(L)` is a non-empty run of decimal digits |
| Colors.PadStartShape | src/lib/colors.ts:65 | `padStart` yields the string behind fill characters, at least the requested width and no longer than needed |
| Colors.TierName | src/lib/colors.ts:65 | the definition of a ramp name; `TierNameDigits`, `TierNameAllDigits`, `TierNameInjective` and `TierNameStartsWithB` state what it produces |
| Colors.TierNameDigits | src/lib/colors.ts:65 | a tier below 100 is named `base-` followed by exactly its two digits (`base-02`) |
| Colors.TierNameAllDigits | src/lib/colors.ts:65 | every ramp name is `base-` followed by at least two characters, all decimal digits |
| Colors.TierNameInjective | src/lib/colors.ts:64-67 | different tiers below 100 get different names |
| Colors.TierNameStartsWithB | src/lib/colors.ts:65 | every ramp name starts with `b`, unlike every accent name |
| Colors.MakeOklch | src/lib/colors.ts:56-58 | the lightness is the tier on a 0-100 scale scaled to [0, 1]; chroma and hue are kept |
| Colors.OklchToNamed | src/lib/colors.ts:49-54 | an entry keeps its name and colour, and both projections depend on that colour alone |
| Colors.GenerateScheme | src/lib/colors.ts:60-83 | one ramp entry per stop; every ramp entry has chroma in [0.03, 0.25] and hue in [0, 360) |
| Colors.AllSchemeColors | src/lib/colors.ts:101-111 | the candidate list is the ramp followed by six more entries |
| Colors.SchemeBaseEntries | src/lib/colors.ts:64-67 | ramp entry `i` is named `base-(98-4i)` and has lightness `(98-4i)/100`, the clamped seed chroma, the normalised seed hue and both projections of that colour |
| Colors.RampIsStrictlyDecreasing | src/lib/colors.ts:42 | a ramp runs from 0.98 to 0.02 in steps of exactly 0.04 and is strictly decreasing |
| Colors.SchemeRampMonotone | src/lib/colors.ts:42-67 | the generated ramp has 25 entries, strictly decreasing in lightness by 0.04 from 0.98 to 0.02, all with one chroma and one hue |
| Colors.SchemeAccents | src/lib/colors.ts:69-74 | the six accents have names `role-70` / `role-30`, lightness 0.7 / 0.3, hue 29, 109 or 142 and the clamped seed chroma |
| Colors.AccentsIgnoreSeedHue | src/lib/colors.ts:69-74 | seeds with equal chroma get identical accents, whatever their hue and lightness |
| Colors.SchemeDependsOnClampedSeed | src/lib/colors.ts:60-83 | seeds with the same clamped chroma and the same hue angle give the same scheme |
| Colors.PaletteNamesDistinct | src/lib/colors.ts:64-74 | a 31-entry list named like the scheme has no two entries with the same name |
| Colors.GeneratedPalette | src/lib/colors.ts:101-111 | the flattened scheme has 31 entries, the ramp first, then error, warning and success with light before dark, and all names distinct |
| Colors.BaseJson | src/lib/colors.ts:87-89 | the dictionary after the ramp loop has exactly the ramp names as keys |
| Colors.BuildSchemeJson | src/lib/colors.ts:86-95 | the dictionary-building loop produces the dictionary of the whole scheme |
| Colors.BaseJsonLookup | src/lib/colors.ts:87-89 | with distinct names, each ramp name maps to that entry's CSS and hex |
| Colors.SchemeJsonKeys | src/lib/colors.ts:86-95 | the dictionary's keys are exactly the names of the flattened scheme |
| Colors.SchemeJsonOtherKey | src/lib/colors.ts:90-95 | the accent assignments leave every other key as the ramp loop set it |
| Colors.SchemeJsonLookups | src/lib/colors.ts:86-95 | with distinct names, each candidate's name maps to its own CSS and hex |
| Colors.GeneratedSchemeJson | src/lib/colors.ts:84-95 | the serialised scheme has exactly the 31 scheme names as keys, each mapped to that entry's projections |
| Templates.HexLiteralAt | src/lib/templates.ts:17 | one attempt of the hex pattern: a match starts with `#`, is 4 or 7 characters long, lies inside the text and ends at a word boundary; `HexLiteralAtIff` states the grammar exactly |
| Templates.HexLiteralAtIff | src/lib/templates.ts:17 | the hex pattern matches at a position with length n exactly when `#` and 3 or 6 hex digits are there, followed by the end of text or a non-word character |
| Templates.FirstClose | src/lib/templates.ts:18 | the position found is the first `)` at or after the start, or the end of the text |
| Templates.OklchLiteralAt | src/lib/templates.ts:18 | one attempt of the oklch pattern: a match is at least 8 characters long, opens with `oklch(` in any case, lies inside the text and ends with `)`; `OklchLiteralAtIff` states the grammar exactly |
| Templates.OklchLiteralAtIff | src/lib/templates.ts:18 | the oklch pattern matches at a position with length n exactly when `oklch(` in any case, a non-empty body without `)`, and `)` are there |
| Templates.MatchTable | src/lib/templates.ts:24 | trying the pattern at every position yields, where it matches, a positive length that stays inside the text |
| Templates.ScanOrdered | src/lib/templates.ts:24-31 | the spans a global regular expression reports are non-empty, inside the text, in order and pairwise disjoint |
| Templates.ScanIsMatch | src/lib/templates.ts:24-31 | every reported span is the pattern's match at its own start |
| Templates.ScanCovers | src/lib/templates.ts:24-31 | every position where the pattern matches lies inside some reported span |
| Templates.Candidates | src/lib/templates.ts:24-40 | the spans of one pattern are inside the text, non-empty, in order and pairwise disjoint |
| Templates.NoHashInsideHex | src/lib/templates.ts:17 | a hex literal holds no `#` after its first character |
| Templates.HexCandidateStarts | src/lib/templates.ts:17-31 | a hex span starts at a position exactly when the hex pattern matches there |
| Templates.ScanDecodeSound | src/lib/templates.ts:24-31 | every pushed match has the requested kind, lies in the text, has `raw` equal to the text it spans, and has the lightness its text decodes to |
| Templates.ScanDecodeSpans | src/lib/templates.ts:24-31 | every pushed match has the span of a match the regular expression reported |
| Templates.ScanDecodeKeeps | src/lib/templates.ts:26-30 | every reported span whose text decodes yields a pushed match with that span |
| Templates.ScanDecodeOrdered | src/lib/templates.ts:24-31 | the pushed matches start at or after the scan's start and do not overlap |
| Templates.KindMatches | src/lib/templates.ts:24-40 | the matches of one pattern do not overlap |
| Templates.KindMatchesExact | src/lib/templates.ts:24-40 | the matches of one pattern are exactly its reported spans whose text decodes, each decoded from its own text |
| Templates.TryPatternAt | src/lib/templates.ts:24 | one attempt of the pattern at a position yields a length exactly when a literal of the pattern's grammar of that length starts there, and that length is the match-table entry |
| Templates.ScanKind | src/lib/templates.ts:24-40 | one `exec` loop pushes exactly the decoded matches of its pattern, in text order |
| Recolor.MergeByStart | src/lib/templates.ts:42 | the sorted list is as long as both runs together; `MergeByStartPermutes` and `MergeByStartSorted` state that it is their start-ordered permutation |
| Recolor.MergeByStartPermutes | src/lib/templates.ts:42 | the sort keeps every match of both runs and adds none |
| Recolor.MergeByStartSorted | src/lib/templates.ts:42 | the sort leaves matches in ascending start order |
| Recolor.KindMatchesSorted | src/lib/templates.ts:24-40 | each loop already pushes matches in ascending start order |
| Recolor.HexOklchStartsDiffer | src/lib/templates.ts:17-18 | no hex match starts where an oklch match starts (one starts at `#`, the other at `o` or `O`), so the start order of the sorted result is unique |
| Recolor.ColorMatchesSortedPermutation | src/lib/templates.ts:20-44 | `findColorMatches` returns the hex and oklch matches, all of them and nothing else, in ascending start order |
| Recolor.CandidateIsLiteral | src/lib/templates.ts:17-18 | a reported span is a literal of its pattern's grammar, of the span's length |
| Recolor.KindMatchesAreColorMatches | src/lib/templates.ts:24-40 | each match of one pattern is a literal of its kind that decodes to its lightness |
| Recolor.ColorMatchesSound | src/lib/templates.ts:20-44 | every returned match is a hex or oklch literal of the text, `raw` is the text it spans, and `l` is its decoded lightness |
| Recolor.PatternsOverlap | src/lib/templates.ts:17-18 | in `oklch(#abc)` the hex pattern matches at offset 6 and the oklch pattern matches the whole text |
| Recolor.FindColorMatches | src/lib/templates.ts:20-44 | the two loops and the sort return the sorted, sound merge of both patterns' matches |
| Recolor.Dist | src/lib/templates.ts:51 | `Math.abs(a - b)` is non-negative and is `a - b` or `b - a` |
| Recolor.NearestUnique | src/lib/templates.ts:50-56 | at most one entry is the first of the nearest |
| Recolor.BestAfterIsNearest | src/lib/templates.ts:48-56 | after n entries the loop holds a choice exactly when n > 0; it is nearest among them, and every earlier entry is strictly farther |
| Recolor.NearestOf | src/lib/templates.ts:57 | on a non-empty palette a choice exists and indexes the palette |
| Recolor.NearestOfIsNearest | src/lib/templates.ts:48-58 | the chosen entry is the first entry nearest in lightness |
| Recolor.NearestIndex | src/lib/templates.ts:48-57 | the inner loop yields nothing exactly for an empty palette, and otherwise the first nearest entry |
| Recolor.ReplacementsNearest | src/lib/templates.ts:46-60 | `nearestByLightness` fails exactly when there is a match and no palette entry; otherwise there is one replacement per match, the first nearest entry in the match's own syntax |
| Recolor.NearestByLightness | src/lib/templates.ts:46-60 | the map over matches yields the replacements, or the null-dereference error |
| Recolor.JsSlice | src/lib/templates.ts:82 | `slice` is the substring when the bounds are in order and inside the text, and empty when the end is not after the start |
| Recolor.RebuildStep | src/lib/templates.ts:81-85 | one loop turn appends the gap up to the match and its replacement, then moves the cursor to the match's end |
| Recolor.Splice | src/lib/templates.ts:79-86 | the rewrite loop and the final tail produce the rebuilt text |
| Recolor.Gaps | src/lib/templates.ts:79-86 | there is one more gap than matches |
| Recolor.RebuildLayout | src/lib/templates.ts:79-86 | for in-order, disjoint matches the output alternates the untouched gaps of the text with the replacements |
| Recolor.RebuildLength | src/lib/templates.ts:79-86 | for in-order, disjoint matches the output length is the text's plus, per match, the replacement's length minus the match's |
| Recolor.RebuildIdentity | src/lib/templates.ts:79-86 | replacing every match with its own text gives back the text |
| Recolor.RecolorOutcome | src/lib/templates.ts:70-77 | a template fails exactly when it has a match and the palette is empty; a template without matches is written through unchanged |
| Recolor.RecolorWithScheme | src/lib/templates.ts:64-77 | against a scheme's candidate list, recolouring never fails |
| Recolor.RecolorLayout | src/lib/templates.ts:70-86 | with a non-empty palette and disjoint matches, the output is the gaps interleaved with the replacements, and its length is the content's plus the growth of each replacement |
| Recolor.RecolorContent | src/lib/templates.ts:70-86 | one template's content goes through match finding, replacement and the rewrite to the recoloured text |
| Wallpaper.IsImagePath | src/lib/wallpaper.ts:21 | a string that passes the extension test ends with a `.` and three or four more characters |
| Wallpaper.IsWallpaperKey | src/lib/wallpaper.ts:32 | a key that passes `/wallpaper/i` is at least nine characters long |
| Wallpaper.FindWallpaperPath | src/lib/wallpaper.ts:17-44 | every string the search returns passes the image-path test; `FindIffImageLeaf`, `WallpaperKeyHitWins` and `FallbackFirstHit` state which one it returns |
| Wallpaper.FindInItems | src/lib/wallpaper.ts:23-29 | every string the array loop returns passes the image-path test |
| Wallpaper.FindUnderWallpaperKeys | src/lib/wallpaper.ts:31-36 | every string the first object pass returns passes the image-path test |
| Wallpaper.FindInValues | src/lib/wallpaper.ts:38-41 | every string the fallback pass returns passes the image-path test |
| Wallpaper.FindSound | src/lib/wallpaper.ts:17-44 | a returned string is an image path and is a string leaf of the input |
| Wallpaper.ItemsSound | src/lib/wallpaper.ts:23-29 | a hit of the array loop is an image-path leaf of one of the remaining elements |
| Wallpaper.KeysSound | src/lib/wallpaper.ts:31-36 | a hit of the first object pass is an image-path leaf under a key mentioning "wallpaper" |
| Wallpaper.ValuesSound | src/lib/wallpaper.ts:38-41 | a hit of the fallback pass is an image-path leaf of one of the remaining values |
| Wallpaper.ScalarResults | src/lib/wallpaper.ts:18-22 | null, booleans and numbers give null; a string gives itself exactly when it looks like an image path |
| Wallpaper.ImageLeafIsHit | src/lib/wallpaper.ts:17-44 | an image-path string leaf makes the tree contain an image leaf |
| Wallpaper.ItemsReachHit | src/lib/wallpaper.ts:24-27 | an element with a hit makes the array loop succeed |
| Wallpaper.ValuesReachHit | src/lib/wallpaper.ts:38-41 | a value with a hit makes the fallback pass succeed |
| Wallpaper.ImageLeafIsFound | src/lib/wallpaper.ts:17-44 | a tree with an image-path string leaf anywhere gives a hit |
| Wallpaper.ItemLeafFound | src/lib/wallpaper.ts:23-29 | an array with an image-path leaf in some element gives a hit |
| Wallpaper.ValueLeafFound | src/lib/wallpaper.ts:38-41 | an object with an image-path leaf in some value gives a hit, from one pass or the other |
| Wallpaper.FindIffImageLeaf | src/lib/wallpaper.ts:17-44 | the search returns a path exactly when some string leaf anywhere in the tree looks like an image path |
| Wallpaper.ItemsFirstHit | src/lib/wallpaper.ts:24-27 | the array loop returns the hit of the first element that has one |
| Wallpaper.ItemsNoHit | src/lib/wallpaper.ts:24-28 | the array loop returns null when no element has a hit |
| Wallpaper.FindInArrayIsFirstHit | src/lib/wallpaper.ts:23-29 | for an array, the result is the first element's hit, in order |
| Wallpaper.FindInArrayNone | src/lib/wallpaper.ts:23-29 | for an array, the result is null exactly when no element has a hit |
| Wallpaper.KeysFirstHit | src/lib/wallpaper.ts:31-36 | the first object pass returns the hit of the first wallpaper-keyed value that has one |
| Wallpaper.KeysNoHit | src/lib/wallpaper.ts:31-36 | the first object pass returns null when no wallpaper-keyed value has a hit |
| Wallpaper.ValuesFirstHit | src/lib/wallpaper.ts:38-41 | the fallback pass returns the hit of the first value that has one |
| Wallpaper.WallpaperKeyHitWins | src/lib/wallpaper.ts:30-36 | in an object, the first hit under a wallpaper key is the result, whatever other keys hold before it |
| Wallpaper.FallbackFirstHit | src/lib/wallpaper.ts:30-42 | in an object with no hit under a wallpaper key, the result is the first value's hit in entry order |

## Left out

- `getWallpaperPathFromNoctalia` (src/lib/wallpaper.ts:5-15): file existence queries, JSON file reading and path resolution are I/O. The model starts from the parsed JSON value.
- `extractDominantOklch` (src/lib/colors.ts:30-40): image decoding and colour conversion through external libraries. The seed is an input.
- `writeSchemeJson` (src/lib/colors.ts:97-98): creating the directory and writing the file are I/O. The dictionary it writes is modelled.
- `applyTemplates` (src/lib/templates.ts:62-89): reading the configuration, the loop over mappings, and the file existence queries, reads and writes are I/O. The work on one template's content is modelled (`Recolor.RecolorContent`).
- The colour library (`converter`, `parse`, `formatHex`, `formatCss`): taken as the parameters `Colors.Projection` and `Templates.Decoder`, so no property depends on what they compute.
- Floating point: lightness, chroma and hue are exact reals. Rounding (e.g. in `70 / 100`), NaN and `-0` are not modelled. The starting `bestD = Infinity` is modelled by the absence of a choice.
- Wallpaper.IsFalsy: NaN is not a value of the model, so the falsy values are null, `false`, 0 and the empty string only.
- Colors.SchemeJson: the key insertion order of the written dictionary (the ramp names `base-98` to `base-02`, then `error-70` to `success-30`, src/lib/colors.ts:86-95) is not modelled, because a Dafny map has no order. The model states which keys there are and what each maps to.
- Object key order: an object's entries are taken in JavaScript's iteration order. How that order is derived (integer-like keys first) is not modelled.
- The regular expressions' `lastIndex` state: each `exec` loop is modelled by its scan position. The regex objects are module-level and shared, which matters only if a loop is abandoned midway; it never is.
- Recolor.MergeByStart: the in-place `Array.prototype.sort` is modelled as a merge on sequences, and the in-place update of the array is not modelled. No stability argument is needed. Each run's matches are non-empty and do not overlap (`Templates.KindMatches`, `Templates.Candidates`), so its starts strictly increase, and no hex start equals an oklch start (`Recolor.HexOklchStartsDiffer`). So exactly one start-sorted permutation exists, and `Recolor.ColorMatchesSortedPermutation` fixes the result whatever sort is used.
- Text positions: a string is a sequence of characters, with one index per character. JavaScript counts UTF-16 code units, so offsets differ from the source's for characters outside the Basic Multilingual Plane.
- Ascii.Lower: case-insensitive matching folds ASCII letters only. That is exact for the ASCII patterns used here, because a non-ASCII character never folds to an ASCII letter in a non-Unicode regular expression.
- Recolor.RecolorLayout: the layout and length of the output are stated only for matches that lie in order and apart. Overlapping hex and oklch matches can occur in principle, and the source's output for them is given by `Recolor.Rebuild` alone.
- `src/lib/config.ts` and `src/index.ts` are not part of this model.
