# Colour scales and variable groups, modelled in Dafny

The plugin has two engines that meet at a naming convention.

- The **colour-scale generator** (`code.ts`) takes a base colour written as
  hex, a list of steps and one of four algorithms. It produces a `Map` from
  each step to a colour. Step 500 holds the base colour. Lower steps are
  tints towards white or towards lightness 0.95. Higher steps are shades
  towards black. Around it sit the colour conversions (`hexToRgb`,
  `rgbToHex`, `rgbToHsl`, `hslToRgb`), the display format of a variable's
  value and its parser (`formatColorValue`, `parseColorValue`), the
  bookkeeping of which collections and variables are marked as colour-scale
  groups (`markAsColorScaleGroup`, `unmarkColorScaleGroup`), and the test
  that decides which number variables count as typography.
- The **variable parser** (`src/ui/utils/variableParser.ts`) splits a
  variable name such as `Primary/Blue/500` into a group (`Blue`) and a leaf
  (`500`). It groups variables by that group, sorted by name. It also checks
  whether a group follows the colour-scale format, meaning colour variables
  whose leaves are steps 50, 100, …, 900.

The generator names each variable `${baseName}/${step}`, and the parser reads
exactly those names. The module `ScaleNaming` proves that the two agree.

Modules, one per concern:

| module | file | what it holds |
|---|---|---|
| `Wrappers` | wrappers.dfy | `Option`, standing for a thrown error, `NaN` or `null` |
| `Text` | text.dfy | JavaScript's `parseInt`, `Number.prototype.toString(radix)`, `String.prototype.split`, ASCII lower-casing and substring search |
| `InsertionMap` | insertion_map.dfy | a JavaScript `Map`: keys kept in first-insertion order |
| `ColorSpace` | color.dfy | hex ⇄ RGB and RGB ⇄ HSL |
| `ColorScale` | scale.dfy | the four scale algorithms, the dispatcher and the preview list |
| `ColorValue` | color_value.dfy | `formatColorValue` and `parseColorValue`, including its regular expression |
| `ScaleGroupMetadata` | metadata.dfy | marking and unmarking colour-scale groups |
| `Typography` | typography.dfy | the predicate that decides which variables are read |
| `VariableParser` | variable_parser.dfy | `parseVariableName` and `groupVariablesByGroup` |
| `ScaleValidator` | validator.dfy | `validateColorScaleFormat` |
| `ScaleNaming` | naming.dfy | generated names read back by the parser and the validator |

Numbers are modelled as follows:

- Channels are exact reals. `Math.round(x)` is `⌊x + 0.5⌋`.
- `Math.pow` with exponents 2.2 and 1/2.2 is used only by the perceptual
  algorithm. It is passed in as a pair of functions (`ColorScale.Gamma`).
- `localeCompare` is passed in as a comparison `le`. The ordering results
  require `le` to be a total preorder. The uniqueness result also requires
  it to be antisymmetric.

## Model

| member | source | states |
|---|---|---|
| ColorSpace.HexToRgb | code.ts:280-288 | Succeeds exactly on six hex digits in either case, with an optional leading `#`, and throws (None) otherwise; each channel is a whole byte over 255, so it lies in [0, 1] |
| ColorSpace.ParseIntOfHexPair | code.ts:284-286 | Each two-digit hex slice parses to the byte it spells |
| ColorSpace.RgbToHexShape | code.ts:47-53 | A colour with channels in [0, 1] renders as `#` and six lower-case hex digits: the padding always gives each channel two digits |
| ColorSpace.RgbToHexParses | code.ts:47-53 | Reading a rendered colour back with `hexToRgb` gives the colour rounded to the nearest 1/255 |
| ColorSpace.HexRoundTrip | code.ts:280-288 | Parsing a hex colour and rendering it again gives `#` and the same six digits in lower case |
| ColorSpace.RgbToHsl | code.ts:290-315 | Lightness is the midpoint of the largest and smallest channels; a grey has hue and saturation 0 and its lightness is its channel; saturation and lightness lie in [0, 1] and hue in [0, 1) |
| ColorSpace.HslToRgb | code.ts:317-340 | Saturation 0 gives the grey of that lightness; in-range hue, saturation and lightness give channels in [0, 1] |
| ColorSpace.ExtremesAttained | code.ts:323-338 | Of the three channels `hue2rgb` produces at hue offsets +1/3, 0 and -1/3, the largest is `q` and the smallest is `p` |
| ColorSpace.HslRoundTrip | code.ts:290-342 | `hslToRgb` undoes `rgbToHsl` exactly on every colour with channels in [0, 1] |
| ColorSpace.HslLightnessKept | code.ts:290-342 | Converting an in-range HSL colour to RGB and back keeps its lightness, and the RGB colour has channels in [0, 1] |
| ColorValue.FormatColorValue | code.ts:56-64 | A translucent colour renders as `rgba(...)`, an opaque in-range colour as `#` and six hex digits, and any other value as its own text |
| ColorValue.FormatParseOpaque | code.ts:56-64 | An opaque in-range colour, formatted and parsed back, is its channels rounded to the nearest 1/255 |
| ColorValue.FormatParseDropsAlpha | code.ts:58-60 | A translucent in-range colour, formatted and parsed back, is its rounded channels and the alpha is lost |
| ColorValue.ParseColorValue | code.ts:253-276 | A `#` followed by exactly six UTF-16 code units always yields channels; otherwise the result is null exactly when the `rgba?(...)` pattern matches nowhere, and the leftmost match yields its three digit runs over 255 |
| ColorValue.AstralHexChannels | code.ts:255-261 | A character above U+FFFF counts as two code units: `#`, an emoji and four hex digits (`#\u{1F600}abcd`) take the hex branch, the first pair (the emoji's halves) reads as NaN, and the other two pairs read as their bytes over 255 |
| ColorValue.AstralHexTooLong | code.ts:255-276 | `#`, an emoji and five hex digits (`#\u{1F600}abcde`) make seven code units, so the hex branch is skipped and the result is null |
| ColorValue.NegativeHexChannel | code.ts:255-261 | The hex branch checks neither sign nor range: `#-1abcd` and the like give a negative red channel, -1/255 there |
| ColorValue.SpacedHexChannel | code.ts:255-261 | The hex branch accepts white space: `parseInt` skips it before a pair's digit and stops at it after one, so `#ab cd ` reads as 0xab, 0xc and 0xd over 255 |
| ColorValue.FirstMatch | code.ts:266 | The search finds nothing exactly when the pattern matches at no position from the start onward |
| ColorValue.FirstMatchIsLeftmost | code.ts:266 | The match that `match` returns is the leftmost one |
| ColorValue.ParseAgreesWithHex | code.ts:255-262 | On `#RRGGBB` the parser reads the same colour as `hexToRgb` |
| ColorValue.BareHexIsNull | code.ts:253-276 | Six hex digits without `#` are accepted by `hexToRgb` but parse to null |
| ColorValue.ParseRgbaText | code.ts:266-273 | The `rgba(R, G, B, A)` text parses back to R/255, G/255 and B/255 |
| ColorValue.ParsePatternText | code.ts:266-273 | Every text the pattern matches in full parses to its three digit runs over 255. This covers `rgb(` and `rgba(`, any white space after the commas, and the alpha present or absent |
| ColorValue.NoRangeCheck | code.ts:266-273 | A channel above 255 is not rejected and reads as a value above 1 |
| ColorScale.TintRatio | code.ts:354 | Steps from 0 up to 499 have a tint ratio in (0, 1] |
| ColorScale.ShadeRatio | code.ts:363 | Steps from 501 up to 1000 have a shade ratio in (0, 1] |
| ColorScale.TintShadeScale | code.ts:344-374 | Fails exactly on a bad hex colour; otherwise it has one entry per distinct requested step, in first-request order, each holding that step's tint or shade of the base |
| ColorScale.TintBounds | code.ts:352-360 | A tint lies between the channel and white, and stays short of white unless the channel is already white |
| ColorScale.TintMonotone | code.ts:352-360 | Lower steps are never darker than higher tint steps |
| ColorScale.ShadeBounds | code.ts:361-370 | A shade keeps between 15% of the channel and all of it |
| ColorScale.ShadeMonotone | code.ts:361-370 | Higher steps are never lighter than lower shade steps |
| ColorScale.TintShadeInUnit | code.ts:344-374 | For every step from 0 to 1000, an in-range base gives an in-range colour |
| ColorScale.HslLightnessScale | code.ts:376-397 | Same keys, order and failure case as tint-shade; each entry keeps the base's hue and saturation and takes the step's lightness |
| ColorScale.HslSaturationScale | code.ts:399-422 | Same keys, order and failure case; each entry keeps the base's hue and takes the step's saturation and lightness |
| ColorScale.StepLightnessBounds | code.ts:382-394 | Tint lightness moves from the base towards 0.95 without passing it; shade lightness keeps between 15% of the base and the base; both stay in [0, 1] |
| ColorScale.StepSaturationBounds | code.ts:405-418 | Tints keep between 60% of the base saturation and all of it; shades keep at least the base saturation and are capped at 1 |
| ColorScale.HslLightnessExact | code.ts:376-397 | Every generated colour is in range, and its lightness is exactly the lightness its step asks for |
| ColorScale.HslSaturationExact | code.ts:399-422 | Every generated colour is in range, with the same lightness the lightness scale gives that step |
| ColorScale.HslGreyStaysGrey | code.ts:376-422 | A grey base gives only greys on both HSL scales |
| ColorScale.PerceptualScale | code.ts:424-462 | Same keys, order and failure case; each entry is the tint-shade rule applied in linear light |
| ColorScale.PerceptualIdentity | code.ts:424-462 | With identity transfer functions the perceptual scale is the tint-shade scale |
| ColorScale.PerceptualInUnit | code.ts:424-462 | Transfer functions that keep [0, 1] give colours in [0, 1] |
| ColorScale.GenerateColorScale | code.ts:464-476 | Each entry holds the colour the named algorithm assigns its step; an unrecognised name falls back to tint-shade |
| ColorScale.ScaleAnchor | code.ts:464-476 | Every algorithm stores the base colour unchanged at step 500 |
| ColorScale.ScaleInUnit | code.ts:464-476 | Each requested step from 0 to 1000 gets an in-range colour under every algorithm, given in-range transfer functions |
| ColorScale.PreviewColorScale | code.ts:661-671 | Fails exactly on a bad hex colour; otherwise there is one row per scale entry, in the scale's order, named `${baseName}/${step}` and showing the hex of the colour the algorithm gives that step |
| ColorScale.PreviewColorReadsBack | code.ts:661-671 | For steps in 0..1000, each row shows `#` and six lower-case hex digits, which `hexToRgb` reads back as that step's colour rounded to the nearest 1/255 |
| ColorScale.PreviewAnchor | code.ts:661-671 | The step-500 row shows `#` and the typed six digits in lower case |
| InsertionMap.Put | code.ts:351 | `set` stores the value under the key, leaves every other key alone and appends the key only when it is new |
| InsertionMap.PutAll | code.ts:349-371 | After setting each key in turn, the map holds exactly those keys, each mapped by the rule |
| InsertionMap.PutAllOrder | code.ts:349-371 | The map lists its keys in the order of their first occurrence |
| InsertionMap.PutAllKeys | code.ts:349-371 | The first-occurrence order is the only order of the distinct keys, so it fixes the map's key list |
| ScaleGroupMetadata.AddMissing | code.ts:91-95 | The list grows only at its end, by the ids it lacks, each added once |
| ScaleGroupMetadata.AddMissingSnoc | code.ts:91-95 | No ids leave the list unchanged; one more id is pushed at the end exactly when neither the list nor the earlier ids hold it. So the ids are appended in the order they first appear |
| ScaleGroupMetadata.Mark | code.ts:84-106 | The chosen list keeps its old entries as a prefix and gains exactly the given ids; the other list is untouched |
| ScaleGroupMetadata.MarkKeepsDistinct | code.ts:84-106 | Marking never introduces a duplicate into a duplicate-free list |
| ScaleGroupMetadata.MarkIdempotent | code.ts:84-106 | Marking the same ids twice is the same as marking them once |
| ScaleGroupMetadata.RemoveAll | code.ts:114-120 | The filter keeps exactly the entries not among the ids |
| ScaleGroupMetadata.RemoveAllAppend | code.ts:114-120 | Filtering distributes over concatenation, so the ids that stay keep their relative order |
| ScaleGroupMetadata.Unmark | code.ts:108-126 | The chosen list loses exactly the given ids; the other list is untouched |
| ScaleGroupMetadata.UnmarkAfterMark | code.ts:84-126 | Unmarking undoes marking: marking and then unmarking the same ids is the same as only unmarking them |
| ScaleGroupMetadata.UnmarkIdempotent | code.ts:108-126 | Unmarking twice is the same as unmarking once |
| Typography.Includes | code.ts:155 | `includes` holds exactly when the word occurs at some position |
| Typography.IsTypography | code.ts:153-160 | A variable is typography exactly when it is a number and its lower-cased name contains one of the six words |
| Typography.IsListed | code.ts:152-162 | Colour variables are always read; boolean and string variables never are; a number variable is read exactly when its lower-cased name contains one of the typography words |
| Typography.TypographyIgnoresCase | code.ts:152-160 | Lower-casing the name first does not change the verdict |
| Typography.WordMakesTypography | code.ts:152-160 | A number variable whose name contains one of the words in any letter case is typography |
| Typography.TypographyExtends | code.ts:152-160 | Adding text around a typography name keeps it typography |
| Text.NatDigitsSpec | code.ts:49 | `toString(radix)` of a natural number gives lower-case digits of that radix, with no leading zero, spelling the number |
| Text.ParseIntOfDigits | src/ui/utils/variableParser.ts:88 | `parseInt` reads the leading run of digits and ignores what follows |
| Text.ParseIntOfIntToString | src/ui/utils/variableParser.ts:88 | `parseInt` reads back any integer that `toString` wrote, negative ones included |
| Text.ParseIntNeedsDigit | src/ui/utils/variableParser.ts:88-90 | Text with no digit of the radix parses to `NaN` |
| Text.Split | src/ui/utils/variableParser.ts:11 | `split` gives at least one piece; no piece holds the separator; there is one piece exactly when the separator is absent; joining the pieces gives the name back |
| Text.SplitJoin | src/ui/utils/variableParser.ts:11 | Splitting separator-free pieces after joining them gives the same pieces |
| VariableParser.ParseVariableName | src/ui/utils/variableParser.ts:10-31 | There is no group exactly when the name has no slash, and then the leaf is the whole name; neither the leaf nor the group holds a slash |
| VariableParser.ParsedTail | src/ui/utils/variableParser.ts:10-31 | The name ends in `group/leaf`, preceded by nothing or by a slash |
| VariableParser.ParseJoin | src/ui/utils/variableParser.ts:10-31 | A name built from two or more slash-free segments has its last two segments as group and leaf |
| VariableParser.ParseExample | src/ui/utils/variableParser.ts:2 | `Primary/Blue/500` has group `Blue` and leaf `500` |
| VariableParser.CollectContents | src/ui/utils/variableParser.ts:39-52 | The collected map has a key for each group that occurs, holding that group's variables in input order |
| VariableParser.CollectOrder | src/ui/utils/variableParser.ts:39-52 | The map lists groups in the order each first appears in the input |
| VariableParser.SortGroups | src/ui/utils/variableParser.ts:55-60 | The result is a sorted permutation of the groups |
| VariableParser.GroupVariablesByGroup | src/ui/utils/variableParser.ts:38-61 | The groups are sorted, their names are distinct and are exactly the groups that occur, and each group holds exactly its variables in input order |
| VariableParser.MemberPlaced | src/ui/utils/variableParser.ts:41-52 | Each variable appears in the group its name gives |
| VariableParser.UngroupedFallback | src/ui/utils/variableParser.ts:43 | A name with no group or an empty group lands in `Ungrouped` |
| VariableParser.MembersBelong | src/ui/utils/variableParser.ts:45-51 | A group holds only input variables whose name gives that group |
| VariableParser.MemberFromInput | src/ui/utils/variableParser.ts:38-61 | Every grouped entry is an input variable tagged with its own parsed name, sitting under its own group |
| VariableParser.GroupsPartition | src/ui/utils/variableParser.ts:38-61 | Taken together, the groups hold every input variable exactly as often as the input does |
| VariableParser.GroupSizesSum | src/ui/utils/variableParser.ts:38-61 | The group sizes add up to the number of variables |
| VariableParser.SortedUnique | src/ui/utils/variableParser.ts:60 | Under an antisymmetric order there is only one sorted arrangement of distinctly named groups |
| VariableParser.GroupingUnique | src/ui/utils/variableParser.ts:55-60 | Any sorted arrangement of the collected groups is the one returned, so the sort's tie-breaking never shows |
| ScaleValidator.InvalidNames | src/ui/utils/variableParser.ts:84-95 | One invalid name is recorded for each variable whose leaf does not parse as a number |
| ScaleValidator.InvalidNamesSnoc | src/ui/utils/variableParser.ts:84-95 | The invalid names are the names of the variables without a step, in input order: none for no variables, and one more at the end for each further variable without a step |
| ScaleValidator.StepsContents | src/ui/utils/variableParser.ts:86-95 | The step list holds exactly the numbers parsed from the leaves |
| ScaleValidator.OffScaleStep | src/ui/utils/variableParser.ts:101-111 | The off-scale check fires exactly when some parsed step is off the 50..900 grid |
| ScaleValidator.Examples | src/ui/utils/variableParser.ts:98 | The message quotes the first three invalid names, or all of them if there are fewer |
| ScaleValidator.ReportContents | src/ui/utils/variableParser.ts:76-111 | Each of the three issues is raised exactly when its condition holds, and nothing else is raised |
| ScaleValidator.Issues | src/ui/utils/variableParser.ts:76-111 | The non-colour issue appears exactly when some variable is not a colour, the non-numeric issue exactly when some leaf is not a number, and the off-scale issue exactly when some step is off the grid |
| ScaleValidator.NonNumericEllipsis | src/ui/utils/variableParser.ts:98 | When no quoted name holds a dot, the message ends in `...` exactly when more than three names failed, and holds no dot otherwise |
| ScaleValidator.NonColorCountReads | src/ui/utils/variableParser.ts:79 | The count in the non-colour message reads back as the number of non-colour variables |
| ScaleValidator.NonNumericCountReads | src/ui/utils/variableParser.ts:98 | The non-numeric message starts with the number of invalid names |
| ScaleValidator.Validate | src/ui/utils/variableParser.ts:71-122 | A group is valid exactly when it is non-empty and holds only colour variables whose leaves are steps on the 50..900 grid, which is also exactly when it is non-empty with no issues; steps are suggested exactly when it is invalid, and they are then the fixed list 50, 100, 200, …, 900, all on the grid; the expected format is the constant `GroupName/[50-900] (e.g., Primary/500)` |
| ScaleValidator.ValidateIssues | src/ui/utils/variableParser.ts:73-119 | The issues returned are those the three checks raise, rendered as text in the same order |
| ScaleValidator.SuggestedOnScale | src/ui/utils/variableParser.ts:114 | The suggested steps are all on the grid |
| ScaleValidator.IssueKinds | src/ui/utils/variableParser.ts:74-111 | Setting aside the quoted names, the issues are the counts of non-colour and non-numeric variables and whether any step is off the grid, in that order |
| ScaleValidator.ValidatePermutation | src/ui/utils/variableParser.ts:71-122 | Reordering the variables changes neither the verdict nor the issue kinds and counts |
| ScaleNaming.NameParses | code.ts:499 | A generated name parses back to the last segment of the base name as its group and the step's decimal text as its leaf |
| ScaleNaming.NameGroup | code.ts:499 | With a slash-free base name, the parsed group is the whole base name |
| ScaleNaming.NameStep | code.ts:499 | The validator reads the generated step back from the name |
| ScaleNaming.NamedStepsValidate | code.ts:499 | Colour variables named from a list of steps are a valid scale exactly when the list is non-empty and every step is on the grid |
| ScaleNaming.PreviewNamesValidate | code.ts:661-671 | Colour variables carrying the preview's names validate exactly when the requested steps are non-empty and all on the grid, whatever the algorithm and however often a step repeats |
| ScaleNaming.DefaultStepsValidate | src/ui/components/ColorScaleGeneratorDialog.tsx:33 | The dialog's default steps are the validator's suggested steps, so a scale generated from them validates |
| ScaleNaming.GeneratedNamesOneGroup | src/ui/utils/variableParser.ts:38-61 | Variables named from one slash-free, non-empty base name form a single group under that name, holding them all in input order |

## Left out

- Figma host I/O is left out: reading and writing plugin data, the variable
  and style APIs, and the UI message loop. `getColorScaleGroupMetadata` and
  `saveColorScaleGroupMetadata` become the `Metadata` value passed to and
  returned from `Mark` and `Unmark`. A stored document that is missing or
  unreadable (the `{ collectionIds: [], variableIds: [] }` fallback) is
  therefore not modelled.
- `createColorScaleVariables`, `updateVariable`, `scaleTypographyVariables`,
  `getLocalCollections` and `readStyles` are left out because they are
  sequences of Figma API calls. Of them, only the name they give each scale
  variable is modelled (`ColorScale.VariableName`). Of `readVariables`, only
  the predicate that selects variables is modelled (`Typography.IsListed`).
- IEEE-754 doubles are modelled as exact reals. Rounding error in the scale
  arithmetic is not modelled, and neither are `NaN` or `Infinity` outside the
  `parseInt` results.
- `Math.pow` in the perceptual scale is a parameter (`ColorScale.Gamma`), so
  its exact values are not modelled.
- JavaScript's rendering of the alpha number in `rgba(...)` is a parameter
  (`alphaText`).
- ColorSpace.RgbToHsl: requires channels in [0, 1]. Outside that range the
  source can divide by zero, and the `hexToRgb` channels it receives are
  always in range.
- ColorValue.FormatColorValue: its own contract gives only the shape of
  each output. The content is stated by `ColorValue.FormatParseOpaque` and
  `ColorValue.FormatParseDropsAlpha`, which read the text back.
- `parseColorValue` matches `rgba(r, g, b, a)` but returns only r, g and b,
  so the alpha is dropped. The model follows the code, and
  `ColorValue.FormatParseDropsAlpha` states the loss.
- In the `#` branch of `parseColorValue`, only a pair that `parseInt`
  cannot read gives a `NaN` channel, which the model writes as `None`. A
  pair with a leading sign or white space is read, possibly as a negative
  channel (`ColorValue.NegativeHexChannel`, `ColorValue.SpacedHexChannel`).
- `localeCompare` is a parameter. Only total-preorder (and, for uniqueness,
  antisymmetry) properties are used, and the engine's own sort algorithm is
  replaced by an insertion sort (`VariableParser.SortGroups`). Group names
  are distinct, so under an antisymmetric comparison no two groups tie, and
  `VariableParser.GroupingUnique` shows every sorted arrangement is the one
  returned. Under a comparison with ties, the order among tied groups is
  not modelled.
- `toLowerCase` is modelled on ASCII letters only. Other characters are
  kept unchanged.
- `parseInt` is exact on arbitrarily long digit runs. JavaScript would lose
  precision above 2^53.
- Text.ParseIntOfIntToString: holds for the model's `toString`, which writes
  every integer in positional notation. JavaScript writes integers of
  magnitude 10^21 and above in exponent form (`1e+21`), which `parseInt`
  reads as 1. The read-back therefore holds in JavaScript only below 10^21.
- ScaleNaming.NameStep: for the same reason, a step of magnitude 10^21 or
  more reads back from its name as a single digit in JavaScript. Such steps
  are off the 50..900 grid both ways, so `ScaleNaming.NamedStepsValidate`
  gives the same verdict.
- String lengths in `parseColorValue` are counted in UTF-16 code units, as
  JavaScript counts them (`ColorValue.CodeUnits`). The surrogate halves
  themselves are not modelled: each is written as U+FFFF, which like a
  surrogate is neither a digit, a sign nor white space, so `parseInt` gives
  the same result.
- The React UI files are not part of this model. This includes the
  ColorScaleGeneratorDialog component beyond its default step list.
