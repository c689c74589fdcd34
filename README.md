# knowwhattowear text utilities in Dafny

This project models the two pure text utilities of the knowwhattowear wardrobe
assistant and proves properties about them.

- **`parseSearchResponse`** (`src/utils/parseSearchResponse.ts`) reads the tagged text a
  language model returns for a wardrobe search. It returns three things:
  - the `<suggestions>` section, trimmed;
  - every `<recommended-item id="…">…</recommended-item>` entry, in textual order, with
    its id resolved against the caller's wardrobe list;
  - the `<missing-items>` section, trimmed.
- **`formatItemDescription`** (`src/utils/formatItemDescription.ts`) cleans a garment
  description. It strips `**label**:` markers and leftover `**`, collapses whitespace
  runs and trims.
- **`extractItemSummary`** (same file) builds a short "colour type" label from the
  `Type of Clothing**:` and `Color**:` fields. When neither field gives text, it falls
  back to the first sentence of the cleaned description.

Each regular expression becomes an explicit scanner, with the engine's backtracking
worked out by hand:

- The section expressions take the first opening tag, then the first closing tag after
  it (`SectionMatch`).
- The global recommended-item expression is read by `NextItemMatch`/`ItemMatches`. The
  id `[^"]+` can only end at the first `"`, which must be followed by `>`. The lazy body
  ends at the first closing tag. A new search starts where the previous match ended.
- `\s*([^-]+)` after a field label first takes the whole whitespace run (`FieldMatchAt`).
  When the run is followed by a `-` or by the end of the text, the engine gives back one
  whitespace character, and the group is that character.

Each scanner is paired with a ghost predicate that reads the expression declaratively
(`IsSectionMatch`, `IsItemMatch`, `IsFieldMatch`, and `IsMarker` for the `**label**:`
marker of `formatItemDescription`). Lemmas show that the scanner finds
exactly the leftmost match, or the greedy match, that the predicate describes.

The `exec` loop of the parser is the imperative method `CollectRecommendedItems`. It is
proved against the functional scan `ItemMatches`. It takes the tag texts as parameters,
and `ParseSearchResponse` passes the parser's literal tags.

A non-empty description can have an empty summary, as `SummaryCanBeEmpty` shows for
`".abc"`.

Files:

- `strings.dfy`: JavaScript's `\s` class, `indexOf`-style searches and `trim`.
- `search_response.dfy`: the parser.
- `item_description.dfy`: `formatItemDescription`.
- `item_summary.dfy`: `extractItemSummary`.

## Model

| member | source | states |
|---|---|---|
| Strings.IndexOf | src/utils/parseSearchResponse.ts:24 | a reported index is an occurrence of the pattern at or after the start position |
| Strings.IndexOfNoneBefore | src/utils/parseSearchResponse.ts:24 | no occurrence lies between the start and the reported index, and none lies after the start when nothing is reported |
| Strings.IndexOfFirst | src/utils/parseSearchResponse.ts:24 | the first occurrence after the start is the one reported |
| Strings.FindChar | src/utils/parseSearchResponse.ts:28 | a reported index holds the searched character and lies at or after the start |
| Strings.FindCharNoneBefore | src/utils/parseSearchResponse.ts:28 | no earlier position after the start holds the character |
| Strings.FindCharFirst | src/utils/parseSearchResponse.ts:28 | the first position holding the character is the one reported |
| Strings.SpaceEnd | src/utils/formatItemDescription.ts:5 | a greedy `\s*` ends at a non-space character or at the end of the text |
| Strings.SpaceEndSkipsSpace | src/utils/formatItemDescription.ts:5 | every character a greedy `\s*` consumes is whitespace |
| Strings.SpaceEndAt | src/utils/formatItemDescription.ts:5 | a whitespace run followed by a non-space or the end is exactly what `\s*` consumes |
| Strings.SpaceStart | src/utils/parseSearchResponse.ts:25 | the trailing whitespace run ends the text and is preceded by a non-space |
| Strings.SpaceStartSkipsSpace | src/utils/parseSearchResponse.ts:25 | every trailing character `trim` drops is whitespace |
| Strings.Trim | src/utils/parseSearchResponse.ts:25 | the result has no whitespace at either end and is no longer than the input |
| Strings.TrimIsTrimOf | src/utils/parseSearchResponse.ts:25 | the result is a slice of the input with only whitespace cut from either end |
| Strings.TrimFixesTrimmed | src/utils/formatItemDescription.ts:11 | trimming leaves trimmed text unchanged, and gives "" exactly for all-whitespace text |
| Strings.TrimKeepsAbsentChar | src/utils/formatItemDescription.ts:22 | a character absent from the input is absent from the trimmed text |
| Strings.TrimKeepsAbsentPattern | src/utils/parseSearchResponse.ts:34 | a substring absent from the input is absent from the trimmed text |
| SearchResponse.ItemMap | src/utils/parseSearchResponse.ts:21 | a key is present exactly when some wardrobe item has that id, and it maps to a wardrobe item with that id |
| SearchResponse.ItemMapLastWins | src/utils/parseSearchResponse.ts:21 | when several wardrobe items share an id, the last one is stored |
| SearchResponse.Section | src/utils/parseSearchResponse.ts:24-25 | a section value never has whitespace at either end |
| SearchResponse.FirstCloseMakesMatch | src/utils/parseSearchResponse.ts:45 | an opening tag and the first closing tag after it form a match of the lazy expression |
| SearchResponse.SectionAbsent | src/utils/parseSearchResponse.ts:45-46 | when the expression matches nowhere, the section is "" |
| SearchResponse.SectionIsLeftmostMatch | src/utils/parseSearchResponse.ts:24-25 | otherwise the section is the trimmed content of the match that starts first, so later sections are ignored |
| SearchResponse.FirstOpenIsMatchStart | src/utils/parseSearchResponse.ts:24 | the leftmost match starts at the first opening tag |
| SearchResponse.SectionMatchAt | src/utils/parseSearchResponse.ts:45-46 | the section is the trimmed text between the first opening tag and the first closing tag after it |
| SearchResponse.ItemMatchAt | src/utils/parseSearchResponse.ts:28 | a match anchored at a position starts there and ends within the text |
| SearchResponse.ItemMatchBody | src/utils/parseSearchResponse.ts:28 | the lazy body part of a match ends within the text |
| SearchResponse.ItemMatchOfPieces | src/utils/parseSearchResponse.ts:28 | a quote-free id ending at `">`, then text up to the first closing tag, is a match of the expression |
| SearchResponse.ItemMatchAtSound | src/utils/parseSearchResponse.ts:28 | what the anchored scanner finds is a match of the expression |
| SearchResponse.QuoteFreeIdEndsAtQuote | src/utils/parseSearchResponse.ts:28 | a quote-free id followed by a quote ends at the first quote |
| SearchResponse.ItemMatchSearches | src/utils/parseSearchResponse.ts:28 | on a match, the quote search and the closing-tag search stop at the match's own quote and closing tag |
| SearchResponse.ItemMatchAtComplete | src/utils/parseSearchResponse.ts:28 | every match of the expression at a position is the one the scanner finds there |
| SearchResponse.NextItemMatch | src/utils/parseSearchResponse.ts:32 | `exec` reports a match that starts at or after `lastIndex` and ends within the text |
| SearchResponse.NextItemMatchFound | src/utils/parseSearchResponse.ts:32 | what `exec` reports is the anchored match at its start |
| SearchResponse.NextItemMatchIsLeftmost | src/utils/parseSearchResponse.ts:32 | `exec` skips no match between `lastIndex` and the match it reports |
| SearchResponse.ScannedInOrder | src/utils/parseSearchResponse.ts:32-42 | the scanned matches are in textual order and do not overlap |
| SearchResponse.ScannedIsMatch | src/utils/parseSearchResponse.ts:32-42 | every scanned match is a match of the expression |
| SearchResponse.EveryMatchIsScannedOrOverlapped | src/utils/parseSearchResponse.ts:32-42 | every match of the expression is scanned, unless it starts inside a scanned match |
| SearchResponse.RecommendAll | src/utils/parseSearchResponse.ts:37-41 | one entry is pushed per match |
| SearchResponse.RecommendAllAt | src/utils/parseSearchResponse.ts:33-41 | entry i holds the id, the trimmed usage and the looked-up item of match i |
| SearchResponse.ParseSearchResponse | src/utils/parseSearchResponse.ts:19-53 | the parser returns the two trimmed sections and the entries of the global scan |
| SearchResponse.CollectRecommendedItems | src/utils/parseSearchResponse.ts:28-42 | the `exec`/`push` loop produces the entries of all scanned matches, in order |
| SearchResponse.BodyHasNoClose | src/utils/parseSearchResponse.ts:28 | a lazily matched body contains no closing tag |
| SearchResponse.ScannedMatchIsWellFormed | src/utils/parseSearchResponse.ts:28-34 | a scanned id is non-empty and quote-free, and the trimmed body holds no closing tag |
| SearchResponse.EntriesAreWellFormed | src/utils/parseSearchResponse.ts:33-34 | every entry has a non-empty quote-free id and a trimmed usage without `</recommended-item>` |
| SearchResponse.ResolvedExactlyWhenRegistered | src/utils/parseSearchResponse.ts:35 | an entry carries an item exactly when some wardrobe item has its id, and then it is a wardrobe item with that id |
| SearchResponse.ResolvesToLastRegistered | src/utils/parseSearchResponse.ts:21-35 | among wardrobe items sharing the id, the entry carries the last one, unchanged |
| SearchResponse.WardrobeOnlyAffectsItems | src/utils/parseSearchResponse.ts:21-46 | the suggestions, missing items, entry count, ids and usages are the same for any wardrobe |
| SearchResponse.EmptyResponse | src/utils/parseSearchResponse.ts:19-52 | "" parses to empty suggestions, no entries and empty missing items, for any wardrobe |
| ItemDescription.MarkerLength | src/utils/formatItemDescription.ts:5 | a `**label**:` marker with its following whitespace is at least five characters and lies within the text |
| ItemDescription.MarkerLengthSound | src/utils/formatItemDescription.ts:5 | a reported length is that of a marker: `**`, a non-empty label without `*` ending at the first `*`, `**:`, and the whole whitespace run after it |
| ItemDescription.MarkerLengthComplete | src/utils/formatItemDescription.ts:5 | every such marker at the start of the text is found, with its whole length |
| ItemDescription.StripLabelsRemovesMarker | src/utils/formatItemDescription.ts:5 | a marker with a `*`-free label is removed together with its label text and following whitespace |
| ItemDescription.StripLabelsKeepsPlainText | src/utils/formatItemDescription.ts:5 | text without `**` passes unchanged |
| ItemDescription.StripBoldLeavesNoDoubleStar | src/utils/formatItemDescription.ts:7 | no `**` survives the removal |
| ItemDescription.StripBoldKeepsPlainText | src/utils/formatItemDescription.ts:7 | text without `**` passes unchanged |
| ItemDescription.CollapseSpacesHead | src/utils/formatItemDescription.ts:9 | the collapsed text starts with whitespace exactly when the input does, and otherwise with the same character |
| ItemDescription.CollapseSpacesIsSingleSpaced | src/utils/formatItemDescription.ts:9 | afterwards no two whitespace characters are adjacent, and every whitespace character is a plain space |
| ItemDescription.CollapseSpacesKeepsNoDoubleStar | src/utils/formatItemDescription.ts:9 | collapsing creates no `**` |
| ItemDescription.CollapseSpacesKeepsSingleSpaced | src/utils/formatItemDescription.ts:9 | text already single-spaced with plain spaces passes unchanged |
| ItemDescription.FormatItemDescription | src/utils/formatItemDescription.ts:1-12 | the output has no whitespace at either end |
| ItemDescription.SliceKeepsNormalForm | src/utils/formatItemDescription.ts:9-11 | a slice keeps single plain spacing and the absence of `**` |
| ItemDescription.FormatIsNormalised | src/utils/formatItemDescription.ts:3-11 | the output holds no `**`, is trimmed, never has two whitespace characters in a row and uses only plain spaces |
| ItemDescription.FormatKeepsNormalised | src/utils/formatItemDescription.ts:3-11 | normalised text is a fixed point |
| ItemDescription.FormatIdempotent | src/utils/formatItemDescription.ts:3-11 | formatting twice equals formatting once |
| ItemSummary.DashEnd | src/utils/formatItemDescription.ts:16 | a greedy `[^-]+` stops at a `-` or at the end of the text |
| ItemSummary.DashEndSkipsDash | src/utils/formatItemDescription.ts:16 | nothing a greedy `[^-]+` consumes is a `-` |
| ItemSummary.FieldMatchAt | src/utils/formatItemDescription.ts:16-17 | an anchored field match starts at the label, and its non-empty group lies after the label |
| ItemSummary.FieldMatchAtSound | src/utils/formatItemDescription.ts:16-17 | what the anchored scanner finds is a match of the field expression: label, whitespace, then a `-`-free group that ends at a `-` or the end |
| ItemSummary.FieldMatchAtGreedy | src/utils/formatItemDescription.ts:16-17 | every field match at a position is found, and the scanner's match has the longest whitespace run, then the longest group |
| ItemSummary.FieldCaptureFrom | src/utils/formatItemDescription.ts:16-17 | `match` reports the anchored match at a position at or after the start |
| ItemSummary.FieldCaptureNoneBefore | src/utils/formatItemDescription.ts:16-17 | no field match starts before the reported one, and none exists when nothing is reported |
| ItemSummary.FieldCaptureFirst | src/utils/formatItemDescription.ts:16-17 | the leftmost field match is the one reported |
| ItemSummary.FieldCaptureAbsent | src/utils/formatItemDescription.ts:16-17 | a label that does not occur gives no match |
| ItemSummary.FieldText | src/utils/formatItemDescription.ts:22 | a field's text is trimmed |
| ItemSummary.FieldTextHasNoDash | src/utils/formatItemDescription.ts:16-26 | a field's text contains no `-` |
| ItemSummary.LowerChar | src/utils/formatItemDescription.ts:28 | lower-casing leaves no ASCII capital, and changes nothing else |
| ItemSummary.Lower | src/utils/formatItemDescription.ts:28 | lower-casing keeps the length and leaves no ASCII capital |
| ItemSummary.FirstSentenceIsPrefix | src/utils/formatItemDescription.ts:34 | `split('.')[0]` is a prefix without `.` that ends at a `.` or at the end of the text |
| ItemSummary.CombineFields | src/utils/formatItemDescription.ts:19-32 | with no colour match, the summary is the type text |
| ItemSummary.ExtractItemSummary | src/utils/formatItemDescription.ts:14-35 | an empty summary means the first sentence of the formatted description is empty too |
| ItemSummary.CombineFieldsCases | src/utils/formatItemDescription.ts:19-32 | type and colour non-empty give "colour lower(type)"; a type alone is kept as it is; an empty type gives the colour |
| ItemSummary.CombineFieldsHasNoDash | src/utils/formatItemDescription.ts:19-32 | `-`-free field texts make a `-`-free summary |
| ItemSummary.CombineFieldsBlankColour | src/utils/formatItemDescription.ts:25-29 | a matched colour with empty text turns a type into a space plus the lower-cased type, which is not trimmed |
| ItemSummary.TypeValue | src/utils/formatItemDescription.ts:21-22 | the type text is trimmed |
| ItemSummary.ColorValue | src/utils/formatItemDescription.ts:25-26 | the colour text is trimmed |
| ItemSummary.SummaryCases | src/utils/formatItemDescription.ts:21-31 | both fields non-empty give "colour lower(type)"; a type without a colour match is returned with its case unchanged; only the colour non-empty gives the colour |
| ItemSummary.SummaryFallback | src/utils/formatItemDescription.ts:34 | with no field text, the summary is the formatted description before its first `.`, and it holds no `.` and no `**` |
| ItemSummary.SummaryFromFieldsHasNoDash | src/utils/formatItemDescription.ts:16-32 | a summary built from the fields contains no `-` |
| ItemSummary.SummaryCanBeEmpty | src/utils/formatItemDescription.ts:34 | ".abc" has the empty summary |
| ItemSummary.BlankColourSpoilsSummary | src/utils/formatItemDescription.ts:25-29 | as written, a blank colour match turns the summary into a space plus the lower-cased type |
| ItemSummary.ExampleColour | src/utils/formatItemDescription.ts:17 | in "Color**: -Type of Clothing**:T", the colour group is the space before the `-`, which trims to "" |
| ItemSummary.ExampleType | src/utils/formatItemDescription.ts:16 | in the same text, the type text is "T" |
| ItemSummary.BlankColourExample | src/utils/formatItemDescription.ts:14-35 | that description gives the summary " t" as written, and "T" with the correction |
| ItemSummary.IntendedCombine | src/utils/formatItemDescription.ts:19-32 | corrected: a blank colour leaves the type as it is, and a blank type gives the colour |
| ItemSummary.IntendedCombineIsTrimmed | src/utils/formatItemDescription.ts:19-32 | corrected: trimmed field texts make a trimmed summary |
| ItemSummary.IntendedItemSummary | src/utils/formatItemDescription.ts:14-35 | corrected: an empty summary means the fallback is empty too |
| ItemSummary.IntendedSummaryCases | src/utils/formatItemDescription.ts:21-31 | corrected: a type without colour text is returned unchanged, and a summary from the fields is trimmed |
| ItemSummary.IntendedAgreesElsewhere | src/utils/formatItemDescription.ts:14-35 | the correction differs from the code only when the colour matches with blank text |

## Left out

- ItemSummary.LowerChar: maps only the ASCII capitals and leaves every other character unchanged. JavaScript's `toLowerCase` also maps the other Unicode capitals, which need the Unicode case tables.
- ItemSummary.Lower: lower-cases character by character with `LowerChar`, so it inherits the ASCII-only limit.
- Strings are sequences of Unicode code points. JavaScript indexes UTF-16 code units. None of the characters the expressions look for is a surrogate, so the extracted texts are the same. Only the index values differ.
- The whitespace set (`Strings.IsSpace`) is the fixed list of code points that JavaScript's `\s` and `trim` treat as whitespace in current engines. Changes to Unicode's space separators in other versions are not modelled.
- The wardrobe item's `description` and `image_url` are carried as opaque strings. The parser never reads them.
- The prompt that asks the model for the tagged format (`src/components/wardrobe_search/action.ts`) is not part of this model. It is a call to a hosted language model.
- The React pages, authentication, storage uploads, the HTTP wrapper and the database types are not part of this model. They are user interface or I/O.
- `lastIndex` handling for empty matches is not modelled. A recommended-item match always contains both tags, so it is never empty.

## Findings

| source | as written | input that shows it | evidently intended | confidence | as-written member | corrected member |
|---|---|---|---|---|---|---|
| src/utils/formatItemDescription.ts:25-31 | a colour field that matches but trims to "" still takes the combining branch, so the summary is a space followed by the lower-cased type | `Color**: -Type of Clothing**:T` gives `" t"` | a blank colour is skipped, and the summary is the type unchanged, `"T"` | not executed | ItemSummary.BlankColourExample | ItemSummary.IntendedItemSummary |
