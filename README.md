# Address parsing for OMOP locations, modelled in Dafny

UW_Geospatial turns free-text US addresses into the address columns of the
OMOP `location` table: `address_1`, `address_2`, `city`, `state`, `zip`. A
probabilistic tagger parses each address first. Its output is then tidied,
and every row whose state did not come out as a two-letter code goes through
a comma-splitting, rule-based fallback parser; the outcome is merged back and
flagged with a quality label. A second script builds one
"Street, City, State ZIP" string per place from shapefile attributes. This
project models those steps and proves what they do, including where they
break.

Modules, in dependency order:

- `Wrappers`: `Option`, `Result`, and `Failure`, the Python exceptions the
  code can raise (`IndexError`, `TypeError`, `AttributeError`, `KeyError`).
- `Text`: the ASCII behaviour of the Python string methods the code uses:
  `strip`, `title`, `split`, `join`, `replace`, `partition`, a leftmost
  (optionally case-insensitive) search standing for `re.findall(...)[0]`, and
  `str()` of a list of strings.
- `StateNames`: the `us_state_to_abbrev` table and `multipleReplace`.
- `Zip`: the ZIP pattern `[0-9]{5}(?:-[0-9]{4})?` and its first match.
- `Locations`: the location row and `OMOP_clean`, as a frame updated in place.
- `FallbackParser`: `custom_parser`, one row at a time and over a frame.
- `QualityFlag`: `custom_flag`.
- `Reconcile`: what `main` does after cleaning: routing, re-parsing,
  recomputing `state_abbr`, `combine_first`, and the `flag` column.
- `Centroid`: `full_address` and `keep_columns`.

`Reconcile.MainSteps` composes those steps, starting from the tagger's frame
and `OMOP_clean`, with the row parser (`FallbackParser.RowParser`) and the
canonicaliser of `state_abbr` (`Locations.StateAbbrOf`). The facts of `Reconcile` are proved for any row
parser and any canonicaliser, so they hold for these in particular.

NaN is `None` (or `Missing` for a state cell). The two state detectors of the
fallback parser are regular expressions; they are parameters here
(`Detectors`), functions from a text to the list of matches `re.findall`
returns.

Behaviour of the code that the model keeps and proves:

- **The table.** It has 57 entries: 50 states, the District of Columbia and
  six territories.
- **Replacement order.** Keys are replaced in dictionary order as plain
  substrings, so "West Virginia" becomes "West VA": "Virginia" is replaced
  before "West Virginia" is looked at (`WestVirginiaBecomesWestVA`).
- **A NaN state.** It becomes the text "nan", three characters long, so such
  a row is always routed to the fallback parser.
- **`address_2` in cleaning.** Its expression tests `not np.NaN`, which is
  always false, so cleaning leaves the column as it was.
- **Title-casing and PO boxes.** Title-casing turns "PO Box" into "Po Box".
  The PO-box rule of the quality check is case-sensitive, so it no longer sees
  it in a row that comes through as cleaned. A re-parsed row takes its
  `address_1` untouched from `location_source_value`, so the rule can still
  fire there.
- **The SUITE branch of `custom_parser` is unreachable.** It follows two
  branches whose tests are complementary.
- **`custom_parser` raises `IndexError` in three cases:**
  - an address without "APT" that has fewer than three comma segments;
  - an "APT" address with a single segment, when a branch applies to its
    last segment;
  - an "APT" address whose street segment has no marker, in the sub-branches
    that search the street.
- **Dropped rows.** A row is dropped silently when it has three segments or an
  "APT", and its last segment has a ZIP but neither an abbreviation nor a full
  state name.
- **Nothing re-parsed.** When the fallback parser returns no row, the frame it
  builds has no `state` column and the recomputation of `state_abbr` raises
  `AttributeError`. This includes the case where the tagger succeeded on
  every row.
- **The `STD_ADDR_B` branch of `full_address` is unreachable.**

## Model

| member | source | states |
|---|---|---|
| StateNames.ReplaceEach | address_parsing.py:203-204 | the reference fold: `text.replace(key, code)` for each entry in turn; its facts are `ReplaceEachAppend`, `ReplaceEachAbsent` and `ReplaceEachKeepsChar` |
| StateNames.MultipleReplace | address_parsing.py:199-205 | the loop rewrites every occurrence of each key, key by key in table order; the result equals the reference fold `ReplaceEach` over the table |
| StateNames.Canonical | address_parsing.py:199-205 | `multipleReplace` with its default table `us_state_to_abbrev`; what it keeps and changes is stated by the lemmas below |
| StateNames.ReplaceEachAppend | address_parsing.py:203-204 | replacing over a table split in two is replacing over the first part, then over the second |
| StateNames.ReplaceEachAbsent | address_parsing.py:203-204 | a text in which no key occurs is returned unchanged |
| StateNames.ReplaceEachKeepsChar | address_parsing.py:203-204 | a character found in no key and no code neither appears nor disappears |
| StateNames.ShortTextFixed | address_parsing.py:46-104 | every key has at least four characters, so any shorter text (a two-letter code, "nan", "[]") is a fixed point of the table |
| StateNames.ShortTextIdempotent | address_parsing.py:199-205 | on such texts canonicalising twice is canonicalising once |
| StateNames.CanonicalKeepsPunctuation | address_parsing.py:46-104 | no key or code has a bracket or a single quote, so canonicalising keeps exactly the brackets and quotes of the text |
| StateNames.CanonicalListLong | address_parsing.py:511-513 | the printed form of a non-empty list of names stays longer than two characters after canonicalising |
| StateNames.CanonicalByBlocks | address_parsing.py:46-104 | canonicalising over the 57-entry table is canonicalising over its seven consecutive blocks in turn |
| StateNames.WestVirginiaBecomesWestVA | address_parsing.py:94 | "West Virginia" is canonicalised to "West VA", not "WV", because "Virginia" is replaced first |
| StateNames.NevadaBecomesNV | address_parsing.py:74 | "Nevada" is canonicalised to "NV" |
| Text.Title | address_parsing.py:216 | `str.title()`: same length, same letter positions, non-letters kept |
| Text.TitleCase | address_parsing.py:216 | after `str.title()`, a letter is upper-case exactly when it starts a run of letters |
| Text.TitleIdempotent | address_parsing.py:216 | title-casing twice is title-casing once |
| Text.TitleSameLower | address_parsing.py:216 | title-casing changes only the case of letters |
| Text.LStrip | address_parsing.py:213 | `lstrip()`: the suffix left after dropping leading white space, which begins with no white space |
| Text.RStrip | address_parsing.py:213 | `rstrip()`: the prefix left after dropping trailing white space, which ends with no white space |
| Text.Strip | address_parsing.py:213 | `str.strip()`: the infix with no white space at either end, with only white space outside it |
| Text.StripStripped | address_parsing.py:213 | stripping a stripped text changes nothing |
| Text.Split | address_parsing.py:245 | `str.split(",")`: at least one piece; `SplitJoin` states that the pieces are exactly the comma-free texts between commas |
| Text.Join | calculate_centroid.py:42 | `", ".join(parts)`: the pieces with the separator between each two; `SplitJoin` and `SplitThree` split it back |
| Text.SplitJoin | address_parsing.py:245 | `split(",")` loses nothing: joining the pieces with "," gives the text back, and no piece has a comma |
| Text.SplitAfterPiece | address_parsing.py:245 | a comma-free piece followed by a comma is the first segment of the split |
| Text.Lower | address_parsing.py:248 | `lower()`: same length, each letter lower-cased, standing for `re.IGNORECASE` |
| Text.Find | address_parsing.py:248 | the leftmost (optionally case-insensitive) occurrence, or `None` exactly when there is none |
| Text.Partition | address_parsing.py:312-316 | `str.partition`: the three parts rebuild the text; the cut is at the first exact occurrence, or the text is whole and the other parts are empty |
| Text.ReplaceAll | address_parsing.py:204 | `s.replace(k, v)`: every non-overlapping occurrence of `k`, scanning from the left, replaced by `v`; `ReplaceAbsent` and `ReplaceAtEnd` are its facts |
| Text.ReplaceAbsent | address_parsing.py:204 | `str.replace` of a key that does not occur changes nothing |
| Text.ReplaceAtEnd | address_parsing.py:204 | a key at the end of a text whose first character does not occur before it is replaced once, at the end |
| Text.Quoted | address_parsing.py:511-513 | `repr` of one list item: the text between single quotes |
| Text.ListRepr | address_parsing.py:511-513 | `str()` of a list of names: brackets at both ends, "[]" exactly for the empty list, a quote otherwise |
| Zip.ZipStart | address_parsing.py:109 | the leftmost position where five digits start, or `None` exactly when there is none |
| Zip.FirstZip | address_parsing.py:109 | the first match is the five digits at the leftmost such position, extended greedily by "-dddd" exactly when those characters follow |
| Zip.ZipAfterText | address_parsing.py:109 | a ZIP after text with no digit is the first match |
| Zip.NoZipWithoutDigits | address_parsing.py:109 | a text with no digit has no match |
| Locations.CellText | address_parsing.py:213-220 | `str(x)` of a cell: the text itself, or "nan" for NaN |
| Locations.StateText | address_parsing.py:213 | `str(x)` of a state cell: "nan" for NaN, the name for a string, Python's printed list for a list of matches |
| Locations.StateAbbrOf | address_parsing.py:213 | `multipleReplace(str(x).strip())` of a state cell; `ShortStateKept`, `MissingStateIsNan` and `WestVirginiaState` say what it gives |
| Locations.TidyText | address_parsing.py:216-220 | `str(x).strip().title()` of a street or city cell; `TidyTextShape` says what it gives |
| Locations.TidyTextShape | address_parsing.py:215-221 | `str(x).strip().title()`: stripped, title-cased, and the same letters up to case as the stripped text |
| Locations.CleanRow | address_parsing.py:208-222 | one row after `OMOP_clean`: `state_abbr` from the state, street and city tidied, the other cells kept; `CleanRowIdempotent` and `CleanedMissingIsNan` are its facts |
| Locations.CleanFrame | address_parsing.py:208-222 | the frame after `OMOP_clean`: the same labels in the same order, each row cleaned; `CleanFrameIdempotent` is its fact |
| Locations.CleanOne | address_parsing.py:213-220 | the row computed with the `multipleReplace` loop, `strip` and `title` is the specified cleaned row `CleanRow` |
| Locations.CleanFrameIdempotent | address_parsing.py:208-222 | cleaning a cleaned frame changes nothing: every label, row and cell stays as it is |
| Locations.LocationFrame.OmopClean | address_parsing.py:208-222 | the loop cleans the rows one at a time with `CleanOne`; the frame after the call is `CleanFrame` of the frame before it |
| Locations.TidyTextIdempotent | address_parsing.py:215-221 | tidying a tidied text changes nothing |
| Locations.CleanRowIdempotent | address_parsing.py:208-222 | cleaning a cleaned row changes nothing |
| Locations.CleanedMissingIsNan | address_parsing.py:215-221 | a missing `address_1` or `city` becomes the text "Nan" |
| Locations.ShortStateKept | address_parsing.py:213 | a stripped state text shorter than four characters becomes `state_abbr` unchanged |
| Locations.MissingStateIsNan | address_parsing.py:213 | a missing state gives `state_abbr` "nan", which the router sends to the fallback parser |
| Locations.MatchListStateLong | address_parsing.py:511-513 | a non-empty list of full names gives a `state_abbr` longer than two characters |
| Locations.EmptyMatchListState | address_parsing.py:511-513 | an empty list gives `state_abbr` "[]" |
| Locations.WestVirginiaState | address_parsing.py:213 | a tagger state "West Virginia" gives `state_abbr` "West VA" |
| FallbackParser.Resolve | address_parsing.py:250-299 | the four-branch table on the last segment: abbreviation first; with no abbreviation, a full name when there is a ZIP, or the whole list of full names and no ZIP when there is none; no branch exactly when there is a ZIP and neither kind of name |
| FallbackParser.FirstApt | address_parsing.py:309 | the text of the leftmost case-insensitive "APT", exactly when there is one |
| FallbackParser.MarkerPartition | address_parsing.py:309-316 | partitioning the street at the whole address's first marker cuts at the street's own first marker, or leaves the street whole |
| FallbackParser.ParseRow | address_parsing.py:243-454 | a NaN address raises `AttributeError`; only `AttributeError` or `IndexError` is ever raised; an emitted row keeps its source and `state_abbr` |
| FallbackParser.PlainBranch | address_parsing.py:248-300 | raises `IndexError` exactly when there are fewer than three segments, and drops exactly when no branch applies; otherwise the street and city are the first two segments, `address_2` is NaN, and state and ZIP come from the table |
| FallbackParser.MarkerBranch | address_parsing.py:303-377 | drops exactly when no branch applies; raises `IndexError` exactly when there is one segment, or the street has no marker and the sub-branch searches the street; otherwise the city is the second segment, and state and ZIP come from the table |
| FallbackParser.MarkerCut | address_parsing.py:306-318 | `address_1 + address_2` is the street; `address_2` starts at the street's leftmost case-insensitive "APT", or is "" when the street has none |
| FallbackParser.CutAtFirstMarker | address_parsing.py:307-316 | the same cut whether the marker is taken from the whole address or from the street |
| FallbackParser.NoMarkerRow | address_parsing.py:245-300 | for an address without "APT": fails exactly with fewer than three segments, emits the first two segments verbatim with NaN `address_2`, and takes state and ZIP from the table |
| FallbackParser.MarkerRow | address_parsing.py:303-377 | for an address with "APT", an emitted row has the second segment as city, the street cut at its marker, and state and ZIP from the table |
| FallbackParser.MarkerRowFails | address_parsing.py:303-377 | for an address with "APT", the exact condition under which the row raises `IndexError` |
| FallbackParser.SuiteOnlyRow | address_parsing.py:380-452 | an address with "Suite" but no "APT" never reaches the SUITE branch: its street stays whole and `address_2` is NaN |
| FallbackParser.EmittedStateNotNull | address_parsing.py:255-299 | an emitted row always has a non-null state |
| FallbackParser.DispatchPlain | address_parsing.py:248 | an address without "APT" goes through the branch without a marker |
| FallbackParser.DispatchMarker | address_parsing.py:303 | an address with "APT" goes through the branch with a marker |
| FallbackParser.PlainDropped | address_parsing.py:248-300 | without "APT", a row is dropped exactly when it has three segments and no branch applies to its last one |
| FallbackParser.MarkerDropped | address_parsing.py:303-377 | with "APT", a row is dropped exactly when no branch applies to its last segment |
| FallbackParser.DroppedRow | address_parsing.py:248-377 | a row is dropped exactly when it has three segments or an "APT", so that it does not raise first, and its last segment has a ZIP but neither an abbreviation nor a full name |
| FallbackParser.RowParser | address_parsing.py:502-507 | `custom_parser` on one row with the two state detectors fixed |
| FallbackParser.ParseFrame | address_parsing.py:243-454 | the frame succeeds exactly when no row raises, and yields at most one row per input row |
| FallbackParser.ParseFrameSources | address_parsing.py:243-454 | every output row is the emitted row of an input row with the same label |
| FallbackParser.ParseFrameKeeps | address_parsing.py:243-454 | every emitted row is in the output |
| FallbackParser.ParseFrameOrdered | address_parsing.py:243-454 | with increasing labels in, the labels out increase too |
| FallbackParser.CustomParser | address_parsing.py:243-454 | the loop gives the frame function's result: rows appended in order, and the first exception ends the loop |
| FallbackParser.ParseFrameFailed | address_parsing.py:243-454 | once a prefix of the frame raises, the whole frame raises the same exception |
| QualityFlag.Label | address_parsing.py:462-477 | the seven texts written to the `flag` column |
| QualityFlag.MentionsPoBox | address_parsing.py:461 | rule 1: "PO" or "P.O." occurs in the text, case-sensitively |
| QualityFlag.StartsWithUnit | address_parsing.py:463-465 | rule 2: the line starts with "APT" or "SUITE", ignoring case |
| QualityFlag.HasSpecial | address_parsing.py:470 | rule 4: some character is neither alphanumeric nor white space |
| QualityFlag.HasNull | address_parsing.py:474 | rule 6: `address_1`, `city`, `state` or `zip` is NaN; a list in `state`, even an empty one, is not |
| QualityFlag.CustomFlag | address_parsing.py:457-477 | for each of the seven labels and the two exceptions, the exact condition under which it is the outcome, in rule order |
| QualityFlag.PoplarIsPoBox | address_parsing.py:461 | "123 POPLAR AVE" is flagged as a PO box, because the test is a plain substring test |
| QualityFlag.TitledPoBoxStartsWithLetter | address_parsing.py:461-468 | a title-cased "Po Box 12" escapes the PO-box rule and is flagged as starting with a letter |
| QualityFlag.MatchListNeverSucceeds | address_parsing.py:472-477 | a row whose state is a non-empty list of names, with `state_abbr` recomputed, is never incomplete or a success |
| QualityFlag.EmptyMatchListCanSucceed | address_parsing.py:472-477 | an empty list of names passes rules 5 and 6, so such a row can be a success with no state |
| QualityFlag.LabelsDistinct | address_parsing.py:462-477 | the seven labels are pairwise different |
| Reconcile.NeedsFallback | address_parsing.py:499-500 | the routing test `len(str(state_abbr)) > 2` |
| Reconcile.Route | address_parsing.py:500-501 | a row is routed exactly when its `state_abbr` is longer than two characters; routing keeps label order |
| Reconcile.CleanedRouting | address_parsing.py:213 | a cleaned row is routed exactly when the canonical text of its state is longer than two characters, and always when the state is missing |
| Reconcile.RouteNone | address_parsing.py:501 | no row is routed when every `state_abbr` is short |
| Reconcile.RecomputeStateAbbr | address_parsing.py:511-513 | each row's `state_abbr` set from its own state, everything else kept; an empty frame, which has no `state` column, raises `AttributeError` |
| Reconcile.RecomputeIdempotent | address_parsing.py:511-513 | recomputing `state_abbr` a second time changes nothing |
| Reconcile.RecomputeAsCleaned | address_parsing.py:511-513 | with `multipleReplace`, the recomputed `state_abbr` is the one `OMOP_clean` gives a row with the same state (line 213) |
| Reconcile.EmptyFallbackFails | address_parsing.py:503-513 | when the fallback parser returns no row, the step raises `AttributeError` |
| Reconcile.NothingRoutedFails | address_parsing.py:500-513 | when the tagger gave every row a short state, the step raises `AttributeError` |
| Reconcile.CombineCell | address_parsing.py:516 | one cell of `combine_first`: the fallback cell unless it is NaN |
| Reconcile.CombineState | address_parsing.py:516 | a state cell of `combine_first`: the fallback cell, a list included, unless it is NaN |
| Reconcile.CombineRow | address_parsing.py:516 | a row of `combine_first`, cell by cell; `CombineRowNulls`, `CombineRowIdempotent` and `CombineRowAgrees` are its facts |
| Reconcile.CombineRowNulls | address_parsing.py:516 | a cell of the combined row is null exactly when it is null in both rows |
| Reconcile.CombineRowIdempotent | address_parsing.py:516 | laying the same fallback row over a row twice is laying it over once |
| Reconcile.CombineRowAgrees | address_parsing.py:516 | laying a row over one it agrees with wherever it is not null gives that row |
| Reconcile.Lookup | address_parsing.py:516 | finds a row with the label, or `None` exactly when there is none |
| Reconcile.LookupAt | address_parsing.py:516 | with increasing labels, looking a row's label up finds that row |
| Reconcile.Extra | address_parsing.py:516 | the fallback rows whose label the cleaned frame lacks |
| Reconcile.Overlaid | address_parsing.py:516 | a cleaned row with the fallback row of the same label laid over it, or unchanged when there is none; `LookupAt` and `ReparsedRow` are its facts |
| Reconcile.CombineFirst | address_parsing.py:516 | `combine_first`: one row per cleaned row with its label, each overlaid, then the fallback rows whose label the cleaned frame lacks |
| Reconcile.CombineFirstNoOver | address_parsing.py:516 | with no fallback rows, `combine_first` returns the cleaned frame |
| Reconcile.CombineFirstIdempotent | address_parsing.py:516 | when every fallback row has a label of the cleaned frame, combining twice is combining once |
| Reconcile.FirstError | address_parsing.py:519-521 | the error that `apply` raises: that of the first row whose check raises |
| Reconcile.FlagRows | address_parsing.py:519-521 | succeeds exactly when no row raises, and then flags each row with `custom_flag`; an error is that of the first row that raises |
| Reconcile.FallbackRows | address_parsing.py:502-513 | the routed rows through the row parser, with `state_abbr` recomputed |
| Reconcile.Reconciled | address_parsing.py:500-521 | the whole step from the cleaned frame: routing, re-parsing, recomputing, `combine_first` and the flags; `ReconciledRows` and `ReparsedRow` say what it gives |
| Reconcile.MainSteps | address_parsing.py:497-521 | `Reconciled` from the tagger's frame, after `OMOP_clean`, with `custom_parser` and `multipleReplace`; `MainStepsRows` says what it gives |
| Reconcile.FallbackLabels | address_parsing.py:503-511 | every row the fallback parser returns carries a label of the cleaned frame |
| Reconcile.ExtraEmpty | address_parsing.py:516 | so `combine_first` adds no row |
| Reconcile.FallbackIncreasing | address_parsing.py:503-513 | the fallback output keeps label order |
| Reconcile.EmittedKept | address_parsing.py:503-511 | a routed row that the parser emits is in the parser's output, with its label |
| Reconcile.NotReparsed | address_parsing.py:501-516 | a row that was not routed, or whose re-parse was dropped, has no fallback row |
| Reconcile.Reparsed | address_parsing.py:501-516 | a routed row that the fallback parser emits is found with its recomputed `state_abbr` |
| Reconcile.ReconciledRows | address_parsing.py:500-521 | the final frame has one row per cleaned row, in order, each flagged; unrouted and dropped rows come through unchanged |
| Reconcile.ReparsedRow | address_parsing.py:500-521 | a routed row that the fallback parser emits ends up as the parser's row laid over the cleaned row |
| Reconcile.MainStepsRows | address_parsing.py:497-521 | from the tagger's frame, `main` gives one flagged row per row, in order, and a row whose canonical state is short comes through as `OMOP_clean` left it |
| Centroid.AddColumn | calculate_centroid.py:42 | assigning a column keeps the existing columns in order and adds the new name last when it is new |
| Centroid.ZipColumn | calculate_centroid.py:25-28 | "ZIP" when present, else "ZIPCODE"; the chosen column exists exactly when one of the two does |
| Centroid.StateColumn | calculate_centroid.py:30-33 | "STATE" when present, else "STNAME"; the chosen column exists exactly when one of the two does |
| Centroid.AddressColumn | calculate_centroid.py:35-40 | "ADDRESS" when present, else "STREET"; never "STD_ADDR_B"; the chosen column exists exactly when one of the two does |
| Centroid.HasInputs | calculate_centroid.py:25-40 | a street, a city, a state and a ZIP column exist under one of the names the script tries |
| Centroid.InputsPresent | calculate_centroid.py:25-42 | the inputs are found exactly when there are a street, a city, a state and a ZIP column under one of their names |
| Centroid.Fill | calculate_centroid.py:42 | `fillna('NaN')` of a street, city or state cell |
| Centroid.AllMissingAddress | calculate_centroid.py:42 | a row with every input empty gets an address that splits into "NaN", " NaN" and " NaN nan": the text cells are filled with "NaN", the ZIP prints as "nan" |
| Centroid.MissingZipNotRecovered | calculate_centroid.py:42 | with a missing ZIP and a state without digits, the last segment holds no ZIP for the fallback parser to find |
| Centroid.FullAddressOf | calculate_centroid.py:42 | the full address of one row: street, city and state joined by ", ", a space, then the ZIP |
| Centroid.FullAddressSplits | calculate_centroid.py:42 | when no component has a comma, the full address splits on commas into exactly the street, the city after a space, and the state and ZIP after a space |
| Centroid.SplitThree | calculate_centroid.py:42 | the same for the joined texts |
| Centroid.FullAddressParses | address_parsing.py:245-300 | such an address without "APT" never raises in the fallback parser; the street comes back as written, the city with a leading space, and state and ZIP come from the table on the last segment |
| Centroid.FullAddressZip | calculate_centroid.py:42 | with a well-formed ZIP and a state text without digits, the ZIP the fallback parser finds is the row's own |
| Centroid.FullAddressColumn | calculate_centroid.py:42 | the `Full_Address` cell of every row, one per row |
| Centroid.WithFullAddress | calculate_centroid.py:25-44 | `KeyError` exactly when an input column is missing; otherwise the `Full_Address` column holds every row's full address and every other column is kept |
| Centroid.FullAddressIdempotent | calculate_centroid.py:42 | running `full_address` twice gives the same frame as running it once |
| Centroid.GeoFrame.FullAddress | calculate_centroid.py:12-44 | the method builds the column row by row; the frame afterwards is the value-level result, or unchanged with `KeyError` |
| Centroid.KeepColumns | calculate_centroid.py:111-126 | `KeyError` exactly when one of the five columns is missing; otherwise exactly those five, in order, with their cells and all rows |
| Centroid.KeepColumnsIdempotent | calculate_centroid.py:123-124 | projecting a projected frame changes nothing |
| Centroid.KeepAfterFullAddress | calculate_centroid.py:111-126 | after `full_address`, the projection succeeds exactly when the four centroid columns are present |

## Left out

- The probabilistic tagger (`usaddress_parse`, `OMOP_Dataset`, the tag
  template) is not modelled. The model starts from the frame it produces.
- The state detectors `state_abbr_pattern` and `state_full_pattern` are
  parameters. That is, only the list of matches each returns is modelled,
  not the regular expressions themselves.
- Text is ASCII. Python's Unicode rules for `title()`, `strip()`, `isdigit()`
  and `isalnum()` are not modelled.
- Text.ListRepr: does not model Python's switch to double quotes for a string
  that contains a single quote.
- Text.Quoted: does not double a backslash, as `repr` does. A name with a
  backslash is printed with one backslash where Python prints two.
- FallbackParser.ParseRow: the parser reads the address from
  `location_source_value`, the column `OMOP_Dataset` builds
  (address_parsing.py:144). `main` passes `args.address_col` instead
  (address_parsing.py:505); when that names another column, `row[address_col]`
  raises `KeyError`. That case is not modelled.
- Locations.CellText: a ZIP cell is taken to hold text already. The printing of
  a numeric column (such as "98105.0" for a float column with NaN) is not
  modelled.
- Cells of types other than text are not modelled. This covers `CITY`, and
  the geometry and coordinate columns, which are carried as text cells. The
  `TypeError` that `', '.join` raises on a non-text cell is therefore absent.
- Reconcile.CombineFirst: the rows come out in the cleaned frame's order with
  any extra rows last. pandas sorts the union of the labels instead. The two
  agree when the labels increase, which is what `ReconciledRows` assumes.
- Duplicate labels are not modelled. All frames are taken to have distinct,
  increasing labels (`Increasing`).
- The question of which columns exist in pandas frames is not modelled,
  except where a missing column raises. Examples are the frame built by
  `pd.DataFrame(tmp)` without a `state` column, and the inputs of
  `full_address` and `keep_columns`.
- Reading and writing files, argument parsing, `drop_duplicates`, directory
  handling, and the printing at the end are I/O and are not modelled.
- The rest of `calculate_centroid.py` is not modelled: `read_shp`,
  `convert_EPSG4326`, `get_centroid` (CRS reprojection and floating-point
  centroids) and `save_shp`.
- `spatial_join.py` is not part of this model.
- The OMOP columns that no modelled step reads or writes are not modelled.
- State codes in the table are checked only through the facts proved about
  it (key lengths, punctuation, "Nevada", "West Virginia"). A wrong code
  elsewhere in the literal would not be caught.
