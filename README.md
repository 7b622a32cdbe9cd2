# Ocean drilling database compilers, modelled in Dafny

This project models the core of the `ocean_drilling_db` compilers. They
gather what the Deep Sea Drilling Project (DSDP), the Ocean Drilling
Program (ODP), the Integrated Ocean Drilling Program (IODP) and the drill
ship Chikyu published about their holes into a few standardised tables:

- **hole metadata** (`metadata.py`): one row per hole, with leg, site,
  hole, decimal-degree coordinates, water depth and penetration. Each row
  carries a hole key and a site key.
- **interstitial-water chemistry** (`iw_chem.py`): one row per sample and
  replicate, with standard analyte columns in standard units.
- **age-depth points** (`age_depth.py`): depth intervals with ages in
  years, joined to the hole metadata.
- **moisture and density** (`mad.py`) and **carbon, nitrogen and sulfur**
  (`cns.py`): projections of the four programmes' tables onto one set of
  columns.

## How the tables are represented

A pandas table is a `Frames.Frame`: a header and rows of cells. A cell
(`Frames.Cell`) is missing (pandas' NaN), text, or a real number.

- Reading a column by name that does not exist is a `Failure`, as are
  `float()` on text it cannot read and an index into an empty list. These
  are the exceptions pandas or Python would raise. Every loader therefore
  returns a `Wrappers.Result`.
- Files, directory listings and `read_csv`/`read_excel` are not modelled.
  Each loader takes the tables it would have read as parameters. Chikyu
  directories and IODP workbooks are sequences of named tables.
- Loops that update state step by step are methods with loop invariants,
  proved equal to the function that states the step:
  - the hole fix-ups on an array of rows;
  - the Chikyu hole-name split;
  - the sign loop of the coordinate transform;
  - the card numbering and card merge of the DSDP chemistry loader;
  - the file scans of the Chikyu loaders.
- Merges on sample and replicate keys (`Reshape.Merged`) are keyed maps.
  The row order pandas would give them is not modelled (see below).
- Integers and reals are unbounded. `int()` truncation toward zero is
  written out (`IwChem.Trunc`).
- Three slips of the source are listed under "## Findings". For each,
  the model keeps a member that computes what the code as written
  computes, and a corrected member. The loaders use the corrected members
  (see "## Left out" for the loaders this concerns).
- Two other oddities of the source are modelled as written:
  - The ODP age profiles set the age to the depth midpoint, as
    age_depth.py:94 does (`AgeOdp.ProfilePoint`).
  - The IODP chemistry depth tests `== np.nan` at iw_chem.py:246-249
    never hold. The average of a missing end is missing anyway, so
    `IwIodp.SampleDepthAt` states the depth the loop actually computes.

## Model

| member | source | states |
|---|---|---|
| Metadata.Standardise | metadata.py:49-58 | The projection onto the seven canonical columns succeeds exactly when every listed source column exists. It gives the canonical header and keeps every row. |
| Metadata.StandardiseGet | metadata.py:44-58 | The k-th canonical column of every row holds the k-th listed source column of that row, which is the `dict(zip(...))` rename. |
| Metadata.LoadDsdp | metadata.py:49-50 | The DSDP summary loads exactly when all seven DSDP columns are present, and has the canonical header and the same rows. |
| Metadata.LoadIodp | metadata.py:55-56 | The IODP summary loads exactly when all seven IODP columns are present, and has the canonical header and the same rows. |
| Metadata.FirstHeaderAt | metadata.py:31-39 | The ODP header chosen for a regular expression is a matching header, and no earlier header matches. |
| Metadata.FirstHeaderFound | metadata.py:39 | The header search fails (an IndexError) only when no header matches. |
| Metadata.OdpColumns | metadata.py:39 | The ODP source columns are seven, starting with Leg, Site and Hole. |
| Metadata.OdpRows | metadata.py:51-54 | The loaded ODP rows are exactly the rows whose leg is a number of at least 100, in order. Water depth is stripped and read as a number. Every other column is unchanged. |
| Metadata.WaterDepthText | metadata.py:54 | A water depth written as whole-metre digits with surrounding blanks reads back as that number. A blank cell becomes missing. |
| Metadata.ChikyuStandard | metadata.py:57-61 | The Chikyu summary gets the canonical header and loses its first data row. |
| Metadata.SplitRowGet | metadata.py:62-64 | After the split, `site` plus `hole` is the original HOLENAME, `hole` is its last character, and every other column is unchanged. |
| Metadata.SplitRowsAt | metadata.py:62-64 | The split loop fails if some row cannot be split. When it succeeds, row n of the result is row n split. |
| Metadata.SplitRowsOk | metadata.py:62-64 | When every row can be split, the loop succeeds. |
| Metadata.SplitHoleNames | metadata.py:62-64 | The in-place loop over the rows computes the row-by-row split. |
| Metadata.HemisphereSign | metadata.py:82-88 | The sign is -1 exactly when the coordinate contains S or W, and 1 otherwise. |
| Metadata.SignsOf | metadata.py:81-88 | The signs are computed exactly when every coordinate is text, one sign per coordinate. |
| Metadata.Signs | metadata.py:81-88 | The loop that appends one sign per coordinate computes those signs. |
| Metadata.StripCoords | metadata.py:67-70 | Each stripped coordinate is its text with the six bad characters removed in turn. |
| Metadata.RemoveBadChars | metadata.py:67-70 | Removing the bad characters adds no character. After all six removals no apostrophe and no N, S, E or W is left. |
| Metadata.CoordTransform | metadata.py:80-93 | The transform gives one value per coordinate. |
| Metadata.CoordTransformAt | metadata.py:80-93 | Each transformed value is the cell's own conversion under its own hemisphere sign, and the cell was text. |
| Metadata.CoordOfText | metadata.py:72-93 | A coordinate written `d° m' h` becomes d + m/60 decimal degrees, negated in the southern and western hemispheres. |
| Metadata.CoordWithoutMinutes | metadata.py:72-78 | A coordinate without a minutes part becomes missing: NaN minutes make the sum NaN. |
| Metadata.CleanDegreesMinutes | metadata.py:72-78 | The cleaned text `d m ` gives d + m/60 times the sign. |
| Metadata.MinutesNumber | metadata.py:75 | The minutes group keeps its leading blank, and float() reads it as the minutes. |
| Metadata.RemoveBadText | metadata.py:96 | Removing the bad characters from `D° M' h` leaves `D M `. |
| Metadata.WithCoordinatesGet | metadata.py:98-102 | `lat` and `lon` of every row become their own converted values, and every other column is unchanged. |
| Metadata.FixedRow | metadata.py:109-118 | A row that no fix-up selects is unchanged. A selected row gets the corrected site and hole. No other column changes. |
| Metadata.FixedRowIdempotent | metadata.py:109-118 | Applying the hole fix-ups twice is the same as applying them once. |
| Metadata.FixedSiteNumbered | metadata.py:117-118 | Sites U395 and U858 become the numbers 395 and 858, which as text are "395" and "858", as the other programmes write them. |
| Metadata.FixHoles | metadata.py:109-118 | The in-place pass replaces each row of the array by its corrected row. |
| Metadata.FixHole | metadata.py:109-118 | The seven assignments, in source order, give the corrected row. |
| Metadata.FixByLeg | metadata.py:109-116 | Rows of Expedition 335 or Leg 302 get the corrected site, and hole for 335. All other rows are unchanged. |
| Metadata.Corrected | metadata.py:109-118 | The corrected table has the same header and row count, and each row is corrected on its own. |
| Metadata.TextColumnsGet | metadata.py:121 | Each listed column of each row is the cell as text. Every other column is unchanged. |
| Metadata.NumberColumnsGet | metadata.py:122 | After a successful conversion, each listed column of each row is the cell read as a number. Every other column is unchanged. |
| Metadata.NumberColumnsOk | metadata.py:122 | The float conversion succeeds when every listed cell can be read as a number. |
| Metadata.AssignTypesOk | metadata.py:121-122 | Assigning types succeeds exactly when every coordinate, depth and penetration cell reads as a number. |
| Metadata.AssignTypesGet | metadata.py:121-122 | leg, site and hole become text. The four measures become numbers. Any other column is unchanged. |
| Metadata.AddKeysOk | metadata.py:125-130 | Keys can be added to every table with the canonical columns. |
| Metadata.AddKeysGet | metadata.py:125-130 | A row's hole key is the position of its (site, hole) pair among the distinct pairs, and its site key that of its site. The other published columns are unchanged. |
| Metadata.HoleKeysMatch | metadata.py:125-126 | Two rows share a hole key exactly when they share site and hole. |
| Metadata.SiteKeysMatch | metadata.py:128-129 | Two rows share a site key exactly when they share the site. |
| Metadata.HoleKeysDense | metadata.py:125 | Hole keys run from 0 without a gap: every number below the count of distinct holes is some row's key. |
| Metadata.StackedShape | metadata.py:105-106 | The concatenated summaries have the canonical header and the sum of their rows. |
| Metadata.CompileMetadataRows | metadata.py:105-130 | The compiled table has exactly the rows of the four loaded summaries. |
| Keys.Distinct | metadata.py:125 | `drop_duplicates()` gives each value once, and every input value is among them. |
| Keys.DistinctFrom | metadata.py:125 | Every distinct value occurs in the input. |
| Keys.SampleKeys | iw_chem.py:31-37 | Each row's key is the position of its own tuple in the table of distinct tuples: the `reset_index` number the left merge joins onto the row. |
| Keys.KeysMatchTuples | iw_chem.py:31-37 | Two rows share a sample key exactly when they share the identifying tuple. |
| Keys.KeysDense | iw_chem.py:31-37 | Every number below the count of distinct tuples is some row's key. |
| Keys.KeysByFirstOccurrence | iw_chem.py:31-33 | Keys are given out in order of first occurrence: a new tuple gets the next number and a repeated tuple an earlier one. |
| Keys.RepKeysUnique | iw_chem.py:46 | `cumcount()+1` starts at 1 and strictly increases within a key, so no two rows share a (sample_key, rep_key) pair. |
| Keys.RepKeysBounded | iw_chem.py:46 | A row's replicate number lies between 1 and the number of rows with its key. |
| Keys.RepKeysContiguous | iw_chem.py:46 | The rows of one key carry exactly the replicate numbers 1 to n, where n is the number of rows with that key. |
| Units.Scale | iw_chem.py:94-95 | Scaling a column fails on text. It multiplies a number and leaves a missing value missing. |
| Units.ToNumber | iw_chem.py:145 | `float()` on a cell succeeds on text exactly when the text is a decimal number, and then gives that number. Numbers and missing values pass through. |
| Units.Textual | iw_chem.py:97 | `applymap(str)` never yields a missing cell and keeps text as it is. A whole number becomes its digits (see `TextualRoundTrip`). |
| Units.TextualRoundTrip | metadata.py:121 | A whole number written by `astype(str)` is text, and reads back as the same number. |
| Units.TextualTwice | cns.py:156 | Writing as text twice is writing once. The result is text unless the cell is a fractional number, because float rendering is not modelled. |
| Units.TextualWholeInjective | iw_chem.py:97 | Two whole numbers, such as sample keys, have the same text exactly when they are equal. |
| Units.ReadFloat | iw_chem.py:204 | `applymap(float)` reads the text "nan" as missing and other text as a decimal number. |
| Units.ReadFloatTextual | iw_chem.py:204 | What `applymap(str)` wrote, `applymap(float)` reads back unchanged, including a missing value. |
| Units.ReadCells | iw_chem.py:204 | `applymap(float)` succeeds exactly when every cell reads as a number. It keeps the header and rows. |
| Units.ReadCellsGet | iw_chem.py:204 | Each cell of the numeric table is its own cell read as a number. |
| Units.ParseScale | iw_chem.py:145-150 | `col.astype(float) * k` succeeds exactly when the cell reads as a number, and then scales it. |
| Units.ScaleInverse | iw_chem.py:145-150 | Scaling by a non-zero factor is undone by its reciprocal, so a unit conversion loses no value. |
| Units.ToNumberIntText | iw_chem.py:139 | The decimal text of a whole number reads back as that number. |
| Units.ConvertColumnsGet | iw_chem.py:207-218 | After a run of column conversions, each cell holds its own conversion. |
| Units.ConvertColumnsOk | iw_chem.py:207-218 | The run succeeds when every named column exists and every cell converts. |
| Units.ConvertedUnlisted | iw_chem.py:207-218 | A column no conversion names keeps its cells. |
| Units.ConvertedOnly | iw_chem.py:207-218 | A column exactly one conversion names gets that conversion and no other. |
| Canon.Project | mad.py:24-31 | `rename(...)[names]` plus the cleaning loop succeeds exactly when every name exists after the rename. It gives exactly the named columns and keeps every row. |
| Canon.ProjectGet | mad.py:24-31 | Each projected column holds its source column, stripped when it held text and missing where it was empty. |
| Canon.ProjectConvert | mad.py:24-32 | A projection followed by one column conversion fails when a named column is missing, and otherwise keeps the named header and the rows. |
| Canon.ProjectConvertGet | mad.py:24-32 | Each projected column holds its cleaned source values, and the converted column holds them after the conversion. |
| Reshape.ColumnReadings | iw_chem.py:131-135 | Each stacked piece becomes one reading with its row's sample key. Its replicate number is `cumcount()+1` over the stacked rows. |
| Reshape.StackedCount | iw_chem.py:131-133 | A sample has as many stacked pieces as its rows hold in all. |
| Reshape.StackedRow | iw_chem.py:131-133 | The pieces of row n come, in order, right after the pieces of the rows before it. |
| Reshape.RepOfPiece | iw_chem.py:131-135 | The j-th piece of a sample that occupies one row gets replicate number j + 1. |
| Reshape.ColumnReadingsUnique | iw_chem.py:131-135 | No two readings of one stacked column share a (sample_key, rep_key) pair. |
| Reshape.ColumnHasKey | iw_chem.py:131-136 | Row (s, r) draws on a stacked column exactly when r lies between 1 and the number of pieces sample s holds in it. |
| Reshape.HasKeyIff | iw_chem.py:136 | An outer-merged row exists exactly when some reading carries its key. |
| Reshape.LookupUnique | iw_chem.py:136 | A reading that no other reading competes with is the merged value of its cell. |
| Reshape.LookupAbsent | iw_chem.py:136 | A cell that no reading fills is missing after the outer merge. |
| Reshape.MergedKeysExact | iw_chem.py:136 | The merged rows are exactly the keys some reading carries, in ascending key order. |
| Reshape.MergedKeysBounded | iw_chem.py:136-137 | Every merged key names a known sample and a replicate number from 1 to R. |
| Reshape.Merged | iw_chem.py:136-137 | The merged table has one row per key, and each cell is the reading for that key and column, or the sample's label. |
| Reshape.MergedRowOf | iw_chem.py:136 | Every key some reading carries has a row in the merged table. |
| Reshape.ZipMapAt | iw_chem.py:238 | Over distinct columns, `dict(zip(columns, names))` maps column k to the k-th name. |
| Reshape.ZipMapKeys | iw_chem.py:238 | The keys of `dict(zip(...))` are exactly the columns that zip reached. |
| Reshape.GroupCellsExact | iw_chem.py:239 | A group's cells are exactly the row's cells in the columns mapped to the group, left to right. |
| Reshape.GroupedColumns | iw_chem.py:239 | `groupby(by=dict, axis=1)` has one column for each name some column is mapped to, and for no other name. |
| Reshape.GroupedGet | iw_chem.py:239 | Each group column holds the combination of that row's cells in the group's columns. |
| Reshape.MeanPresent | iw_chem.py:239 | `mean()` is missing when no cell is a number. Otherwise it times the count of numbers equals their sum. |
| Reshape.MeanOfEqual | iw_chem.py:239 | Averaging replicate columns that agree on one value gives that value. |
| Reshape.MeanSkipsMissing | iw_chem.py:239 | Missing values do not change the mean. |
| Reshape.FirstPresentAt | age_depth.py:144 | `first()` is the first cell that is not missing, and it is missing only when every cell is. |
| Joins.PlanExact | iw_chem.py:321 | An outer merge pairs exactly the agreeing rows, and keeps every left row and right row that has no partner. |
| Joins.OuterMerge | iw_chem.py:321 | The merged header is the union of the two headers. Each merged row is its pair's cells, left first. |
| Joins.MergeKeepsLeft | iw_chem.py:321 | Every left row survives the outer merge with all its cells. |
| Joins.MergeKeepsRight | iw_chem.py:321 | Every right row survives the outer merge with all its cells. |
| Joins.MergedRowFrom | iw_chem.py:321 | Every merged row comes from a left row, a right row, or an agreeing pair. |
| Sorting.SortRowsPermutes | age_depth.py:58 | Sorting returns the input rows, each as often as before. |
| Sorting.SortRowsSorted | age_depth.py:58 | Sorted rows ascend on the two key cells, with missing values last. |
| Sorting.SortBy | age_depth.py:58 | `sort_values` succeeds exactly when both key columns exist and hold no text. It keeps the header and the row count. |
| Sorting.SortByOrdered | age_depth.py:58 | The sorted table is a permutation of the input, ordered by site_key and then depth, with missing values last. |
| Chikyu.SplitHoleName | mad.py:83-85 | Splitting a HOLENAME succeeds exactly when it is non-empty text. The site followed by the one-character hole gives the HOLENAME back. |
| Chikyu.SummaryEntries | mad.py:80-85 | The summary gives one hole entry for every row but the first. |
| Chikyu.HoleIdRoundTrip | mad.py:80-85 | Entry n carries row n+1's EXPNAME as its leg. Its site plus hole is that row's HOLENAME, and its hole is one character. |
| Chikyu.EntriesOfAt | mad.py:83-85 | Entry n is built from row n alone. |
| Chikyu.ReadSummary | mad.py:80-85 | The loop over the summary rows computes the summary entries. |
| Chikyu.EntriesOfFails | mad.py:83-85 | Once a row fails to split, the whole summary fails with that error. |
| Chikyu.ObjectColumns | mad.py:92 | `select_dtypes(object)` keeps only columns that hold text, each a full column. |
| Chikyu.HoleSearchLastMatch | mad.py:92-98 | Without a `break`, the search settles on the last match in search order (column by column, then summary row by summary row). |
| Chikyu.HoleSearchNoMatch | mad.py:92-98 | A file that mentions no hole keeps the hole found for an earlier file. |
| Chikyu.ScanColumnsFrom | mad.py:92-98 | The hole a search settles on is the one it started from or one of the summary's holes. |
| Chikyu.SearchHole | mad.py:92-98 | The nested loops over text columns and summary rows compute the search. |
| Chikyu.RuleNameFirst | mad.py:109-113 | The elif chain renames a header to the target of the first pattern it contains, and keeps a header that contains none. |
| Chikyu.RuleNameUnmatched | mad.py:109-113 | A header that contains no pattern keeps its name. |
| Chikyu.RuleNameIdempotent | mad.py:109-113 | With rules whose targets they leave alone, renaming twice is renaming once. |
| Chikyu.RenameAll | mad.py:111 | `rename(columns={col: new})` renames every column named `col` and no other. |
| Chikyu.RenameHeaderIdempotent | mad.py:109-113 | With such rules, renaming a renamed header changes nothing. |
| Chikyu.RenameByRules | mad.py:109-113 | The loop that renames header after header renames each header on its own by the rules. |
| Chikyu.Midpoint | mad.py:106 | `(top + bottom)/2` is the mean of two numbers, is missing when either is missing, and raises on text. |
| Chikyu.SampleDepths | mad.py:106 | The sample depths exist exactly when both depth columns exist and every row's midpoint exists. Each is that row's midpoint. |
| Chikyu.WithHole | mad.py:108 | The labelled table puts leg, site, hole and sample_depth before the file's columns, on every row. |
| Chikyu.WithHoleLabels | mad.py:99-108 | Every row carries the expedition, site and hole found, and its own sample depth. |
| Chikyu.WithHoleOthers | mad.py:108 | The file's own columns are unchanged. |
| Chikyu.Labelled | mad.py:99-113 | Labelling a file succeeds exactly when its sample depths do. |
| Chikyu.LabelledLabels | mad.py:99-113 | Every row of a labelled file carries the hole found and its own depth, whatever the file's headers are. |
| Chikyu.LabelledColumn | mad.py:108-113 | An analyte column holds the file's cells under the first header that the rules rename to that name. |
| Mad.LoadDsdpMad | mad.py:24-33 | The DSDP MAD table fails when a selected column is missing after the rename. Otherwise it has the eight columns and every row. |
| Mad.DsdpMadRenamed | mad.py:24-31 | Each renamed DSDP column holds its source column, stripped and with empty text as missing. |
| Mad.DsdpMadPorosity | mad.py:32 | Porosity is published as a fraction: times 100 it is the cleaned source percentage, which holds no text. |
| Mad.PercentBack | mad.py:32 | Dividing by 100 loses nothing: times 100 gives the percentage back. |
| Mad.LoadOdpMad | mad.py:40-52 | The ODP MAD table fails when a selected column is missing after the rename. Otherwise it has the nine columns and every row. |
| Mad.OdpMadPorosity | mad.py:51 | ODP porosity is read as a number first: times 100 it is the cleaned `PO (%)` text read as a number. |
| Mad.RelabelLeg | mad.py:72-74 | No leg is left as "345(147)", "327(301)" or "335(312)", and every other leg is unchanged. |
| Mad.IodpProjected | mad.py:58-70 | The relabelled, projected and converted IODP table has the nine columns and every row. |
| Mad.LoadIodpMad | mad.py:58-75 | The IODP MAD table loads exactly when its projection does. |
| Mad.IodpMadRows | mad.py:71-74 | The published IODP rows are exactly the rows without a QAQC or TEST leg, in order. Their legs are relabelled and no other column changes. |
| Mad.IodpMadLegs | mad.py:71-74 | No published IODP row has a QAQC or TEST leg, or a leg that is relabelled. |
| Mad.MadRulesFit | mad.py:109-113 | The MAD rename rules leave their own targets and the four label columns alone. |
| Mad.NoMadPattern | mad.py:109-113 | A header without the letter 'r' is left alone. |
| Mad.MadScanFails | mad.py:87-118 | The first file that fails ends the directory loop with its error. |
| Mad.LoadChikyuMad | mad.py:77-120 | The loop over the directory computes the Chikyu MAD table. |
| Mad.MadScanCsvOnly | mad.py:88 | Only the `.csv` files of the directory matter. |
| Mad.MadStepPart | mad.py:88-116 | Each csv file adds one part with the six MAD columns, all of whose rows carry the hole the search found. |
| Mad.SelectRowHole | mad.py:114-115 | Selecting the MAD columns keeps a row's hole labels. |
| Mad.MadScanParts | mad.py:87-118 | Every part read has the six MAD columns and carries one of the summary's holes. |
| Mad.ChikyuMadHoles | mad.py:77-120 | Each row of the Chikyu MAD table carries the expedition, site and hole of one of the summary's holes. |
| Mad.ChikyuMadAnalytes | mad.py:106-116 | Porosity and grain density of a Chikyu row are the file's cells under the header the rules map to that column (the first such header when there are several, see Left out). |
| Mad.CompileMad | mad.py:122-131 | The compilation succeeds exactly when all four loaders succeed. |
| Mad.MadTableRows | mad.py:128-129 | Row i of table j is compiled row (rows of earlier tables) + i, with every cell as text. There are no other rows. |
| Cns.LoadDsdpCns | cns.py:20-36 | The DSDP CNS table loads exactly when every selected column exists after the rename. It has the eleven columns and every row. |
| Cns.DsdpCnsValues | cns.py:24-35 | Each DSDP column holds the source column renamed to it, stripped and with empty text as missing. |
| Cns.LoadOdpCns | cns.py:39-63 | The ODP CNS table loads exactly when every selected column exists after the rename. It has the twelve columns and every row. |
| Cns.OdpCnsValues | cns.py:43-62 | Each ODP column holds the source column renamed to it, stripped and with empty text as missing. |
| Cns.OdpHydrogenDropped | cns.py:55-58 | Hydrogen is renamed but not selected, so it does not reach the published ODP table. |
| Cns.ZeroBelowDetection | cns.py:69-71 | A cell that is exactly one of the twelve below-detection tokens becomes 0. Every other cell is unchanged. |
| Cns.IodpProjectedAsWritten | cns.py:69-96 | The IODP projection as the source orders it (tokens to 0, then the strip) has the fifteen columns and every row. |
| Cns.BelowDetectionLost | cns.py:69-96 | In a column that also holds other text, a below-detection cell comes out missing, not 0: the strip undoes the replacement. |
| Cns.IodpProjected | cns.py:69-96 | The corrected projection loads exactly when every selected column exists after the rename. It has the fifteen columns and every row. |
| Cns.IodpCnsValues | cns.py:69-96 | Each corrected IODP cell is its cleaned source cell, with a below-detection token read as 0. |
| Cns.BelowDetectionKept | cns.py:69-96 | Under the corrected order, a below-detection cell is published as 0 even in a column that holds other text. |
| Cns.TokenStripped | cns.py:69-71 | No below-detection token has surrounding whitespace, so stripping a cell first cannot hide a token. |
| Cns.LoadIodpCns | cns.py:65-98 | The IODP CNS table loads exactly when its projection does. |
| Cns.IodpCnsRows | cns.py:97 | The IODP table keeps exactly the projected rows whose leg is not "TEST(344)", in order and unchanged. |
| Cns.NoCnsPattern | cns.py:132-146 | Every pattern holds a colon, so a header without a colon keeps its name. |
| Cns.CnsRulesFit | cns.py:132-146 | The CNS rename rules leave their own targets and the four label columns alone. |
| Cns.CnsScanFails | cns.py:110-153 | The first file that fails ends the directory loop with its error. |
| Cns.LoadChikyuCns | cns.py:100-157 | The loop over the directory computes the Chikyu CNS table. |
| Cns.CnsScanColumns | cns.py:148-151 | The table has no columns until the first csv file. From then on it has exactly the nine CNS columns. |
| Cns.CnsScanRows | cns.py:110-153 | Every row of every csv file reaches the table, and none twice. |
| Cns.CnsStepKeeps | cns.py:148-151 | Appending a file keeps the rows already in the table, in every CNS column, and adds one row per row of the file. |
| Cns.CnsStepAppends | cns.py:148-151 | A file's labelled rows follow the rows already in the table. |
| Cns.CnsStepTable | cns.py:129-151 | One step is the concatenation of the table with the labelled file, cut to the nine CNS columns. |
| Cns.CnsStepLabels | cns.py:115-131 | The rows a file adds carry the hole the search found and their own sample depth. |
| Cns.CnsStepAnalyte | cns.py:132-151 | An analyte cell of an added row is the file's cell under the header the rules rename to that column (the first such header when there are several, see Left out). |
| Cns.CompileCns | cns.py:159-168 | The compilation succeeds exactly when all four loaders succeed. |
| Cns.CnsTableRows | cns.py:165-166 | Row i of table j is compiled row (rows of earlier tables) + i, with every cell as text. There are no other rows. |
| IwChem.Renumbered | iw_chem.py:79 | Each entry's replicate key becomes `cumcount()+1` within its sample. The sample and the row are unchanged. |
| IwChem.RenumberedApart | iw_chem.py:79 | After numbering, no two entries share a (sample_key, rep_key) pair, and every replicate key lies between 1 and the number of rows. |
| IwChem.FilterApart | iw_chem.py:47 | Dropping rows after numbering, as `dropna` does for the anchor, keeps the keys unique and in bounds. |
| IwChem.FieldReadings | iw_chem.py:69-73 | A card's entry contributes each selected field under its published name, with its own cell. |
| IwChem.TableLookup | iw_chem.py:82-86 | Within one table with unique keys, each field of each entry is the merged value of its cell. |
| IwChem.TableHasKey | iw_chem.py:82-86 | A table with at least one field gives every entry a merged row. |
| IwChem.TableKeyOrigin | iw_chem.py:82-86 | Every row a table contributes belongs to one of its entries. |
| IwChem.MergeLookup | iw_chem.py:82-86 | After the outer merges, a field of any table's entry is the value of its own cell, because no other table publishes that column. |
| IwChem.MergeUnnamed | iw_chem.py:82-86 | A column that no table publishes stays missing. |
| IwChem.MergeHasKey | iw_chem.py:82-86 | Every entry of every table with a field has a merged row. |
| IwChem.MergeKeyOrigin | iw_chem.py:82-86 | Every merged row comes from an entry of some table. |
| IwChem.MergedField | iw_chem.py:82-86 | In the wide table, each entry's field lands on the row of the entry's keys, in the field's column. |
| IwChem.MergedRowFrom | iw_chem.py:82-86 | Every row of the wide table has the keys of some entry. |
| IwChem.MergedLabel | iw_chem.py:82-86 | The label columns of a wide row are the labels of its sample. |
| IwChem.DataCards | iw_chem.py:24-29 | The data cards keep the renamed header. |
| IwChem.DsdpTables | iw_chem.py:39-80 | There are seven tables: the anchor, then data cards 1 to 6, each numbered within its sample. |
| IwChem.NumberCards | iw_chem.py:64-80 | The card loops build the six card tables, each selected by card number and numbered within its sample. |
| IwChem.MergeDsdpCards | iw_chem.py:82-86 | The merge loop gives the outer merge of the anchor with each card table in turn. |
| IwChem.DsdpTablesApart | iw_chem.py:39-80 | Every DSDP table has unique (sample_key, rep_key) pairs within the grid of samples and card rows. |
| IwChem.CardNames12 | iw_chem.py:49-54 | Cards 1 and 2 publish Ca, Mg, Cl, NH4, PO4, Si, ref_1 and Sr, K, Mn, SO4, Ba, Zn, ref_2. |
| IwChem.CardNames3456 | iw_chem.py:55-78 | Card 3 publishes seven fields. Card 4 drops its fifth data field. Cards 5 and 6 keep only their reference. |
| IwChem.AnchorNames | iw_chem.py:40-45 | The anchor publishes ph_type, pH, alkalinity_type, alkalinity and salinity. |
| IwChem.DsdpPublishedDistinct | iw_chem.py:40-78 | No column is published by two DSDP tables, or twice by one. |
| IwChem.DsdpFieldsApart | iw_chem.py:40-78 | The DSDP tables' published names are pairwise distinct. |
| IwChem.DsdpWide | iw_chem.py:82-86 | The merged DSDP table has the keys, labels, anchor fields, rep key and card fields as its header. |
| IwChem.Trunc | iw_chem.py:93 | `int()` truncates toward zero: the result is at most one away from the value, on the side of 0. |
| IwChem.Chloride | iw_chem.py:93 | Chloride converts exactly when it reads as a number, and a missing value stays missing. It is the value / 35.453 * 1024 truncated to a whole number. |
| IwChem.LoadDsdpIw | iw_chem.py:20-99 | The DSDP loader fails when the card type or any read column is missing after the rename. Otherwise it gives the merged header. |
| IwChem.DsdpFinish | iw_chem.py:89-97 | The cleaning keeps the header and every row. |
| IwChem.DsdpFinishGet | iw_chem.py:89-97 | Each finished cell is its merged cell with "." made missing, then unit-converted, then written as text. |
| IwChem.DsdpLoaded | iw_chem.py:20-99 | A successful load is the finished wide table of the data cards. |
| IwChem.DsdpUnconverted | iw_chem.py:93-95 | Keys and labels go through no unit conversion. |
| IwChem.DsdpApart | iw_chem.py:31-80 | The tables of a data-card file have unique keys within the grid of its samples and cards. |
| IwChem.DsdpFieldCell | iw_chem.py:20-99 | Every anchor or card field reaches a loaded row with its entry's keys (written as text), in the column it is published under, converted and as text. |
| IwChem.DsdpWideRowFrom | iw_chem.py:82-86 | Every row of the wide table has the sample and replicate of some anchor row or data card. |
| IwChem.DsdpRowFrom | iw_chem.py:20-99 | Every loaded row has the sample and replicate keys, written as text, of some anchor row or data card. |
| IwChem.DsdpWideLabel | iw_chem.py:82-86 | Every wide row carries the labels of any data card with its sample key. |
| IwChem.DsdpRowLabel | iw_chem.py:20-99 | Every loaded row carries the labels of any data card whose sample key it holds as text, with "." made missing and as text. |
| IwSplit.ColumnPieces | iw_chem.py:131 | Splitting a column gives each row's cell split on its own. |
| IwSplit.PieceEntries | iw_chem.py:131-135 | The stacked pieces of a column, each with its row's sample key and its `cumcount()+1` replicate key. |
| IwSplit.SplitTables | iw_chem.py:130-135 | One stacked table per listed column. |
| IwSplit.MergeSplitColumns | iw_chem.py:129-136 | The loop that splits each column and outer-merges it into the growing table gives the merge of all the stacked columns. |
| IwSplit.PieceEntriesApart | iw_chem.py:131-135 | A stacked column has unique keys within the grid of samples and its own length. |
| IwSplit.SplitTablesApart | iw_chem.py:130-136 | Every column's stacked table has unique keys within the grid of samples and the longest column. |
| IwSplit.PieceAt | iw_chem.py:131-135 | The j-th piece of row n is a stacked entry with row n's sample key. When no other row shares that key, its replicate key is j + 1. |
| IwSplit.PieceEntriesKey | iw_chem.py:131-135 | A sample has a piece numbered r exactly when r lies between 1 and the number of pieces its rows hold. |
| IwSplit.SplitField | iw_chem.py:129-137 | Each piece lands on a wide row with its sample key, in the column's own name, with replicate j + 1 when its sample has one row. |
| IwSplit.SplitRows | iw_chem.py:129-137 | The wide rows are in ascending key order. (s, r) is a row exactly when some column holds at least r pieces for sample s. |
| IwSplit.SplitWide | iw_chem.py:129-137 | The outer merge of the stacked columns, joined to the sample labels, has the given header. |
| IwOdp.SplitSpace | iw_chem.py:131 | Splitting on whitespace gives the tokens between the runs of whitespace, and at least one piece. A cell that is not text stays whole. |
| IwOdp.OdpBlank | iw_chem.py:138-142 | Exactly "None", "", "..." and missing cells become missing. Every other cell is unchanged. |
| IwOdp.OdpFrame | iw_chem.py:104-116 | The file is read under the 44 fixed names exactly when it has 44 columns, and every row is kept. |
| IwOdp.OdpFrameGet | iw_chem.py:104-116 | The names are positional: column k of the file is written as text, then stripped, under the k-th name. |
| IwOdp.OdpWide | iw_chem.py:118-137 | The merge of the split data columns, joined to the sample labels, has the wide header. |
| IwOdp.OdpHeadersDistinct | iw_chem.py:108-113 | No name is given to two columns. |
| IwOdp.OdpConverted | iw_chem.py:145-150 | NH4, Br and NO2 are divided by 1000, and B, Pb and Zn multiplied by 1000. No other column is touched. |
| IwOdp.LoadOdpIw | iw_chem.py:102-152 | The ODP loader fails on a file without 44 columns. Otherwise it gives the keys, data columns and labels as header. |
| IwOdp.OdpLoaded | iw_chem.py:102-152 | A successful load is the finished wide table of the stripped file. |
| IwOdp.OdpFinishGet | iw_chem.py:138-150 | Each finished cell outside the keys is its merged cell with placeholders cleared, then converted. |
| IwOdp.OdpKeyFinished | iw_chem.py:122 | A finished key cell is the text of its key number, as `applymap(str)` and `.map(int).map(str)` write it (iw_chem.py:139). |
| IwOdp.KeyTextKept | iw_chem.py:138-141 | The text of a key is never a placeholder, so clearing placeholders keeps it. |
| IwOdp.OdpWideField | iw_chem.py:129-137 | The j-th token of a data cell lands on a wide row with its sample key, in its own column, with replicate j + 1 when its sample has one row. |
| IwOdp.OdpWideLabel | iw_chem.py:137 | Every wide row carries the labels of any file row with its sample key. |
| IwOdp.OdpToken | iw_chem.py:102-152 | Every whitespace-separated token of a data cell reaches a loaded row with its sample key (as text), cleaned and converted. |
| IwOdp.OdpRows | iw_chem.py:129-139 | The loaded rows are the sample and replicate pairs in ascending order. Keys are written as text. (s, r) is a row exactly when some data column of sample s splits into at least r tokens. |
| IwOdp.OdpLabel | iw_chem.py:119-141 | Every loaded row carries the stripped labels, with placeholders cleared, of any file row whose sample key it holds as text. |
| IwCompile.DropTestLegs | iw_chem.py:466 | The filter succeeds exactly when every leg is text, and no kept row has a QAQC or TEST leg. |
| IwCompile.DropTestLegsExact | iw_chem.py:466 | The kept rows are exactly the rows whose leg names no QAQC or TEST run, in order and unchanged. |
| IwCompile.CompileIw | iw_chem.py:459-469 | The compilation succeeds only when all four loaders succeed. |
| IwCompile.CompileIwRow | iw_chem.py:465-467 | Every compiled cell is, as text, the cell of some loaded row whose leg is not a test leg. No compiled cell is missing. |
| IwIodp.Normalised | iw_chem.py:170-176 | A cell's text is unchanged, becomes "321" (the 320(321) expedition), "0" (a below-detection mark) or "nan" (an unreadable mark). |
| IwIodp.LessThanMark | iw_chem.py:172 | The `<\S+` pattern can only occur in text that holds a '<'. Whitespace is every character `str.isspace()` accepts, the Unicode spaces included (`Text.Whitespace`). |
| IwIodp.MinusDigit | iw_chem.py:175 | The `-\d+` pattern can only occur in text that holds a '-'. |
| IwIodp.BelowMark | iw_chem.py:172-175 | Text that matches a below-detection pattern is not all digits, so a plain unsigned reading is never zeroed. |
| IwIodp.WholeNumberMarks | iw_chem.py:172-175 | Among whole numbers, the below-detection patterns match the text of exactly the negative ones. |
| IwIodp.NormalisedClean | iw_chem.py:170-176 | No placeholder survives the replacements. |
| IwIodp.NormalisedFixed | iw_chem.py:170-176 | The replacements change a text exactly when it holds a placeholder. |
| IwIodp.NormalisedIdempotent | iw_chem.py:170-176 | Replacing twice is replacing once. |
| IwIodp.NumberAsWritten | iw_chem.py:175 | As written, the `-\d+` pattern zeroes every number whose text has a minus before a digit. That includes positive readings below 0.0001, which Python writes with a negative exponent. Every other number is kept. |
| IwIodp.NumberIntended | iw_chem.py:175 | The intended rule never gives a negative number and keeps every non-negative reading. |
| IwIodp.TinyReadingZeroed | iw_chem.py:175 | 0.00005 is zeroed as written and kept by the intended rule. |
| IwIodp.NumberRulesDiffer | iw_chem.py:175 | The two rules differ exactly on positive readings below 0.0001. |
| IwIodp.IodpCell | iw_chem.py:161-177 | A cleaned cell is never missing. A number is cleaned as its text and written back as text, so a whole number such as 320 ends as the text "320". It uses the intended number rule (see Findings and Left out). |
| IwIodp.IodpCellWhole | iw_chem.py:161-177 | A whole number is cleaned exactly as its text is: the result is text, the digits of a reading that is not negative and "0" for a negative one. |
| IwIodp.WholeTextClean | iw_chem.py:170-176 | The text of a whole reading that is not negative holds no placeholder, so the replacements keep it. |
| IwIodp.IodpCellAsWritten | iw_chem.py:161-177 | On text and missing cells the as-written cleaning is the intended one. Only numbers are treated differently, and they too end as text when whole. |
| IwIodp.IodpCellClean | iw_chem.py:161-176 | A cleaned cell holds no placeholder text and no negative number. |
| IwIodp.IodpCellIdempotent | iw_chem.py:161-176 | Cleaning a cleaned cell changes nothing. |
| IwIodp.StripNormalised | iw_chem.py:161-176 | A cleaned text has no surrounding whitespace. |
| IwIodp.IodpFrame | iw_chem.py:161-176 | The cleaning keeps the header and the number of rows. |
| IwIodp.IdColumns | iw_chem.py:181 | The identifying columns are the first thirteen. |
| IwIodp.DataColumns | iw_chem.py:194 | The data columns are those between the thirteen identifiers and the last five. |
| IwIodp.IodpKeys | iw_chem.py:181-190 | Each row's sample key numbers one of the distinct identifying tuples. |
| IwIodp.SplitComma | iw_chem.py:196 | Splitting on a comma not followed by whitespace gives at least one piece. |
| IwIodp.IodpWide | iw_chem.py:194-203 | The merge of the split data columns has the keys and the data columns as header, one row per key pair. |
| IwIodp.IodpRowKeys | iw_chem.py:194-203 | Every merged row's sample key numbers a distinct identifying tuple. |
| IwIodp.ConversionsOf | iw_chem.py:207-218 | The same conversion is applied to each listed column. |
| IwIodp.IodpReduced | iw_chem.py:204-242 | The reduction fails when a data cell is not a number. Otherwise it keeps one row per merged row. |
| IwIodp.DepthColumn | iw_chem.py:245-253 | A depth column gives one number or missing cell per sample. |
| IwIodp.SampleDepths | iw_chem.py:245-253 | There is one depth per sample. |
| IwIodp.FillSampleDepths | iw_chem.py:245-253 | The loop that fills the depths sample by sample computes the sample depths. |
| IwIodp.LabelCells | iw_chem.py:256-259 | The label cells are the first nine identifying cells, in order. |
| IwIodp.FinalRow | iw_chem.py:262-275 | A final row is the keys as text, then the labels, depth, analytes and comments, each in its place. |
| IwIodp.AnalyteCells | iw_chem.py:266-275 | A row's analytes are its cells in the canonical analyte columns. |
| IwIodp.CommentCells | iw_chem.py:262-263 | A sample has two comment cells, from its own first row, the row whose label iw_chem.py:183-185 records (see Left out). |
| IwIodp.IodpFinal | iw_chem.py:262-275 | The final table has the 49 final columns. It has a row per merged row, plus one for each sample that only the comment merge brings back (see Left out for the rows the lookup takes). |
| IwIodp.LoadIodpIw | iw_chem.py:157-276 | A successful load has the final header and a row for every merged key. |
| IwIodp.IodpAssemble | iw_chem.py:256-275 | The assembly fails exactly when a label, comment or analyte column it names is absent. Otherwise it gives the final table. |
| IwIodp.DataColumnsPlain | iw_chem.py:194 | For a header read from a file, the data columns are distinct and none is a key name. |
| IwIodp.IodpWideField | iw_chem.py:194-203 | The j-th comma piece of a data cell lands on a merged row with its sample key, in its column. Its replicate is j + 1 when its sample has one row. |
| IwIodp.IodpWideRows | iw_chem.py:194-203 | The merged rows are in ascending key order. (s, r) is a row exactly when some data column of sample s splits into at least r pieces. |
| IwIodp.IodpAnalyteGet | iw_chem.py:204-218 | Each converted cell is the merged cell read as a number and put through its column's conversion. |
| IwIodp.IodpReducedGet | iw_chem.py:221-242 | Each canonical analyte is the mean of the numbers among the converted cells of the columns assigned to it. |
| IwIodp.ScaledColumnsDistinct | iw_chem.py:207-218 | No column is converted both ways. |
| IwIodp.IodpConverted | iw_chem.py:207-218 | Aluminium and ammonium are divided by 1000. Nitrate, nitrite, phosphate and silica are multiplied by 1000. No other column changes. |
| IwIodp.SampleDepthAt | iw_chem.py:245-253 | A sample's depth is the midpoint of its top and bottom depths, between the two, and missing when either is missing. |
| IwIodp.IodpLoaded | iw_chem.py:157-276 | A successful load went through every stage, and its result is the final table of those stages. Its cell cleaning is `IodpCell`, which writes every cell as text, with the intended number rule. |
| IwIodp.FinalRowAt | iw_chem.py:262-275 | Row k of the final table, cell by cell: keys as text, labels of its sample, depth, analytes and comments. |
| IwIodp.FinalHeaderAt | iw_chem.py:266-275 | The final header is the keys, the nine labels, sample_depth, the 35 analytes, proceedings_label and Comments. |
| IwIodp.IodpLoadedLabel | iw_chem.py:157-276 | Every merged row of a loaded table carries its keys, as text, and the cleaned standard labels of any file row of its sample. A whole-number label is its text (`IodpCellWhole`). |
| IwIodp.IodpLoadedAnalyte | iw_chem.py:204-242 | A loaded row's analyte is the mean of the numbers that its assigned columns hold, read and converted. |
| IwIodp.IodpLoadedDepth | iw_chem.py:245-263 | A loaded row's depth is the midpoint of its sample's top and bottom depths, and missing when either is missing. |
| IwChikyu.FirstHit | iw_chem.py:295-301 | The inner loop with its break finds the first hole whose name occurs in the column and contains "C0". When it finds none, no hole matches. |
| IwChikyu.SearchFindsFirst | iw_chem.py:294-304 | The search settles on the first hit of the first column that has one. |
| IwChikyu.SearchNoHit | iw_chem.py:294-304 | A file in which no column hits a hole keeps leg "no_leg" and the site and hole of the previous file. |
| IwChikyu.SearchFrom | iw_chem.py:294-304 | The search ends where it started, or on one of the metadata's holes. |
| IwChikyu.SearchFile | iw_chem.py:292-304 | The two nested loops with their breaks compute the search, starting from leg "no_leg". |
| IwChikyu.FilePart | iw_chem.py:306-316 | A file's part exists only once some file has named a hole and its depths are numbers. It is the four labels followed by the file's columns, one row per file row. |
| IwChikyu.FilePartLabels | iw_chem.py:306-316 | Every row of a part carries the leg, site and hole found, and its own midpoint depth, as text. |
| IwChikyu.FilePartOther | iw_chem.py:315-316 | The file's own cells stay on their row, as text. |
| IwChikyu.ReadFile | iw_chem.py:287-323 | One pass of the loop body computes one step of the directory loop. |
| IwChikyu.ReadCsv | iw_chem.py:288-321 | The body for a csv file runs the search, builds the file's part and grows the table. |
| IwChikyu.AbsorbPart | iw_chem.py:306-321 | The file's part becomes the table or is merged onto it. |
| IwChikyu.GrowData | iw_chem.py:317-321 | The first part becomes the table, and later parts are outer-merged onto it. |
| IwChikyu.ScanFilesFails | iw_chem.py:286-323 | Once a file fails, the loop fails with that error whatever files follow. |
| IwChikyu.ScanFiles | iw_chem.py:286-323 | The loop reads at most one part per file, and the table stays empty until a csv file is read. |
| IwChikyu.PartLegs | iw_chem.py:306-316 | A part carries its found leg on every row. |
| IwChikyu.MergeLegs | iw_chem.py:321 | An outer merge of tables whose rows carry known legs carries only known legs. |
| IwChikyu.FoundLeg | iw_chem.py:292-304 | The search ends on "no_leg" or on the leg of a metadata hole. |
| IwChikyu.GrowLegs | iw_chem.py:317-321 | Growing the table keeps every leg known. |
| IwChikyu.StepLegs | iw_chem.py:287-321 | One loop step keeps every row's leg known. |
| IwChikyu.ScanLegs | iw_chem.py:286-323 | Every row of the merged table carries "no_leg" or the leg of one of the metadata's holes. |
| IwChikyu.StepKeepsFile | iw_chem.py:288-321 | Each row of a csv file reaches a row of the table, with the leg the search gave and the file's cells as text. |
| IwChikyu.StepKeepsTable | iw_chem.py:321 | Merging a later file keeps every row already read. |
| IwChikyu.SampleTuples | iw_chem.py:330 | Each row's identifying tuple is its leg, site, hole and depth. |
| IwChikyu.ChikyuKeys | iw_chem.py:330-341 | There is one sample key per row. |
| IwChikyu.ChikyuReps | iw_chem.py:343-344 | There is one replicate number per row. |
| IwChikyu.Keyed | iw_chem.py:326-344 | The keyed table appends sample_key and rep_key to the header and keeps every row. |
| IwChikyu.KeyedGet | iw_chem.py:326-341 | Each keyed cell is the stripped text of the merged cell. |
| IwChikyu.KeyedSampleKey | iw_chem.py:330-341 | Each row's appended sample key is the text of its tuple's number. |
| IwChikyu.KeyedRepKey | iw_chem.py:343-344 | Each row's appended replicate key is the text of its number among the rows with its sample key. |
| IwChikyu.ChikyuKeysMatch | iw_chem.py:330-344 | Two rows share a sample key exactly when their stripped leg, site, hole and depth agree. No two rows share both keys. |
| IwChikyu.ConversionsDistinct | iw_chem.py:347-353 | No column is converted twice. |
| IwChikyu.ChikyuConverted | iw_chem.py:347-353 | Silica and both nitrate columns are multiplied by 1000. Both rubidium columns, ammonium and bromide are divided by 1000. Every other column keeps its cells. |
| IwChikyu.AnalyteTable | iw_chem.py:356-428 | The analyte table fails when a listed column is absent or a cell is not a number. Otherwise it has the listed columns and every row. |
| IwChikyu.AnalyteTableGet | iw_chem.py:356-428 | Each analyte cell is the converted cell read as a number. |
| IwChikyu.Beside | iw_chem.py:453 | Side-by-side concatenation puts the two headers one after the other and keeps the rows. |
| IwChikyu.BesideGet | iw_chem.py:453 | A column of the left table reads from it, and every other column reads from the right. |
| IwChikyu.ChikyuKeepsLabels | iw_chem.py:347-353 | No conversion touches a label column. |
| IwChikyu.ChikyuFinish | iw_chem.py:326-453 | The finished table keeps one row per merged row. |
| IwChikyu.Averaged | iw_chem.py:429-453 | Averaging keeps the rows. |
| IwChikyu.FinishAveraged | iw_chem.py:326-453 | A finished table is the averaged table of the converted keyed table. |
| IwChikyu.LoadChikyuIw | iw_chem.py:281-456 | The directory loop with its counter, followed by the keys, units, analytes and labels, computes the Chikyu table. |
| IwChikyu.ChikyuIw | iw_chem.py:281-456 | The Chikyu table exists only when some csv file was read. Without one the source fails with a NameError on the undefined table. |
| IwChikyu.LabelsDistinct | iw_chem.py:443-447 | The label columns and their new names are distinct. |
| IwChikyu.KeyLabels | iw_chem.py:443-447 | The first two labels are sample_key and rep_key, under the same names. |
| IwChikyu.LabelsNotKeys | iw_chem.py:443-447 | The other labels are not key names. |
| IwChikyu.AveragedLabel | iw_chem.py:443-453 | The result's label columns are the converted table's label columns under their new names. |
| IwChikyu.FinishLabel | iw_chem.py:326-453 | A label column of the result holds the keyed table's cell. |
| IwChikyu.ChikyuSampleKey | iw_chem.py:330-453 | The sample key of row i is the key of merged row i, as text. |
| IwChikyu.ChikyuRepKey | iw_chem.py:343-453 | The replicate key of row i is the text of its number among the merged rows with its sample key. |
| IwChikyu.ChikyuLabel | iw_chem.py:326-453 | The leg, site, hole, depth and comments of row i are the merged row's cells, stripped and as text. |
| IwChikyu.ChikyuAnalyte | iw_chem.py:429-453 | Each canonical analyte of row i is the mean of the numbers in the analyte columns mapped to it. |
| AgeDepth.SiteKeyRows | age_depth.py:39-40 | Selecting site_key and site fails exactly when either column is absent. Otherwise it gives one (key, site) pair per metadata row, that is one per hole. |
| AgeDepth.SiteTable | age_depth.py:39-40 | The intended site table is the distinct (key, site) pairs, in order of first occurrence. |
| AgeDepth.Sites | age_depth.py:42 | The site of each entry, in order. |
| AgeDepth.SiteTableSitesDistinct | age_depth.py:39-42 | When the metadata gives each site one key, the distinct pairs name each site once. |
| AgeDepth.Pairs | age_depth.py:42 | An entry is paired with each of its data rows, in order. |
| AgeDepth.SiteJoin | age_depth.py:42 | The inner join puts site_key in front of the data columns, with one row per (entry, data row) pair that shares a site. |
| AgeDepth.MatchesMembers | age_depth.py:42 | The rows matched for a site are exactly the data rows at that site. |
| AgeDepth.JoinPlanMembers | age_depth.py:42 | The join pairs exactly the entries and data rows that share a site. |
| AgeDepth.JoinPlanCount | age_depth.py:42 | A data row is used once for every site-table entry at its site. |
| AgeDepth.SiteJoinGet | age_depth.py:42 | Each joined row is a data row whose site is the entry's site, with the entry's key in front. Every data column keeps its value. |
| AgeDepth.SiteJoinCopies | age_depth.py:42 | A data row appears once per entry at its site. When each site is named once, a row appears exactly once if its site is known, and not at all otherwise. |
| AgeDepth.JoinedGet | age_depth.py:42-45 | After the reorder, each joined row holds the key of its entry and the cells of its data row, which share a site. |
| AgeDepth.TwoHoleRows | age_depth.py:39-40 | For a site with two holes, the metadata gives the same (key, site) pair twice. |
| AgeDepth.SiteJoinDuplicates | age_depth.py:39-42 | As written, one age pick at a site with two holes comes out twice. |
| AgeDepth.SiteJoinOnce | age_depth.py:39-42 | With the distinct site pairs, the same pick comes out once. |
| AgeDepth.SiteJoinAsWritten | age_depth.py:39-42 | The join as written fails exactly when site_key or site is absent. It puts site_key in front, with one row per (metadata row, data row) pair that shares a site. |
| AgeDepth.SiteJoinIntended | age_depth.py:39-42 | The intended join fails in the same cases. It has one row per (distinct site pair, data row) pair that shares a site. |
| AgeDepth.SiteJoinIntendedCopies | age_depth.py:39-42 | With the distinct site pairs, each data row at a known site is joined exactly once, whatever the number of holes. |
| AgeDepth.NanToMissing | age_depth.py:59 | The text "nan" becomes missing, and every other cell is unchanged. |
| AgeDepth.DsdpIntervals | age_depth.py:29-36 | The interval table has the eight short column names and one row per file row. |
| AgeDepth.Years | age_depth.py:35 | An age in million years becomes years, and a missing age stays missing. |
| AgeDepth.ReadAgeText | age_depth.py:35-55 | An age written as text by the interval step reads back as the same age in years. |
| AgeDepth.AgeTextMillion | age_depth.py:35-36 | Converting to years, then writing as text, gives the interval table's age text. |
| AgeDepth.DsdpNamesDistinct | age_depth.py:29-33 | The source and short column names are distinct. |
| AgeDepth.DsdpRenamed | age_depth.py:29-33 | The source columns, in order, under their short names. |
| AgeDepth.DsdpRenamedGet | age_depth.py:29-33 | Each short-named cell is the file's cell under the source name at the same position. |
| AgeDepth.DsdpConverted | age_depth.py:35-36 | The top and bottom ages become years, written as text. In the model a text age stops the load, which is stricter than the source (see Left out). |
| AgeDepth.DsdpIntervalAges | age_depth.py:29-36 | An interval's ages are the source ages in years. In the model a source age that is text stops the load, which is stricter than the source (see Left out). |
| AgeDepth.DsdpIntervalAge | age_depth.py:29-36 | The same, by column position, with the same stricter treatment of text ages. |
| AgeDepth.Points | age_depth.py:48-54 | Each interval gives two points: all the tops come first, then all the bottoms. |
| AgeDepth.Relabeled | age_depth.py:48-53 | One end of every interval, under the point column names. |
| AgeDepth.RelabeledGet | age_depth.py:48-53 | Each point column holds the interval's cell for that end. |
| AgeDepth.PointColumnsDistinct | age_depth.py:48-53 | The point, top and bottom column lists are distinct. |
| AgeDepth.PointsGet | age_depth.py:48-54 | Point i is interval i's top and point n + i is its bottom. Every other column is the interval's. |
| AgeDepth.PointsTop | age_depth.py:48-54 | Point i holds interval i's top depth and age. |
| AgeDepth.PointsBottom | age_depth.py:51-54 | Point n + i holds interval i's bottom depth and age. |
| AgeDepth.DsdpPointsRead | age_depth.py:48-55 | Reading depth and age as numbers keeps the point columns and the two points per interval. |
| AgeDepth.SortedFrom | age_depth.py:58 | A row of the sorted table is a row of the unsorted one. |
| AgeDepth.SortCleaned | age_depth.py:58-59 | The sorted, cleaned table keeps the header and the number of rows, ordered by site key and then depth. |
| AgeDepth.SortCleanedFrom | age_depth.py:58-59 | Each row of the sorted, cleaned table is an input row with its "nan" cells emptied. |
| AgeDepth.LoadDsdpAgeDepth | age_depth.py:25-61 | A successful load has the point columns. The load fails when the metadata lacks site_key or site. |
| AgeDepth.LoadDsdpSteps | age_depth.py:25-61 | A successful load is the sorted, cleaned table of the read points of the joined intervals. |
| AgeDepth.DsdpAgeDepthSorted | age_depth.py:25-61 | The DSDP table holds two points per joined interval, under the point columns, ordered by site key and then depth. |
| AgeDepth.DsdpPointOrigin | age_depth.py:25-61 | Every row of the DSDP table is one of the read points, with "nan" turned back into missing. |
| AgeOdp.OdpNamesDistinct | age_depth.py:70-71 | The seven names are distinct, and each is in the reordered header. |
| AgeOdp.OdpPrepared | age_depth.py:70-73 | The prepared table has the reordered header and one row per file row. |
| AgeOdp.OdpNamed | age_depth.py:70-71 | Naming is by position: the cell under the k-th name is the file's k-th cell. |
| AgeOdp.OdpPreparedOk | age_depth.py:70-73 | Preparation stops exactly when the export does not have seven columns or, in the model, an age holds text. The source fails only at the later float read (see Left out). |
| AgeOdp.OdpPreparedGet | age_depth.py:70-73 | The prepared age is the export's age in years, with "nan" when missing. Every other column is the export's cell as text. |
| AgeOdp.LoadOdpAgeDepth | age_depth.py:65-82 | A successful load has the point columns. |
| AgeOdp.OdpRead | age_depth.py:80 | Age and depth are read as numbers, and the other columns keep their cells. |
| AgeOdp.OdpPoint | age_depth.py:65-82 | Each loaded row comes from a pick and a site entry at the pick's site. It carries the entry's key, the pick's age in years and its depth read as a number. |
| AgeOdp.OdpCopies | age_depth.py:76-78 | With the distinct site pairs, each pick at a known site is joined exactly once. |
| AgeOdp.DepthWindow | age_depth.py:88-89 | The window fails exactly when a depth column is absent or holds text. Otherwise it keeps the rows whose base minus top is below 11 m. |
| AgeOdp.DepthWindowExact | age_depth.py:88-89 | The window keeps exactly the in-window rows, in order and unchanged. |
| AgeOdp.OldAge | age_depth.py:90 | A cell of the oldest-age column is never read as text. A cell that is not text, or blank text, becomes missing. |
| AgeOdp.ReadOld | age_depth.py:90 | Reading the oldest-age column keeps the header, every row and every other column. |
| AgeOdp.Mid | age_depth.py:93 | The midpoint of a depth range, and missing when either end is missing. |
| AgeOdp.Mids | age_depth.py:93 | There is one midpoint per row. |
| AgeOdp.WithMidpoints | age_depth.py:93-94 | Both depth and age are set, one value per row. |
| AgeOdp.WithMidpointsGet | age_depth.py:93-94 | As written, both depth and age hold the depth midpoint. |
| AgeOdp.StripHeaders | age_depth.py:95 | Stripping the column names keeps their number and the rows. |
| AgeOdp.StripHeadersGet | age_depth.py:95 | A name that is already stripped keeps its cells, as long as no name repeats. |
| AgeOdp.StripColumn | age_depth.py:101-102 | Stripping a column changes only that column. |
| AgeOdp.ProfileNamesDistinct | age_depth.py:97-100 | The profile names are distinct, with site, hole, depth, age and type in their places. |
| AgeOdp.ProfileTable | age_depth.py:95-103 | The profile table has the six profile names and every row. |
| AgeOdp.ProfileTableGet | age_depth.py:95-103 | The profile's depth and age are the input's. |
| AgeOdp.ProfileTableRenamed | age_depth.py:97-100 | Depth and age are the reindexed cells under their new names. |
| AgeOdp.ProfileSourceGet | age_depth.py:95-98 | The reindex reads depth and age from the stripped header. |
| AgeOdp.LoadOdpAgeProfiles | age_depth.py:84-113 | A successful load has the site key followed by the profile columns. |
| AgeOdp.ProfileWindowed | age_depth.py:88-94 | Each prepared row is the midpoint of a datum inside the depth window. |
| AgeOdp.ProfileJoined | age_depth.py:109-111 | The join keeps one row per joined pair. |
| AgeOdp.ProfileJoinedGet | age_depth.py:109-111 | Each joined row carries its entry's key, its datum's depth and its datum's age in years. |
| AgeOdp.ProfileSteps | age_depth.py:84-113 | A successful load is the join of the windowed, midpointed profile table. |
| AgeOdp.ProfilePoint | age_depth.py:84-113 | Each loaded row comes from an in-window datum. Its depth is the depth midpoint, and its age is the same midpoint times 1,000,000, as the source computes it. |
| AgeIodp.NameLtIrreflexive | age_depth.py:124 | No name sorts before itself. |
| AgeIodp.NameLtTrans | age_depth.py:124 | Name order is transitive. |
| AgeIodp.NameLtTotal | age_depth.py:124 | Of two different names, one sorts first. |
| AgeIodp.InsertNameMembers | age_depth.py:124 | Inserting a name into a header gives the header's names plus that one. |
| AgeIodp.InsertNameSorted | age_depth.py:124 | Inserting into a sorted header keeps it sorted and without repeats. |
| AgeIodp.UnionSortedProps | age_depth.py:124 | The header of `append(sort=True)` is sorted and holds exactly the names of both headers. |
| AgeIodp.Append | age_depth.py:124 | Appending a sheet adds its rows to those already stacked. |
| AgeIodp.SheetLabels | age_depth.py:120-125 | There is one row label per stacked row. |
| AgeIodp.GatheredColumns | age_depth.py:117-125 | The stacked header is sorted. It holds exactly the names found in the "Age Control" sheets that were read. |
| AgeIodp.GatherAgeControl | age_depth.py:119-124 | The loop over the workbooks stacks the "Age Control" sheets of those that have one, skips the rest, and gives each row its sheet's own label. |
| AgeIodp.WithIndex | age_depth.py:125 | `reset_index` names the new first column "index", or "level_0" when a sheet already has an "index" column. It fails exactly when both names are taken. The new name is none of the sheet's columns, and each row gets its sheet label in front. |
| AgeIodp.DropNoData | age_depth.py:128-129 | The drop fails exactly when there is no Sample column, or when it holds no text. Otherwise it keeps the rows whose sample does not mention "No data". |
| AgeIodp.DropEmptyColumns | age_depth.py:130 | Dropping empty columns keeps every row. |
| AgeIodp.DropEmptyColumnsExact | age_depth.py:130 | The kept columns are exactly those holding a value, in order and unchanged. Every column left out is missing throughout. |
| AgeIodp.Reduced | age_depth.py:133-146 | The reduced table has the nine columns the loader uses and every row. |
| AgeIodp.ReducedGet | age_depth.py:133-146 | A reduced cell is the first value present among the row's columns whose position maps to that name. It is missing when no column maps to it. |
| AgeIodp.PairedRange | age_depth.py:151-152 | After the two assignments, an age range has both ends or neither, and a complete range is unchanged. |
| AgeIodp.OldColumn | age_depth.py:151 | There is one oldest age per row. |
| AgeIodp.YoungColumn | age_depth.py:152 | There is one youngest age per row. |
| AgeIodp.Paired | age_depth.py:151-152 | Pairing keeps every row. |
| AgeIodp.PairedGet | age_depth.py:151-152 | The two assignments change only the oldest and youngest ages, as the pairing rule says. |
| AgeIodp.AbsAge | age_depth.py:156 | `abs` fails exactly on text. A number becomes its absolute value, and missing stays missing. |
| AgeIodp.CleanAge | age_depth.py:157-160 | Writing as text and stripping never gives missing, and text is stripped. |
| AgeIodp.CleanOld | age_depth.py:157-159 | The oldest age has the letters M and a trimmed from both ends, and whitespace is not trimmed. |
| AgeIodp.CleanedNotText | age_depth.py:157-160 | On a cell that is not text, both cleanings only write it as text: neither strip touches "nan" or a whole number's digits. |
| AgeIodp.SumParsed | age_depth.py:170-171 | Summing fails exactly when some part is not a number. |
| AgeIodp.RangeValue | age_depth.py:165-171 | Text without a dash and missing cells are kept. A number becomes its absolute value. |
| AgeIodp.RangeValueFails | age_depth.py:165-171 | The range step fails exactly on text with a dash, no empty part and some part that is not a number. |
| AgeIodp.RangeMidpoint | age_depth.py:170-171 | "a-b" with two numbers becomes their midpoint. |
| AgeIodp.RangeLeadingDash | age_depth.py:167-168 | "-b" becomes "b", so a negative number loses its sign. |
| AgeIodp.RangeTrailingDash | age_depth.py:167-168 | "a-" becomes the empty text. |
| AgeIodp.AverageRanges | age_depth.py:164-171 | The row loop succeeds exactly when every cell's range step does, and then each cell holds its step's value. |
| AgeIodp.IodpAges | age_depth.py:156-171 | The age cleaning keeps the nine columns and every row. |
| AgeIodp.PickDepthCases | age_depth.py:174 | A pick's depth is the midpoint when both ends are known, the known end when only one is, and missing otherwise. |
| AgeIodp.PickDepth | age_depth.py:174 | A pick's depth is never text. |
| AgeIodp.Depths | age_depth.py:174 | There is one depth per pick. |
| AgeIodp.LegFloatText | age_depth.py:175-176 | A leg read as a float, "320.0", comes back as "320". |
| AgeIodp.LegWholeText | age_depth.py:175-176 | A leg read as a whole number comes back as its digits. |
| AgeIodp.LegText | age_depth.py:175-176 | The leg is never missing, and a text leg loses every ".0". |
| AgeIodp.LabelFields | age_depth.py:180-183 | A label "nan" or a missing label is skipped, and a fractional number stops the loader (see Left out). A label that is read gives a five-character site and a one-character hole. |
| AgeIodp.LabelWithoutDash | age_depth.py:180-183 | A label without a dash, or a number, stops the loader. "nan" is skipped. |
| AgeIodp.LabelOfSample | age_depth.py:180-183 | A label "leg-field..." gives its lead as the leg, the field's first five characters as the site and the sixth as the hole. |
| AgeIodp.LabelParts | age_depth.py:181-183 | The first two dash parts of such a label are the leg and the field. |
| AgeIodp.FieldFirst | age_depth.py:181 | The part before the first dash is the first part. |
| AgeIodp.ParseLabels | age_depth.py:179-183 | The label loop succeeds exactly when every label can be read. Then each row's leg, site and hole are those its label names, or its own when the label is "nan". |
| AgeIodp.Located | age_depth.py:179-183 | The label step fails exactly when some label cannot be read. Otherwise it keeps every row and the header. |
| AgeIodp.LocatedGet | age_depth.py:179-183 | After the label step each row holds the place its label names, and every other column keeps its cell. |
| AgeIodp.ReducedNames | age_depth.py:145-146 | The reduced header has the label, place, depth and age columns, and not depth itself. |
| AgeIodp.Relabeled | age_depth.py:174-176 | Adding the depth appends one column and keeps every row. |
| AgeIodp.RelabeledGet | age_depth.py:174-176 | Each row gets its pick depth, and its leg and label as text. Every other column keeps its cell. |
| AgeIodp.IodpPlaced | age_depth.py:174-183 | The placed table appends depth to the reduced header and keeps every row. |
| AgeIodp.IodpPlacedGet | age_depth.py:174-183 | Each placed row has its pick depth and the place its label names, or its own place when the label is "nan". |
| AgeIodp.IodpPlacedKeep | age_depth.py:174-183 | Every column those steps do not write keeps its cell. |
| AgeIodp.IodpWindow | age_depth.py:186-188 | The window fails exactly when a depth column is absent or holds text. Otherwise it keeps the picks whose depth range is below 11 m. |
| AgeIodp.IodpWindowGet | age_depth.py:186-188 | Each windowed row is an input row whose depth range is below 11 m. |
| AgeIodp.IodpWindowCell | age_depth.py:186-188 | Each cell of a windowed row is the input's, unchanged. |
| AgeIodp.FilledAge | age_depth.py:199-206 | The filled age is the age, one of the range ends, or their midpoint. |
| AgeIodp.FilledAgeMissing | age_depth.py:199-206 | A present age is kept. A filled age is missing only when the age and both range ends are. |
| AgeIodp.FilledWithinRange | age_depth.py:199-206 | An age filled from a complete range is its midpoint and lies inside it. |
| AgeIodp.FillAges | age_depth.py:199-206 | The row loop fills each age by the filling rule. |
| AgeIodp.Fills | age_depth.py:199-206 | There is one filled age per row. |
| AgeIodp.IodpDated | age_depth.py:198-209 | The dated table has the six output columns and every row. |
| AgeIodp.IodpDatedKeep | age_depth.py:198-209 | Every output column other than age holds its cell with "nan" made missing. |
| AgeIodp.IodpDatedAge | age_depth.py:198-208 | The age is the filled age in years. |
| AgeIodp.IodpJoined | age_depth.py:191-209 | A successful join has the six output columns. |
| AgeIodp.IodpRead | age_depth.py:197 | The three age columns are read as numbers, and the other columns keep their cells. |
| AgeIodp.FullNames | age_depth.py:194-209 | The joined and output headers hold the columns the later steps read. |
| AgeIodp.ReadJoin | age_depth.py:193-197 | The read join has the eight joined columns and one row per joined pair. |
| AgeIodp.JoinedPlain | age_depth.py:193-197 | A column the read leaves alone holds the cell of the pick the join paired the row with. |
| AgeIodp.JoinedAge | age_depth.py:193-197 | An age column holds the paired pick's cell read as a number. |
| AgeIodp.JoinedKey | age_depth.py:193-197 | The key column holds the key of the paired site entry, whose site is the pick's site. |
| AgeIodp.IodpJoinedPlace | age_depth.py:191-209 | Each output row carries its entry's key and its pick's leg, site, hole and depth, with "nan" made missing. |
| AgeIodp.IodpJoinedAge | age_depth.py:197-208 | Each output age is the pick's filled age in years. |
| AgeIodp.IodpJoinedGet | age_depth.py:191-209 | Each output row comes from a site entry and a pick at the same site. It carries the entry's key, the pick's place and depth, and its filled age in years. |
| AgeIodp.IodpTable | age_depth.py:130-152 | The table cut to dated picks has the nine reduced columns. |
| AgeIodp.IodpAged | age_depth.py:117-171 | The stacked, reduced and cleaned picks have the nine reduced columns. |
| AgeIodp.LoadIodpAgeDepth | age_depth.py:115-211 | A successful load has the six output columns. |
| AgeIodp.IodpSteps | age_depth.py:115-211 | A successful load is the site join of the windowed, placed, cleaned picks. |
| AgeIodp.IodpWindowRow | age_depth.py:174-188 | Each windowed row is an in-window pick, with its pick depth, its label's place and its own ages. |
| AgeIodp.PlacedWindowRow | age_depth.py:174-188 | A windowed row's depth and place come from an in-window pick. |
| AgeIodp.PlacedWindowAges | age_depth.py:174-188 | A windowed row's ages are its pick's. |
| AgeIodp.IodpPoint | age_depth.py:115-211 | Each loaded row comes from an in-window pick and a site entry at the pick's site. Its key, place, depth and filled age in years are as the pick gives them. |
| AgeCompile.CompileAgeDepth | age_depth.py:214-227 | The compilation fails exactly when one of the four loaders fails. |
| AgeCompile.AgeTableRows | age_depth.py:220-226 | Row i of table j lands at position (rows before j) + i. Each cell is stripped when its column holds text, empty text is made missing, and the cell is written as text, so no compiled cell is missing or empty. |
| AgeCompile.AgeTableOrigin | age_depth.py:220-226 | Every compiled row is a row of one of the four tables. |
| Metadata.StdValue | metadata.py:44-47 | The k-th canonical column of a standardised row holds the row's k-th cell. |
| Metadata.WaterDepth | metadata.py:54 | A water depth that can be read is a number or missing, never text. |
| Metadata.OdpStandard | metadata.py:51-52 | The ODP summary under the canonical names keeps every row. |
| Metadata.LoadOdp | metadata.py:51-54 | A successful ODP load has the canonical columns. |
| Metadata.SplitRows | metadata.py:62-64 | Splitting the hole names keeps every row. |
| Metadata.SplitNames | metadata.py:62-64 | Splitting the hole names keeps the header and every row. |
| Metadata.LoadChikyu | metadata.py:57-64 | A successful Chikyu load has the canonical columns. |
| Metadata.WithCoordinates | metadata.py:98-102 | Converting the coordinates keeps the header and every row. |
| Metadata.TextColumnsOf | metadata.py:121 | Writing columns as text keeps the header and every row. |
| Metadata.NumberColumnsOf | metadata.py:122 | Reading columns as numbers keeps the header and every row. |
| Metadata.AssignTypes | metadata.py:121-122 | Assigning the types keeps the header and every row. |
| Metadata.HolePairs | metadata.py:125 | Each row's (site, hole) pair, in order. |
| Metadata.AddKeys | metadata.py:125-130 | Adding the keys gives the output columns and keeps every row. |
| Metadata.Stacked | metadata.py:105-106 | Stacking the four summaries keeps the canonical columns and all their rows. |
| Metadata.CompileMetadata | metadata.py:105-130 | A successful compilation has the output columns. |
| Mad.MadRulesKeepLabels | mad.py:109-113 | No MAD renaming rule touches the leg, site, hole or depth labels. |
| Mad.MadRulesStable | mad.py:109-113 | Every MAD target name is left alone by the rules. |
| Mad.ChikyuMad | mad.py:77-120 | A successful Chikyu MAD load read the hole summary successfully. |
| Mad.PartsHole | mad.py:114-118 | Every row of the concatenated parts carries a hole of the summary. |
| Cns.ChikyuCns | cns.py:100-157 | A successful Chikyu CNS load read the hole summary successfully. |
| Frames.ConcatAll | iw_chem.py:465 | Concatenation holds all the rows of every table. |
| Frames.RowOrigin | iw_chem.py:465 | Every concatenated row is row i of table j at position (rows before j) + i, with the same value in every column. |
| Frames.FilterRowsGet | iw_chem.py:466 | A row mask keeps the selected rows in order, each unchanged. |
| Frames.StripTextColumnsGet | age_depth.py:221-224 | A column holding text is stripped and empty text becomes missing. Other columns are unchanged, and no cell ends up as empty or unstripped text. |

## Left out

- Reading files is not modelled: `read_csv`, `read_excel`, `ExcelFile`, `glob`, `os.listdir` and text encodings. Each loader takes the tables, the directory entries (name and table) or the workbooks (sheet names and the "Age Control" sheet) as parameters.
- `print` calls are left out. They have no effect on the tables.
- Floating point is not modelled. Numbers are exact reals, so rounding in the unit conversions and means is not reproduced.
- Textual (`Units.Textual`): number formatting is simplified. `astype(str)` writes missing as "nan" and a whole number as its integer digits, even where Python writes a float column's 12.0 as "12.0". A fractional number is kept as a number that stands for its own text, because Python's float formatting, such as "1e-05", is not modelled. `Frames.StripText` keeps such a number, and reading it back gives the same number. Such a number behaves differently from its text wherever a later step tests for text or compares with text. A fractional leg, site or hole in `AgeCompile.Rendered` becomes missing. A fractional leg makes `IwCompile.DropTestLegs` fail where the source compares text. A fractional label makes `AgeIodp.LabelFields` fail, although the text of a negative one such as "-1234.5" splits into site "1234." and hole "5". A fractional site never equals a text site in the site joins of `AgeDepth` and `AgeOdp`. In `IwIodp.IodpCell` the replacements do not see its text; the rule for numbers stands in for them.
- MadTableRows (`Mad.MadTableRows`): a fractional cell stays a number standing for its text (see `Units.Textual`).
- CnsTableRows (`Cns.CnsTableRows`): a fractional cell stays a number standing for its text (see `Units.Textual`).
- DsdpFinishGet (`IwChem.DsdpFinishGet`): a fractional converted value stays a number standing for its text (see `Units.Textual`).
- DsdpFieldCell (`IwChem.DsdpFieldCell`): a fractional field stays a number standing for its text (see `Units.Textual`).
- DsdpRowLabel (`IwChem.DsdpRowLabel`): a fractional label stays a number standing for its text (see `Units.Textual`).
- OdpFrame (`IwOdp.OdpFrame`): a fractional file cell stays a number standing for its text (see `Units.Textual`).
- OdpFrameGet (`IwOdp.OdpFrameGet`): a fractional file cell stays a number standing for its text (see `Units.Textual`).
- CompileIwRow (`IwCompile.CompileIwRow`): a fractional cell stays a number standing for its text (see `Units.Textual`).
- FilePartLabels (`IwChikyu.FilePartLabels`): a fractional midpoint depth stays a number standing for its text (see `Units.Textual`).
- FilePartOther (`IwChikyu.FilePartOther`): a fractional file cell stays a number standing for its text (see `Units.Textual`).
- StepKeepsFile (`IwChikyu.StepKeepsFile`): a fractional file cell stays a number standing for its text (see `Units.Textual`).
- KeyedGet (`IwChikyu.KeyedGet`): a fractional merged cell stays a number standing for its text (see `Units.Textual`).
- ChikyuLabel (`IwChikyu.ChikyuLabel`): a fractional depth or label stays a number standing for its text (see `Units.Textual`).
- OdpPreparedGet (`AgeOdp.OdpPreparedGet`): a fractional cell stays a number standing for its text (see `Units.Textual`).
- AgeTableRows (`AgeCompile.AgeTableRows`): a fractional leg, site or hole becomes missing, where the source holds its text (see `Units.Textual`).
- ToNumber (`Units.ToNumber`): parsing is simplified. `float()` on text reads an optional sign, digits and an optional fraction, inside whitespace. Exponents, "inf", "nan" and hexadecimal are read as failures, although Python reads "nan" as NaN. `Units.ReadFloat` reads "nan" as missing, but `AgeOdp.OldAge` and the numeric metadata columns (`Metadata.AssignTypes`) go through `ToNumber` and fail on it.
- MinusDigit (`IwIodp.MinusDigit`): the class `\d` is the ASCII one. Python 3 also matches Unicode digits.
- IsWordChar (`Metadata.IsWordChar`): the word characters of `\b` in the ODP header patterns are the ASCII ones. Python 3 also counts Unicode letters and digits.
- LabelFields (`AgeIodp.LabelFields`): a fractional label is refused. The source splits its text, and a negative one such as -1234.5 gives site "1234." and hole "5". Python's float formatting is not modelled (see `Units.Textual`).
- ChikyuMadAnalytes (`Mad.ChikyuMadAnalytes`): when a file has two headers that contain "porosity", or two that contain "grain density", both are renamed to the same name (mad.py:109-113). `data[[...]]` at mad.py:114-115 then keeps both columns, and the concat at mad.py:116 keeps them or raises, depending on the other files. The model's selection (`Frames.Select`) takes the first such column, and the lemma states that column.
- MadStep (`Mad.MadStep`): selects the first column of each name, as `Mad.ChikyuMadAnalytes` says.
- CnsStepAnalyte (`Cns.CnsStepAnalyte`): both "section::inorganic carbon content:" and "analysis::inorganic carbon content:" become inorganic_carbon (cns.py:133-136), and both CaCO3 headers become calcium_carbonate (cns.py:137-140). When one file has both, the concat at cns.py:148 and the selection at cns.py:149-151 keep both columns or raise. The model's selection takes the first such column, and the lemma states that column.
- CnsStep (`Cns.CnsStep`): selects the first column of each name, as `Cns.CnsStepAnalyte` says.
- Million (`AgeDepth.Million`): a text age makes the conversion fail at once. In the source, `np.multiply` on a text cell repeats the text a million times, and only the later `float()` read (age_depth.py:55, 80) can fail, and only on rows that survive the site join. So `AgeDepth.DsdpConverted`, `AgeDepth.DsdpIntervalAges`, `AgeDepth.DsdpIntervalAge` and `AgeOdp.OdpPreparedOk` state that a text age stops the load, where the source may keep going.
- DsdpConverted (`AgeDepth.DsdpConverted`): see `AgeDepth.Million`. A text age fails here, not at the later `float()` read.
- DsdpIntervalAges (`AgeDepth.DsdpIntervalAges`): see `AgeDepth.Million`. A text age stops the load even when no metadata row joins it.
- DsdpIntervalAge (`AgeDepth.DsdpIntervalAge`): see `AgeDepth.Million`.
- OdpPreparedOk (`AgeOdp.OdpPreparedOk`): see `AgeDepth.Million`. The ODP load fails on a text age even when no metadata row joins it.
- LoadIodpCns (`Cns.LoadIodpCns`): uses the corrected projection `Cns.IodpProjected`, which keeps below-detection readings as 0. The code as written loses them (`Cns.IodpProjectedAsWritten`, see "## Findings").
- CompileCns (`Cns.CompileCns`): its IODP part is `Cns.LoadIodpCns`, with the corrected projection.
- IodpCell (`IwIodp.IodpCell`): the intended number rule, and a fractional number stays a number standing for its text (see `Units.Textual`). The code as written also zeroes positive readings below 0.0001 (`IwIodp.TinyReadingZeroed`, see "## Findings").
- IodpFrame (`IwIodp.IodpFrame`): cleans every cell with `IwIodp.IodpCell`, the intended number rule. A fractional cell stays a number standing for its text.
- IodpCellAsWritten (`IwIodp.IodpCellAsWritten`): a fractional number stays a number standing for its text (see `Units.Textual`).
- IodpLoadedLabel (`IwIodp.IodpLoadedLabel`): a fractional label stays a number standing for its text (see `Units.Textual`).
- CommentCells (`IwIodp.CommentCells`): a sample's comments come from its own first row. The source records the row labels of each sample's first row before the outer merge at iw_chem.py:190, which groups the rows by sample and renumbers them, and then looks those labels up in the merged table at iw_chem.py:263. When one sample's rows are not contiguous in the file (samples A, B, A), the lookup takes two rows of A: A's rows are duplicated by the merge and B gets no comments. The model does not track the row order of that merge.
- IodpFinal (`IwIodp.IodpFinal`): its comment cells are those of `IwIodp.CommentCells`, so the duplicated rows and the missing comments of the source's lookup do not appear.
- FinalRowAt (`IwIodp.FinalRowAt`): the comment cells of a row are those of `IwIodp.CommentCells`.
- LoadIodpIw (`IwIodp.LoadIodpIw`): reads the file through `IwIodp.IodpFrame`, so it uses the intended number rule.
- IodpLoaded (`IwIodp.IodpLoaded`): states the load with `IwIodp.IodpCell`, the intended number rule.
- CompileIw (`IwCompile.CompileIw`): its IODP part is `IwIodp.LoadIodpIw`, with the intended number rule. A fractional DSDP or ODP leg stays a number, so the leg test fails where the source compares text (see `Units.Textual`).
- LoadDsdpAgeDepth (`AgeDepth.LoadDsdpAgeDepth`): joins on the distinct (site_key, site) pairs of `AgeDepth.SiteTable`. The code as written repeats each pick once per hole of its site (`AgeDepth.SiteJoinAsWritten`, see "## Findings").
- LoadDsdpSteps (`AgeDepth.LoadDsdpSteps`): states the load with the corrected join of `AgeDepth.SiteTable`.
- LoadOdpAgeDepth (`AgeOdp.LoadOdpAgeDepth`): joins on the distinct site pairs of `AgeDepth.SiteTable`.
- LoadOdpAgeProfiles (`AgeOdp.LoadOdpAgeProfiles`): joins on the distinct site pairs of `AgeDepth.SiteTable`.
- ProfileSteps (`AgeOdp.ProfileSteps`): states the load with the corrected join.
- LoadIodpAgeDepth (`AgeIodp.LoadIodpAgeDepth`): joins on the distinct site pairs of `AgeDepth.SiteTable`.
- IodpSteps (`AgeIodp.IodpSteps`): states the load with the corrected join.
- CompileAgeDepth (`AgeCompile.CompileAgeDepth`): its DSDP, ODP and IODP parts use the corrected join. A fractional DSDP or ODP leg, site or hole in a text column becomes missing, where the source holds its text (see `Units.Textual`).
- Column types are simplified. A column counts as holding text (pandas `object`) when one of its current cells is text. The type pandas inferred when the file was read is not tracked.
- Merge order is not modelled. `Reshape.Merged` gives outer merges on the sample and replicate keys in ascending key order, and the model does not state the order pandas gives. The same holds for the index that `reset_index` drops.
- `groupby(axis=1).mean()` is modelled on numbers only (`Reshape.MeanPresent`). The loaders read every cell as a number before they average, so text never reaches it.
- In the Chikyu CNS loader, `applymap(str)` at cns.py:156 is applied once by the compile step's text rendering rather than twice. Rendering twice is rendering once (`Units.TextualTwice`).
- Header names with encoding artefacts are modelled as the decoded text the source holds, for example the "Â°" of the coordinate characters and the IODP "unreadable" mark.
- `ocean_drilling_compiler.py`, `create_database.py`, `data_filepaths.py` and `setup.py` are not part of this model. They write the tables to a database and name the input files.

## Findings

| source | as written | input that shows it | evidently intended | confidence | as-written member | corrected member |
|---|---|---|---|---|---|---|
| cns.py:69-96 | Below-detection tokens ("bdl", "nd", ...) are replaced by the number 0 first. The cleaning loop then runs `.str.strip()` on every text column, which turns that 0 back into NaN. | A carbon column holding "bdl" on one row and other text on another: the "bdl" row comes out missing. | Below-detection readings are published as 0. | not executed | Cns.BelowDetectionLost | Cns.BelowDetectionKept |
| iw_chem.py:175 | The pattern `-\d+` is meant to zero negative readings. It also matches the text of any positive reading below 0.0001, which Python writes with a negative exponent, so such a reading is zeroed too. | A reading of 0.00005, written "5e-05". | Only negative readings become 0, and every non-negative reading is kept. | not executed | IwIodp.TinyReadingZeroed | IwIodp.NumberIntended |
| age_depth.py:39-42 | The site-key join uses `hole_metadata[['site_key', 'site']]`, which has one row per hole. Every age pick is therefore repeated once per hole drilled at its site. | A site with holes C and D and one pick at that site: the pick comes out twice. | Each pick is joined once to its site's key, using the distinct (site_key, site) pairs. | not executed | AgeDepth.SiteJoinDuplicates | AgeDepth.SiteJoinIntendedCopies |
