# csv2latex core, modelled in Dafny

csv2latex turns a table read from a CSV file into a LaTeX `tabular`. The
user picks columns and gives them display names. The table can be filtered,
sorted and trimmed of excluded values. A YAML configuration file controls
how it is rendered:
- display names for models;
- model ranks;
- ignored models;
- suffix decorations;
- number formats;
- extra static columns.

This project models the three classes at the core of the program and
proves what their results mean:

- **`ConfigManager`** (`config.dfy`, module `Manager`).
  - The parsed configuration is a `Config` datatype. Every key the file
    can leave out is held at its default value.
  - The manager object is a class, `ConfigManager`, with the configuration
    path and the configuration as fields. `LoadConfigFile` replaces both.
  - Every accessor is a function of the configuration:
    - the pretty column name;
    - the sort rank;
    - the value replacement;
    - the suffix rules;
    - both exclusion tests.
  - Lemmas prove how each accessor resolves, including its fallback from
    the per-column keys to the legacy `model` keys. They also prove that
    moving the legacy keys under the per-column keys changes nothing,
    with one exception for value replacement (described under "Behaviour
    of the code worth knowing" below).
  - The wildcard matcher behind `fnmatch` is in `glob.dfy` (module `Glob`).
  - Python's `str`, `split`, `join` and `capitalize` are in `values.dfy`
    (module `Values`).
- **`DataProcessor`** (`processing.dfy`, module `Processing`).
  - A data frame is a list of column names and a list of rows. Each row
    carries its index label and its cells.
  - Filtering is proved to keep exactly the rows that pass every filter,
    in their original order. A filter that raises becomes an error result.
  - Sorting is proved to permute the rows into key order. A sort key
    column that is missing gives a `KeyError`. A single key column that
    mixes numbers and text gives a `TypeError`; with several keys such a
    column sorts its numbers before its strings.
  - The legacy model order and the configured custom orders are proved to
    order rows by their ranks.
  - `sort_values` is modelled as a sort on keyed rows, proved sorted and a
    permutation (`ordering.dfy`, module `Ordering`).
- **`LatexFormatter`** (`formatter.dfy`, module `Formatter`; the
  placement of extra columns is in `layout.dfy`, module `Layout`).
  - The column minima are proved to be attained by an eligible row and to
    be lower bounds.
  - A cell is proved to be underlined when it holds its column's minimum,
    and not when it lies at least the tolerance above some eligible value.
  - The cells of a row are proved to follow one layout of real and extra
    columns:
    - the real columns appear in order;
    - each extra column the `while` loop emits sits at its configured
      position;
    - the remaining extra columns follow the last real column;
    - when the extra columns have distinct non-negative positions, the row
      has one cell per column.
  - The header line is proved to keep the display names in order.
  - The whole table is proved to open with its preamble and close with the
    footer.

The loops listed below are each a `method` with a `while` or `for` loop.
Its postcondition ties its result to a specification function, and lemmas
prove what that function means.

Three loops of the source are not methods:
- the prefix loop of `get_pretty_column_name` is the recursive function
  `Manager.StripPrefixes`;
- the loop over the spellings in `get_value_replacement` is the function
  `Manager.FirstHit`;
- the loop of `sort_by_custom_order` that drops the temporary `_sort_`
  columns has no counterpart: the model sorts the rows and never adds those
  columns to the table, so `SortByCustomOrder` returns the original columns
  directly.

The methods with loops are:
- `apply_filters` and `filter_excluded_values`;
- the loop over the sort columns of `sort_by_custom_order`;
- `_calculate_min_values`;
- the suffix search of `_format_cell_value`;
- `_build_table_headers` and `_build_table_rows`.

Vectorised pandas operations are written as sequence comprehensions, as is
the assignment of sort ranks with `apply`.

## Behaviour of the code worth knowing

- **Prefix stripping.** `get_pretty_column_name` tries each of the prefixes
  `data_`, `model_` and `result_` in turn and does not stop at the first
  match. So it strips every prefix that matches: `data_model_name` becomes
  `Name` (`Manager.PrettyNameStripsEveryPrefix`).
- **What the formatter reads.** It reads `latex_model_names` and
  `model_patterns` directly. It never consults these:
  - `column_underline` and `underline_min_values`, so every numeric
    non-first column is underlined at its minimum;
  - `value_replacements`;
  - `pattern_formatting`.

  The decoration suffix is tested against the row's first-column value.
  `Formatter.UnderlineIgnoresColumnSetting` states the first point.
- **Minima.** They are computed for every numeric selected column except
  the first. Rows are left out when their `model` is in `ignored_models`
  or matches an `ignored_models_in_calculation` pattern.
- **Extra columns in the header and the rows.** An extra column whose
  position is not below the current header length is never inserted into
  the header. The rows still append it after the last real column, so the
  header line then has fewer cells than the rows
  (`Layout.ExtraPastTheEnd`). With one extra column at position 1 and two
  selected columns, header and rows agree (`Layout.ExtraBetweenColumns`).
- **Value replacement for numbers.** For a column listed under
  `value_replacements`, an integral float also finds the entry keyed by
  its integer spelling, and an int finds the one keyed by its float
  spelling (`str(float(value))`, which from 1e16 on is the exponent form
  such as `1e+16`). The legacy `latex_model_names` lookup tries
  `str(value)` only.
  Moving the legacy table under `value_replacements["model"]` therefore
  changes the replacement of an int whose float spelling is a key
  (`Manager.GeneralizeReplacementDiffers`).

## Model

| member | source | states |
|---|---|---|
| Manager.ConfigManager.constructor | src/csv2latex/config/manager.py:8-25 | the manager holds the given path and the loaded configuration; a missing file yields the empty configuration |
| Manager.ConfigManager.LoadConfigFile | src/csv2latex/config/manager.py:12-16 | the path and the whole configuration are replaced; after a missing file every rank is the default 999999, every replacement is `str(value)`, nothing is excluded, every column is underlined and has no format and no suffix rules |
| Manager.PrettifyIsPrettyChars | src/csv2latex/config/manager.py:97-98 | splitting on `_`, capitalizing each word and joining with spaces maps `_` to a space, upper-cases the first character of every word and lower-cases the rest, character by character |
| Manager.PrettyNameShape | src/csv2latex/config/manager.py:86-98 | without a display name, the pretty name is the prefix-stripped name rendered character by character, has the same length, and contains no `_` |
| Manager.PrettyNameFixedPoint | src/csv2latex/config/manager.py:86-98 | a name with no recognised prefix, no `_` and already capitalized is its own pretty name |
| Manager.PrettyNameStripsEveryPrefix | src/csv2latex/config/manager.py:89-95 | `data_model_name` loses both prefixes and becomes `Name`; an explicit display name wins |
| Manager.PrettyNameWords | src/csv2latex/config/manager.py:93-98 | `result_top_k` becomes `Top K` |
| Manager.FirstHit | src/csv2latex/config/manager.py:164-166 | a replacement is found exactly when some candidate is in the table, and it is the entry of the first such candidate |
| Manager.ValueReplacementResolution | src/csv2latex/config/manager.py:147-175 | for a listed column, the entry for `str(v)`, else the entry for the other numeric spelling, else `str(v)`; for an unlisted `model` column, the legacy display name or `str(v)`; otherwise `str(v)` |
| Manager.ReplacementAcrossNumberSpellings | src/csv2latex/config/manager.py:153-166 | an int always reaches an entry keyed by its own spelling, and the integral float of the same value reaches it too unless the float's own spelling is listed |
| Manager.EscapeAllIsMembership | src/csv2latex/config/manager.py:219-222 | matching against the escaped names of a list is exactly membership in the list |
| Manager.GeneralizeAgrees | src/csv2latex/config/manager.py:133-145 | moving the legacy `model` keys to their per-column places leaves every sort rank, suffix rule and both exclusion tests unchanged, for every column and value |
| Manager.GeneralizeAgreesOnReplacement | src/csv2latex/config/manager.py:147-175 | the same move leaves value replacement unchanged unless the value's second spelling is a legacy key and its first is not |
| Manager.GeneralizeReplacementDiffers | src/csv2latex/config/manager.py:153-173 | that exception occurs: the int 3 with a legacy key `3.0` is replaced only after the move |
| Manager.LegacyExclusionIsExact | src/csv2latex/config/manager.py:189-202 | a legacy ignored name is matched exactly, while the same text under `exclude_values` is a wildcard pattern |
| Manager.LegacyConfigurationExamples | src/csv2latex/config/manager.py:82-84 | with a legacy configuration: a listed model gets its rank and an unlisted one 999999; other columns get 999999; the display name replaces the model; an ignored model is excluded and a longer name is not |
| Glob.LiteralMatch | src/csv2latex/config/manager.py:219-222 | a pattern with no wildcard matches exactly itself |
| Glob.StarMatchesAll | src/csv2latex/config/manager.py:219-222 | `*` matches every string |
| Glob.PrefixStar | src/csv2latex/config/manager.py:219-222 | `q*` for a literal `q` matches exactly the strings that start with `q` |
| Glob.StarSuffix | src/csv2latex/config/manager.py:219-222 | `*q` for a literal `q` matches exactly the strings that end with `q` |
| Glob.EscapeMatchesExactly | src/csv2latex/config/manager.py:219-222 | an escaped string used as a pattern matches exactly the original string |
| Values.AltForm | src/csv2latex/config/manager.py:154-161 | the second spelling tried: for an int, `str(v) + ".0"` below 1e16 in magnitude and the exponent form (after a minus sign for a negative int) from 1e16 in magnitude on; for an integral float, `str` of the int of the same value, which `str(v)` extends by `.0` below 1e16; none for text or a non-integral float |
| Values.ShowIntegralFloat | src/csv2latex/config/manager.py:157-161 | an integral float below 1e16 in magnitude prints as the int of the same value followed by `.0` |
| Values.LargeIntegralFloat | src/csv2latex/config/manager.py:161 | from 1e16 on, an integral float prints in exponent form, with an `e` and not as digits plus `.0` |
| Values.NegativeLargeIntegralFloat | src/csv2latex/config/manager.py:161 | from -1e16 down, an integral float prints as a minus sign before the exponent form of its magnitude |
| Values.PowerOfTenString | src/csv2latex/config/manager.py:161 | the model's `str` of the integral float `10**k` is `1e+k` for every `k` from 16 on, which is Python's `str(float(10**k))` up to `k = 308` (beyond that the source raises, see "## Left out") |
| Values.TrimZerosRestore | src/csv2latex/config/manager.py:161 | the significant digits of the exponent form followed by the dropped zeros give back the digits of the int |
| Values.JoinSplit | src/csv2latex/config/manager.py:97-98 | joining the pieces of a split with the separator gives back the string |
| Values.Capitalize | src/csv2latex/config/manager.py:98 | first character upper case, every other character lower case, same length |
| Values.NatToStringRoundTrip | src/csv2latex/latex/formatter.py:109 | the decimal digits printed for a natural number read back as that number |
| Ordering.Sort | src/csv2latex/utils/data_processing.py:50 | the sorted keyed rows are a permutation of the input and every earlier key may precede every later one |
| Ordering.Insert | src/csv2latex/utils/data_processing.py:50 | inserting into a sorted list keeps it sorted and adds exactly the new element |
| Ordering.KeyLeTotal | src/csv2latex/utils/data_processing.py:50 | any two sort keys can be put in some order |
| Ordering.KeyLeTransitive | src/csv2latex/utils/data_processing.py:50 | the key order, ascending or descending per column, is transitive |
| Ordering.CellCmpTransitive | src/csv2latex/utils/data_processing.py:50 | the cell comparison is transitive, strictly when one step is strict |
| Ordering.PayloadsPermutation | src/csv2latex/utils/data_processing.py:73 | dropping the keys of two permuted keyed lists leaves permuted rows |
| Processing.ApplyFilters | src/csv2latex/utils/data_processing.py:9-40 | no filters gives the table itself; otherwise an error exactly when some filter reads a missing column or orders text; otherwise `df[mask]` for the mask of rows passing every filter: the same columns, a subsequence of the rows holding every copy of each passing row and no failing row |
| Processing.NarrowMask | src/csv2latex/utils/data_processing.py:19-38 | one filter's `mask &= …` over a column: a failure exactly when an ordering filter meets a text cell, otherwise each row's mask bit and-ed with whether the filter admits its cell |
| Processing.FilteredRows | src/csv2latex/utils/data_processing.py:14-40 | selecting by the combined mask gives a subsequence holding every copy of each passing row and no failing row |
| Processing.SelectCopies | src/csv2latex/utils/data_processing.py:40 | `df[mask]` with a mask that tests each row keeps as many copies of a passing row as the input has, and none of a failing one |
| Processing.SelectByLabel | src/csv2latex/utils/data_processing.py:40 | with distinct labels a row is selected exactly when its mask entry is set |
| Processing.ApplySort | src/csv2latex/utils/data_processing.py:43-50 | no keys gives the table itself; an error exactly when a key column is missing (a `KeyError`) or the only key column mixes numbers and text; with several keys an error exactly when one is missing; otherwise the same columns and the rows permuted into key order, numbers before strings in a mixed column |
| Processing.SortRows | src/csv2latex/utils/data_processing.py:48-50 | the sorted rows are a permutation of the rows and are ordered by their key cells |
| Processing.ColumnIndices | src/csv2latex/utils/data_processing.py:48-50 | key positions exist exactly when every key names a column |
| Processing.IndexOfDistinct | src/csv2latex/utils/data_processing.py:48-50 | in distinct column names each name is found at its own position |
| Processing.FilterIgnoredModels | src/csv2latex/utils/data_processing.py:59-63 | no `model` column gives the table itself; otherwise a subsequence holding every copy of each row whose model is not an ignored name and no other row |
| Processing.SortByModelOrder | src/csv2latex/utils/data_processing.py:66-73 | no `model` column gives the table itself; otherwise the same columns with the rows permuted so that model ranks never decrease |
| Processing.ModelOrderSorted | src/csv2latex/utils/data_processing.py:71-73 | sorting the rows keyed by the rank of their model orders them by that rank and permutes them |
| Processing.RankKeyLe | src/csv2latex/utils/data_processing.py:72-73 | one ascending integer key orders as the integers |
| Processing.KeepMask | src/csv2latex/utils/data_processing.py:78-86 | a row is kept exactly when no column's value in it is excluded |
| Processing.FilterExcludedValues | src/csv2latex/utils/data_processing.py:76-88 | the same columns and `df[mask]` for the mask of rows in which no value is excluded; such a row is kept and any other dropped |
| Processing.Available | src/csv2latex/utils/data_processing.py:99 | the configured sort columns the table has, as a subsequence of the configured list (so in configured order), and no other name |
| Processing.AvailableCounts | src/csv2latex/utils/data_processing.py:99 | each configured sort column the table has appears as often as it is configured, and any other name never |
| Processing.RankKeys | src/csv2latex/utils/data_processing.py:107-112 | each row is keyed by the vector of its `get_sort_order` ranks, one per available sort column in configured order |
| Processing.SortByCustomOrder | src/csv2latex/utils/data_processing.py:91-119 | no available sort column gives the table itself; otherwise the same columns with the rows permuted into lexicographic order of their rank vectors |
| Processing.CustomOrderSorted | src/csv2latex/utils/data_processing.py:107-113 | sorting rows keyed by their rank vectors orders them lexicographically by rank |
| Processing.IntKeyLe | src/csv2latex/utils/data_processing.py:112-113 | ascending integer keys compare exactly as their rank vectors do lexicographically |
| Layout.LeadPositions | src/csv2latex/latex/formatter.py:87-90 | the `j`-th extra cell emitted before a real cell is an extra column configured at the counter plus `j` |
| Layout.RealsInOrder | src/csv2latex/latex/formatter.py:83-95 | the real cells of a row are the selected columns, each once, in order |
| Layout.ExtraBeforeRealAtPosition | src/csv2latex/latex/formatter.py:86-95 | every extra cell emitted before a real cell sits at its configured position in the row |
| Layout.TrailingExtras | src/csv2latex/latex/formatter.py:97-100 | after the last real cell come the extra columns positioned at or past the counter, in configuration order |
| Layout.SlotsFromLength | src/csv2latex/latex/formatter.py:83-100 | with one extra column per position, a row has one cell per real column plus one per extra column at or past the starting counter |
| Layout.RowWidth | src/csv2latex/latex/formatter.py:83-100 | with distinct non-negative positions, every row has as many cells as real and extra columns together |
| Layout.PyInsert | src/csv2latex/latex/formatter.py:69 | `list.insert` grows the list by one and places the element at the index, counted from the end when negative |
| Layout.HeaderKeepsNames | src/csv2latex/latex/formatter.py:63-69 | the display names keep their order in the header, which grows by at most one name per extra column |
| Layout.HeaderWidth | src/csv2latex/latex/formatter.py:66-69 | when every position is below the number of display names, the header has one name per display name and extra column |
| Layout.ExtraBetweenColumns | src/csv2latex/latex/formatter.py:61-100 | an extra column at position 1 of two columns sits between them in the rows and in the header |
| Layout.ExtraPastTheEnd | src/csv2latex/latex/formatter.py:61-100 | an extra column positioned past the end is appended to the rows but missing from the header |
| Formatter.MinOf | src/csv2latex/latex/formatter.py:44-46 | no minimum exactly when no row takes part; otherwise the minimum is some participating value and no participating value is below it |
| Formatter.ColumnMinMeaning | src/csv2latex/latex/formatter.py:33-46 | a column's minimum is absent exactly when no row is eligible; otherwise an eligible row attains it and it bounds every eligible value |
| Formatter.MinsOverRecords | src/csv2latex/latex/formatter.py:44-46 | a column is recorded exactly when it is listed and numeric and some row is eligible, and its entry is that column's minimum |
| Formatter.MinValuesMeaning | src/csv2latex/latex/formatter.py:29-48 | a column gets a minimum exactly when it is listed, numeric and has an eligible row; the minimum is attained by an eligible row and bounds every eligible value |
| Formatter.CalculateMinValues | src/csv2latex/latex/formatter.py:29-48 | the computed map is the minima over every selected column but the first |
| Formatter.SuffixPrefix | src/csv2latex/latex/formatter.py:123-127 | the empty prefix when no suffix matches, otherwise the prefix of the first matching rule in configuration order |
| Formatter.FormatCellValue | src/csv2latex/latex/formatter.py:106-135 | the cell text: the display name of the first column, a number in math mode with its decoration and underline, or `str(value)` for text |
| Formatter.MinimumIsUnderlined | src/csv2latex/latex/formatter.py:129-131 | the value of an eligible row that is its column's minimum is rendered underlined |
| Formatter.AboveMinimumNotUnderlined | src/csv2latex/latex/formatter.py:129-133 | a value at least the tolerance above some eligible value is rendered without the underline |
| Formatter.RejectedFormatFallsBack | src/csv2latex/latex/formatter.py:113-118 | a column format the mini-language rejects falls back to fixed decimals |
| Formatter.ColumnSpec | src/csv2latex/latex/formatter.py:53 | the column specification is one `c` per column |
| Formatter.BuildTableHeaders | src/csv2latex/latex/formatter.py:61-72 | the header line is the bold names of the header list after inserting each extra column whose position is below the current length |
| Formatter.PlaceExtras | src/csv2latex/latex/formatter.py:87-90 | the `while` loop appends the extra columns configured at consecutive positions from the counter and stops at the first free position |
| Formatter.AppendTrailingExtras | src/csv2latex/latex/formatter.py:98-100 | the final loop appends the values of the extra columns at or past the counter, in configuration order |
| Formatter.BuildRowValues | src/csv2latex/latex/formatter.py:79-100 | a row's cells are its formatted real cells laid out with the extra columns as the layout says |
| Formatter.BuildTableRows | src/csv2latex/latex/formatter.py:74-104 | the rows text is every row's cells joined by ` & `, each ended by a row break |
| Formatter.Assemble | src/csv2latex/latex/formatter.py:22-25 | the table starts with its preamble, ends with the footer, and its length is the sum of its parts |
| Formatter.GenerateLatexTable | src/csv2latex/latex/formatter.py:10-27 | an empty selection gives the prompt to select a column; otherwise preamble, header line, rows and footer |

## Left out

- Reading and parsing the YAML file: the parsed configuration (or its absence) is a parameter of the constructor and of `LoadConfigFile`; the read-only properties are fields of the `Config` datatype, with each key's default.
- Default arguments: Dafny has none, so the defaults `config_path='table_config.yaml'` of the manager's constructor and `decimal_places=4` of `generate_latex_table` are the constants `Manager.DefaultConfigPath` and `Formatter.DefaultDecimalPlaces`, which a caller omitting the argument passes explicitly.
- Manager.Config: every mapping is keyed by strings. YAML reads an unquoted key such as `2022:`, `true:` or `1.5:` as a number or a boolean, and such an entry of `value_replacements`, `sort_orders`, `model_order` or `latex_model_names` never equals `str(value)`, so the source never uses it; the model assumes all keys were written as strings and cannot express such dead entries. The same holds for list entries: an `ignored_models` entry `- 42` is the int 42, which `isin` compares by value (so it drops a numeric model 42 in `filter_ignored_models` and in the minimum calculation) while `should_exclude_value` compares `str(value)` and never matches it; the model holds every list entry as a string.
- Logging, the Qt window, dialogs and CSV reading and writing (`main_window.py`, the dialogs, `app.py`, `converters.py`) are not part of this model.
- Values.AltForm, Values.LargeIntegralFloat, Values.PowerOfTenString: the int-to-double rounding of `float(value)` and Python's shortest round-trip digits are not modelled. Above 2^53 an int is rounded to the nearest double before it is printed (`str(float(9007199254740993))` is `9007199254740992.0`, while `AltForm` gives `9007199254740993.0`), and from 1e16 on Python prints at most 17 significant digits (the double 1e17+16 prints as `1.0000000000000002e+17`, while `ExpForm` gives `1.00000000000000016e+17`). Both contracts agree with Python wherever the double's shortest round-trip digits are the exact digits of the value, which covers every int of magnitude up to 2^53 and every power of ten from 1e16 to 1e308 (`Values.PowerOfTenString`). An int beyond the double range (about 1.8e308) makes `float(value)` raise `OverflowError` in the source; `AltForm` gives the exponent form instead, and `PowerOfTenString` likewise states the model's form for every `k` from 16 on.
- Floating point: float cells hold exact rationals. `str` of an integral float has Python's form (digits and `.0` below 1e16 in magnitude, exponent form from 1e16 on) but prints the exact digits of the value; `str` of a non-integral float prints its decimal expansion cut at 17 digits, not Python's shortest round-trip form, and not the exponent form Python uses below 1e-4.
- Python's format mini-language (`f"{value:{spec}}"` and `f"{value:.{n}f}"`) is a parameter `NumberFormats`, left uninterpreted; the model states only which of the two results a cell uses.
- pandas dtype inference: a column is numeric when every cell is an int or a float cell; `iterrows` upcasting of ints to floats in mixed rows is not modelled.
- Formatter.MinValuesMeaning: a numeric column with no eligible row gets no entry, where pandas would record NaN; since NaN never passes the underline test, the rendered cells are the same.
- A negative `decimal_places` is not modelled (the parameter is a natural number).
- Formatter.GenerateLatexTable: requires every selected column to exist in the table; pandas raises `KeyError` otherwise, and that error path is not modelled.
- Processing.FilterExcludedValues: requires row labels equal to row positions, the only case where the source's positional `iloc` write and label-indexed mask agree.
- Processing.SortByCustomOrder: requires distinct available sort columns and no existing `_sort_` column; duplicated columns or a name clash with a temporary column are not modelled.
- Processing.SortByModelOrder: requires that the table has no `_model_order` column already.
- Ordering.Sort: the order of rows with equal keys is left open; pandas' default quicksort is not stable and the model does not fix a tie order.
- Ordering.CellCmp: numbers sort before text as a total order, as pandas orders a mixed column when it sorts by several keys through ordered categories; with a single key pandas compares the cells and raises, which `ApplySort` reports as a `TypeError`.
- Filter bounds for `range`, `greater_than` and `less_than` are numbers, as the filter dialog produces them; a text bound compared with a numeric column is not modelled.
- `Capitalize`, `Upper` and `Lower` handle ASCII letters only.
- `table_style`, `default_decimal_places` and the other read-only properties the core never consults are fields without behaviour.
- No LaTeX escaping is done by the source, and none is modelled.
