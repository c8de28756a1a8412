# Frost dashboard core: a Dafny model

This project models the data pipeline of a small dashboard of minimum-temperature statistics for
Peru's districts. Districts are keyed by UBIGEO, a six-digit code. The model covers:

- `load_data` (`app/estimation.py`). It normalises the statistics CSV and the district shapefile:
  - the codes are padded to six characters with `zfill`;
  - names and departments go through `quitar_tildes`, which upper-cases them and strips accents.

  It then derives a code → department map that keeps the first record of each code. It left-joins
  that map onto the statistics and builds the sorted option lists of bands and departments.
- `filter_df`. It selects a band and, optionally, a department. It then inner-joins the normalised
  district geometries with the selected rows to make the map table.
- `build_rankings` (`app/plot.py`). It gives the K coldest and the K warmest rows of the filtered
  table.

The modules are:

- `Wrappers`: `Option` and `Result`.
- `Seqs`: boolean-mask selection and row-wise mapping, with subsequence and multiset facts.
- `StringOrder`: Python's code-point order on strings, and sorted lists of distinct values.
- `Codes`: `astype(str)` and `str.zfill`.
- `Names`: `quitar_tildes`.
- `Estimation`: `load_data` and `filter_df`.
- `Plot`: `build_rankings`.

Tables are sequences of row datatypes. A missing cell (NaN) is `None`. The metric columns are
`real`s that the pipeline only carries along. `load_data` overwrites columns and rebinds its table
step by step, so it is a method. `filter_df` and `build_rankings` are expression pipelines (the
first with one conditional rebinding of its band table), so they are functions.

## Model

| member | source | states |
|---|---|---|
| Codes.Zfill | app/estimation.py:28 | The result has length `max(len, width)`. A string at least `width` long is returned unchanged. A shorter one is the input with `'0'`s on its left, or after its leading sign when it has one. |
| Codes.ZfillIdempotent | app/estimation.py:28 | Padding an already padded code changes nothing. |
| Codes.ZfillKeepsValue | app/estimation.py:28 | Padding a digit string keeps it a digit string that denotes the same number. |
| Codes.Decimal | app/estimation.py:28 | `astype(str)` of a non-negative integer is a digit string with no leading zero whose value is the integer. |
| Codes.AsStr | app/estimation.py:28 | `astype(str)`: a text cell is unchanged. A non-negative integer becomes digits with no leading zero that denote it. A negative one becomes `-` followed by such digits for its absolute value. |
| Codes.NormalizeCode | app/estimation.py:43 | The key has at least six characters. For a non-negative integer, or a digit text, it is a digit string that denotes the same number. An integer below 10^6 gives exactly six digits. |
| Codes.ExampleCodes | app/estimation.py:70 | Integer 10101 and text "010101" both normalise to "010101", and likewise for 10102. |
| Codes.CodesAgree | app/estimation.py:70 | An integer code and a digit text of at most six characters with the same value normalise to the same six-character key. So a code read as a number on one side joins the same code read as text on the other. |
| Names.UpperChar | app/estimation.py:16 | `a`-`z` map to `A`-`Z` (code point minus 32). Each lower-case accented letter maps to its upper-case partner (á→Á … ñ→Ñ). Every other character is unchanged. So no lower-case letter remains, and ASCII and the alphabet are preserved. |
| Names.Upper | app/estimation.py:16 | `str.upper` maps every character by `UpperChar` and keeps the length. |
| Names.AsciiFold | app/estimation.py:17 | NFKD followed by ASCII-ignore, per character. ASCII is kept as it is. An upper-case accented letter leaves its base letter (`BaseUpper`). A lower-case one leaves the lower-case base letter. Any other character leaves nothing. |
| Names.StripDiacritics | app/estimation.py:17 | The result is ASCII and never longer. It has no lower-case letter when the input has none. It keeps the length over the alphabet. |
| Names.StripAlphabet | app/estimation.py:17 | Over the alphabet, character i of the result is the fold of character i of the input. |
| Names.AlphabetLetters | app/estimation.py:16-17 | Over the alphabet, upper-casing and then folding maps each character to its upper-case base letter `BaseUpper`, position by position. |
| Names.QuitarTildes | app/estimation.py:12-17 | A missing value passes through, and only a missing value gives a missing result. A present value becomes upper-case ASCII, never longer than the input. Over the modelled alphabet it has the same length, and each character is the upper-case base letter of the input character there ("José" gives "JOSE"). |
| Names.NormalizesTo | app/estimation.py:12-17 | A name over the alphabet normalises exactly to the string of its `BaseUpper` letters. |
| Names.QuitarTildesFixedPoint | app/estimation.py:12-17 | A name is unchanged exactly when it is already upper-case ASCII. |
| Names.QuitarTildesIdempotent | app/estimation.py:12-17 | Normalising twice is normalising once. |
| Names.NinoExample | app/estimation.py:12-17 | "Niño" normalises to "NINO". |
| Names.DepartmentSpelling | app/estimation.py:12-17 | Each example department spelling ("Apurímac", "Cusco") normalises to its upper-case unaccented form. |
| Names.ExampleNames | app/estimation.py:12-17 | "Apurímac" gives "APURIMAC" and "Cusco" gives "CUSCO". |
| Names.LetterNames | app/estimation.py:12-17 | "á" gives "A" and "b" gives "B". |
| Estimation.NormalizeStatsRow | app/estimation.py:28-29 | The code is `NormalizeCode` of `__UBIGEO__` (so at least six characters) and the name is `QuitarTildes` of `__NOMBRE__` (normalised, missing exactly when it was missing). Band and metrics are unchanged. |
| Estimation.NormalizeGeoRow | app/estimation.py:43-44 | The code is `NormalizeCode` of `IDDIST` (so at least six characters) and the department is `QuitarTildes` of `DEPARTAMEN` (normalised, missing exactly when it was missing). The geometry is unchanged. |
| Estimation.KeysAgree | app/estimation.py:28 | Both tables are keyed alike: a CSV row whose code is the integer n and a shapefile record whose code is a digit text of at most six characters denoting n get the same six-character key. |
| Estimation.NormalizeGeo | app/estimation.py:67-72 | The normalised shapefile has one record per record read, in order, each normalised on its own and with its geometry kept. |
| Estimation.DepFor | app/estimation.py:46-49 | The department a lookup finds is the one of the first entry with that code, or missing when no entry has it. |
| Estimation.DropDuplicates | app/estimation.py:39-47 | The map has unique codes. It is an order-preserving subsequence of the shapefile's entries with the same set of codes. Each kept entry is the first occurrence of its code. |
| Estimation.DropDuplicatesKeepsFirst | app/estimation.py:46 | For every code, deduplicating does not change which department the code maps to. |
| Estimation.FirstWins | app/estimation.py:46 | Of two entries with the same code, only the first is kept. |
| Estimation.DepForPair | app/estimation.py:46-49 | With two distinct codes, the lookup finds each entry's own department. |
| Estimation.DuplicateCodeScenario | app/estimation.py:39-47 | Two raw shapefile records for district 010101 have the code once as integer 10101 and once as text "010101", and departments "Apurímac" and "Cusco". The map keeps only `("010101", "APURIMAC")`. |
| Estimation.JoinOne | app/estimation.py:49 | A left row yields at least one output row, and each output row extends it. |
| Estimation.LeftJoin | app/estimation.py:49 | The left merge has at least as many rows as the left table, and every output row extends some left row. |
| Estimation.UniqueMatches | app/estimation.py:46-49 | With unique codes the map has at most one entry per code: the one `DepFor` finds. |
| Estimation.LeftJoinUniqueKeys | app/estimation.py:49 | With a deduplicated map, the left merge keeps every statistics row, in order and exactly once. Each row is extended by the department of its code, or by a missing one. |
| Estimation.Present | app/estimation.py:52-53 | `dropna()` keeps exactly the present values. |
| Estimation.OptionList | app/estimation.py:52-53 | An option list is strictly increasing, and its elements are exactly the present values of the column. |
| StringOrder.SortedDistinct | app/estimation.py:52-53 | `sorted(set(xs))`: strictly increasing, with the same elements as `xs`. |
| StringOrder.StrictlyIncreasingUnique | app/estimation.py:52-53 | Two strictly increasing lists with the same elements are equal. So the option list is determined, whatever sort is used. |
| StringOrder.LexLessTransitive | app/estimation.py:52-53 | Python's string order is transitive. |
| StringOrder.LexLessTotal | app/estimation.py:52-53 | Python's string order is total on distinct strings. |
| Estimation.JoinedRows | app/estimation.py:27-49 | The joined table has one row per CSV row, in order. Each row has its code padded, its name normalised and the department of the first shapefile record with that code. Equivalently, it is `LoadRow` mapped over the CSV. |
| Estimation.ColumnValues | app/estimation.py:52-53 | A value is present in the band (or department) column exactly when some row has it. |
| Estimation.LoadData | app/estimation.py:19-55 | A missing CSV raises first, then a missing shapefile. Otherwise it returns the joined table (`JoinedTable`, described by `JoinedRows`) and the shapefile as read. The band and department lists are strictly increasing and hold exactly the values present in the table. |
| Seqs.Filter | app/estimation.py:59 | Boolean-mask selection keeps only rows that satisfy the mask, in their original order. |
| Seqs.FilterCounts | app/estimation.py:59 | Every row that satisfies the mask is kept, as often as it occurs. |
| Seqs.FilterThenFilter | app/estimation.py:59-61 | Filtering twice selects, in order, exactly the rows satisfying both masks. |
| Estimation.DepFilterActive | app/estimation.py:60 | The department filter is active only for a present department. It is inactive for a missing one, the empty string and "TODOS". |
| Estimation.SelectRows | app/estimation.py:59-61 | Each kept row has the selected band and, when the department filter is active, the selected department. The result is an order-preserving subsequence that keeps every such row as often as it occurs. With no department, an empty one or "TODOS", the result is exactly the band filter. With any other department, every kept row has that department. |
| Estimation.JoinGeo | app/estimation.py:73-74 | One geometry record yields rows only from the statistics rows of its code, and a row for each of them. |
| Estimation.InnerJoin | app/estimation.py:66-75 | Every map row pairs a geometry record and a selected row with equal codes, and every such pair yields a map row. With no selected rows the map is empty. |
| Estimation.InnerJoinCount | app/estimation.py:66-75 | The map has exactly as many rows as there are matching (geometry, statistics) pairs. |
| Estimation.FilterDf | app/estimation.py:57-76 | The selected rows satisfy the `SelectRows` properties. The map table pairs the normalised shapefile with them, soundly and completely. No selected rows means an empty map. |
| Estimation.UnknownBandIsEmpty | app/estimation.py:59 | A band no row has gives two empty tables. |
| Estimation.AllDepartmentsIsNoFilter | app/estimation.py:60 | "TODOS" and the empty string select what no department selects. |
| Estimation.ExampleGeometry | app/estimation.py:66-72 | The example shapefile, with text codes and departments "Apurímac" and "Cusco", normalises to the APURIMAC and CUSCO records. |
| Estimation.ExampleLoad | app/estimation.py:27-49 | The example CSV has integer codes 10101 and 10102, lower-case names and two bands. Loading it with the example shapefile gives four rows: codes padded, names upper-cased and departments APURIMAC and CUSCO joined on. |
| Estimation.CuscoScenario | app/estimation.py:57-76 | Starting from the loaded example table, band "2024" with department "CUSCO" gives the one CUSCO row of 2024 and one map row for its district. |
| Plot.Insert | app/plot.py:30-31 | Inserting into a sequence ordered by mean keeps it ordered and adds exactly that row. |
| Plot.SortByMean | app/plot.py:30-31 | `sort_values("mean")` gives a permutation of the rows, ordered by mean in the requested direction. |
| Seqs.MapPermutation | app/plot.py:30-31 | Projecting two permutations of each other to the ranking columns gives permutations of each other. |
| Plot.Project | app/plot.py:29-31 | `[cols]` keeps every column but the band: putting the band back (`WithBand`) gives the row again, and the metrics are unchanged. |
| Plot.HeadCount | app/plot.py:30-31 | `head(k)` keeps at most n rows: min(k, n) for k >= 0, and all but the last min(-k, n) for negative k. |
| Plot.Ranking | app/plot.py:30-31 | The ranking has `head(k)`'s row count and is ordered by mean. It is drawn from the projected rows, and no row left out comes before a row kept. |
| Plot.TopRanking | app/plot.py:30 | The ascending ranking satisfies `LowestFirst`. It is non-decreasing in mean and drawn from the projected rows, and no row left out has a smaller mean than a kept row. |
| Plot.BottomRanking | app/plot.py:31 | The descending ranking satisfies `HighestFirst`, the mirror image of `LowestFirst`. |
| Plot.BuildRankings | app/plot.py:27-32 | `top` satisfies `LowestFirst` and `bot` satisfies `HighestFirst`. Both have `head(K)`'s row count, which is `min(K, n)` for `K >= 0`. |
| Plot.DefaultRankings | app/plot.py:27 | With the default K = 15, each ranking has 15 rows, or every row when there are fewer. |

## Left out

- Reading the files, the path constants and the error messages. The two existence checks are the booleans of `Files`, and the tables are parameters of `LoadData`.
- `df_to_csv_bytes` (CSV serialisation and UTF-8 encoding) is not part of this model.
- Unicode: characters are modelled exactly only over ASCII plus Á É Í Ó Ú Ü Ñ in both cases.
- Names.QuitarTildes: drops every character outside that alphabet. Python keeps more:
  - NFKD leaves an ASCII base letter for many other letters (Ç, À, Ê, Â).
  - It leaves a lower-case letter for `ª` and `º` (so `quitar_tildes("º") == "o"`).
  - `upper()` turns some characters into several (`ß` into `SS`).
  - So "upper-case ASCII", "never longer" and idempotence are proved of the model and hold of the source only over the modelled alphabet.
- Names.StripDiacritics, Names.AsciiFold, Names.UpperChar: the same restriction to the modelled alphabet.
- The geometry column is an opaque value carried along; no geometric operation is modelled.
- The metric columns are mathematical reals: NaN means, float rounding and pandas' placement of NaN when sorting are not modelled.
- Plot.SortByMean: pandas' default sort is not stable. The model sorts stably, so it claims nothing about the order of rows with equal means.
- pandas turns an integer code column holding a missing value into floats (so `astype(str)` gives `"10101.0"`). `RawCode` has only integer and text cells.
- The CSV columns not used by these functions are not modelled. `band_label` is a string.
- `streamlit_app.py`, the plotting functions of `app/plot.py` and `prepare_data.py` are not part of this model.
