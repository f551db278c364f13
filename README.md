# ProteoCore data cleaning, modelled in Dafny

The ProteoCore Data Cleaning App takes an uploaded proteomics quantification table
(CSV or TSV). It keeps the rows of one organism and names repeated genes as isoforms.
It then offers the cleaned intensity table for download. This project models the
transformation at the heart of the app, `clean_data`, and the file-name helper
`get_file_extension` that picks the reader. It proves what the transformation
promises.

The parsed table is abstract. It is an ordered list of column names and a sequence of
rows, where each row maps a column name to a cell. A cell is `Missing` (what pandas
reads as NaN) or `Value(text)`. Intensity values stay opaque text and are never
interpreted. A column a row lacks reads as `Missing`, so every operation is total.

Modules:

- `Options`: the optional value. Python's `None` results are `None`.
- `Sequences`: order-preserving selection (`Filter`) and the subsequence relation. Both
  the boolean row mask at line 107 and the column comprehensions at lines 113 and 122
  are instances of `Filter`.
- `Strings`: Python's `in` on strings, `str.lower` (ASCII letters), and the decimal
  rendering of a count in an f-string, with its inverse.
- `FileExtension`: `os.path.splitext` (POSIX) and `get_file_extension`.
- `Tables`: cells, rows, tables and the fixed column names.
- `Isoforms`: the `gene_counts` loop of lines 132-149. `AddIsoformIdentifiers` is a
  `while` loop over a map of counters with the counter invariant `CountsAgree`.
  `BuildRow` is the inner loop that fills one output row. The lemmas about the naming
  rule are stated on the occurrence-based specification `Identifiers`.
- `Cleaning`: format dispatch, the organism filter, the Gene backfill, column selection
  and projection, and `clean_data` itself, as `CleanTable` and `CleanData`. Both methods
  are proved against the specification predicate `IsCleaningOf`.

The model follows the code in these points, where the design of the tool promises otherwise:

- Output identifiers are not unique. A gene `X` seen twice is renamed `X_2` the second
  time, and another row may already carry the gene `X_2`. `SuffixedNameCanCollide`
  exhibits this. Within one gene the names are distinct (`ExpectedNamesDistinct`).
- A missing `Organism`, `Gene` or `Entry Name` column raises Python's `KeyError`. It is
  checked in the order lines 107 and 110 read those columns. It is not a separate
  schema error.
- Only the suffix policy for duplicates exists in the code. Summing duplicates is not
  implemented.
- The species may be unset in the form (`None`). Then pandas compares every
  `Organism` cell with `None`, matches no row, and the result has no rows.

## Model

| member | source | states |
|---|---|---|
| Strings.ToLower | data_cleaning_app_friendly.py:15 | the result has the input's length and no upper-case letter; each upper-case letter becomes its lower-case letter and every other character is kept |
| Strings.ToLowerFixesLowerCase | data_cleaning_app_friendly.py:15 | lower-casing leaves a string unchanged exactly when it has no upper-case letter, both directions |
| Strings.NatToDecimal | data_cleaning_app_friendly.py:137 | a count renders as a non-empty string of decimal digits with a leading zero only for 0 |
| Strings.DecimalRoundTrip | data_cleaning_app_friendly.py:137 | reading back the rendered count gives the count |
| Strings.NatToDecimalInjective | data_cleaning_app_friendly.py:137 | different counts render differently |
| FileExtension.LastIndexOf | data_cleaning_app_friendly.py:14 | the index found holds the character and no later index does; -1 when the character is absent |
| FileExtension.SplitExt | data_cleaning_app_friendly.py:14 | root and extension concatenate to the path; a non-empty extension starts at the last dot and contains no other dot and no slash |
| FileExtension.HasExtensionIff | data_cleaning_app_friendly.py:14-15 | a path has an extension exactly when its last component has a dot preceded by some non-dot character, both directions |
| FileExtension.GetFileExtension | data_cleaning_app_friendly.py:13-15 | None exactly when there is no extension; otherwise the lower-cased text from the last dot, starting with a dot and entirely lower case |
| Cleaning.FileFormat | data_cleaning_app_friendly.py:99-104 | the CSV reader is chosen exactly for `.csv` and the TSV reader exactly for `.tsv`, each letter in either case; any other extension chooses none |
| Sequences.Filter | data_cleaning_app_friendly.py:107 | the selection keeps exactly the qualifying elements, each qualifying element appears, the count is the number of qualifying elements, and the result is a subsequence of the input |
| Sequences.FilterKeepsAll | data_cleaning_app_friendly.py:122 | selecting from a sequence whose elements all qualify returns it unchanged |
| Cleaning.SpeciesRows | data_cleaning_app_friendly.py:107 | every kept row has `Organism` equal to the target species; every matching row is kept; the number of kept rows is the number of matching rows, so duplicates stay; kept rows keep their relative order; an unset species keeps nothing |
| Cleaning.BackfillGene | data_cleaning_app_friendly.py:110 | same number of rows; a missing `Gene` becomes that row's `Entry Name`; a row with a present `Gene` is unchanged; no other column changes |
| Cleaning.ColumnsToKeep | data_cleaning_app_friendly.py:113 | `Gene` first, then exactly the columns containing `Intensity` and none of `MaxLFQ`, `Unique`, `Total`, in source order |
| Cleaning.Project | data_cleaning_app_friendly.py:116 | every row keeps only the chosen columns, with their cells unchanged |
| Cleaning.IntensityColumns | data_cleaning_app_friendly.py:122 | exactly the columns whose name contains `Intensity`, in order |
| Cleaning.KeptIntensityColumns | data_cleaning_app_friendly.py:113-122 | the intensity columns found at line 122 are exactly the sample intensity columns chosen at line 113, in the same order |
| Cleaning.MissingRequiredColumn | data_cleaning_app_friendly.py:107-110 | None exactly when `Organism`, `Gene` and `Entry Name` are all present; otherwise a column that is absent |
| Isoforms.Occurrence | data_cleaning_app_friendly.py:134-140 | a row is its gene's k-th occurrence for some k between 1 and its position plus one |
| Isoforms.CountGene | data_cleaning_app_friendly.py:134-140 | the counter of the row's gene rises by one or starts at one, other counters are unchanged, and the row is named after the new count |
| Isoforms.CounterStep | data_cleaning_app_friendly.py:132-140 | if `gene_counts` holds the number of rows seen so far for each gene, it still does after counting the next row, and that count names the row |
| Isoforms.BuildRow | data_cleaning_app_friendly.py:143-145 | the row dictionary holds the identifier under `Gene` and the input row's cell under each intensity column, and no other key |
| Isoforms.AddIsoformIdentifiers | data_cleaning_app_friendly.py:132-149 | the loop's rows are exactly the occurrence-based specification: one output row per input row, in order, named by the row's occurrence of its gene |
| Isoforms.IsoformRowsShape | data_cleaning_app_friendly.py:143-149 | every output row has the same keys, `Gene` plus the intensity columns, copies the input row's intensity cells and carries that row's identifier |
| Isoforms.IdentifierRule | data_cleaning_app_friendly.py:134-140 | the first row of a gene keeps the bare gene; a later one is `{gene}_{k}` where k >= 2 counts the rows of that gene up to and including it |
| Isoforms.IsoformNamesInOrder | data_cleaning_app_friendly.py:132-149 | the n rows of a gene, wherever they stand, are named `gene`, `gene_2`, ..., `gene_n` in row order |
| Isoforms.IsoformName | data_cleaning_app_friendly.py:137-140 | the first occurrence keeps the bare gene; a later one is a text value different from the gene that starts with the gene's text and `_` |
| Isoforms.IsoformNameReadsBack | data_cleaning_app_friendly.py:137 | after the gene's text and `_`, a suffixed name holds only decimal digits, and they read back as the occurrence count |
| Isoforms.IsoformNameInjective | data_cleaning_app_friendly.py:137 | two different counts never give one gene the same name |
| Isoforms.ExpectedNamesDistinct | data_cleaning_app_friendly.py:137 | the names given to the rows of one gene are pairwise distinct |
| Isoforms.SuffixedNameCanCollide | data_cleaning_app_friendly.py:135-140 | genes `X`, `X`, `X_2` are named `X`, `X_2`, `X_2`: names are not unique across genes |
| Cleaning.CleaningIsDeterministic | data_cleaning_app_friendly.py:107-152 | two outcomes that both meet the cleaning specification for one table and species are equal |
| Cleaning.CleanTable | data_cleaning_app_friendly.py:107-152 | `KeyError` for the first missing required column; otherwise the header is `Gene` plus the sample intensity columns; there is one row per row of the target organism, in order, with the header's keys, that row's intensity cells and its isoform identifier |
| Cleaning.CleanData | data_cleaning_app_friendly.py:92-104 | None exactly when there is no upload or the extension is neither `.csv` nor `.tsv`; otherwise the table read with the extension's reader, cleaned as `CleanTable` states |

## Left out

- Decoding the upload: the data-URL split, the base64 decoding (lines 95-96) and the UTF-8 decoding (lines 100 and 102) are not modelled. `CleanData` receives the decoded text.
- Decode and read failures are not modelled. Python raises `ValueError` at line 95 for a data URL without exactly one comma, `binascii.Error` at line 96 for bad base64, and `UnicodeDecodeError` or a pandas parser error at lines 100 and 102. `readTable` is total.
- Lines 95-96 run before the extension test at line 99. So a malformed upload with an unsupported extension raises in Python instead of returning None. In the model it returns None.
- Reading the table: `pandas.read_csv` (lines 100 and 102) is the parameter `readTable`, given the chosen format. Which texts it reads as NaN, and how it renames duplicate headers, belong to that parameter.
- Writing the CSV text: `to_csv` (line 155) is not modelled. The result is the table it would write.
- The Dash layout, the callbacks `update_upload_status` and `update_cleaned_data`, and the download link (lines 17-89, 164-209) are user interface and not modelled.
- An extension of None at line 99 raises `AttributeError` in Python. `CleanData` takes the extension as a string, so that call is not modelled.
- Strings.ToLower: only ASCII letters are lower-cased. Python's `str.lower` also maps non-ASCII letters.
- FileExtension.SplitExt: POSIX path rules only. The Windows variant, which also splits on backslashes and drive letters, is not modelled.
- Isoforms.AddIsoformIdentifiers: all missing genes are counted under one key. Python may treat separate NaN objects as different dictionary keys. A missing gene is rendered `nan` when suffixed.
- When no row survives the filter, line 152 builds the frame from an empty list, so the written text has no header. The model's header is the one declared at line 125 in every case.
- Intensity cells are opaque text. pandas would store numeric columns as numbers and format them on output, and a numeric `Gene` would be rendered as, for example, `1.0`. None of this number handling is modelled.
- Lines 119 and 125 compute values that are overwritten before use (at lines 122 and 152). They do not affect the result and are not modelled.
