# autompg in Dafny

This project models the core of `autompg.py`, a small Python program that handles the UCI
"Auto MPG" data set.

- **Records.** Each row of the data file becomes an `AutoMPG` record: make, model, year and miles
  per gallon.
- **Equality and order.** Records compare equal field by field. They are ordered by the tuple
  `(make, model, year, mpg)`.
- **Cleaning.** The data file is cleaned line by line with `expandtabs(1)`.
- **Row parsing.** A row is read as follows:
  - field 8 is split into words;
  - the first word is the make, normalised through a fixed table of corrections;
  - the remaining words, joined by single spaces, are the model;
  - field 6 plus 1900 is the year;
  - field 0 is the mpg.
- **The `AutoMPGData` container** holds the list of records and two averages tables. It can:
  - sort the records by their natural order, by year or by mpg, with stable sorts;
  - compute the mean mpg per year and per make.

The Dafny modules follow that structure:

- `Wrappers`: `Option` and `Result`.
- `Text`: Python's `str.isspace`, `str.split()` and `' '.join`.
- `Numbers`: the text forms accepted by `int()` and `float()` that the data set can contain, and the
  whitespace they skip around a number.
- `Records`: the record value, `__eq__` and `__lt__`.
- `Cleaning`: `str.expandtabs` and the cleaning loop.
- `Parsing`: make normalisation, one row to one record, and all rows.
- `Sorting`: stable sorting by a key, specified as a stable insertion sort.
- `Grouping`: the group-by-key averages.
- `Store`: the class `AutoMpgData` with its fields and methods.

The sorts in the source are calls to Python's built-in `list.sort` and `sorted`. The model
therefore specifies them by a function. It proves that the result is sorted, is a permutation of
the input, keeps equal-key records in their original order, and is the only list with these three
properties.

The averaging methods are loops in the source. They are modelled by the method
`Grouping.GroupAverages`, which has the same two loops: first the values are grouped by key, then
each group is averaged.

## Model

| member | source | states |
|---|---|---|
| Text.Words | autompg.py:89 | `Words` is `split()`; it yields only non-empty words with no whitespace in them |
| Text.WordsEmptyIffBlank | autompg.py:89-90 | `split()` gives no words exactly when the text is all whitespace, so `mmsplit[0]` fails exactly on a blank name |
| Text.WordsKeepNonSpace | autompg.py:89 | the words of `split()`, concatenated, are exactly the non-whitespace characters of the text, in order |
| Text.WordsOfJoin | autompg.py:89-101 | splitting a single-space join of words gives back those words |
| Text.WordsOfSpaced | autompg.py:89-90 | `Words` is `split()` on every text of the form pad, word, pad, ..., word, pad, where the pads are whitespace runs and those between words are non-empty: it gives back exactly those words, so each word is a maximal run of non-whitespace and the make is the first such run |
| Text.JoinSingleSpaced | autompg.py:101 | `Join` is `' '.join`; a join of words has no leading, trailing or doubled spaces, and it is empty exactly when there are no words |
| Numbers.StripSpec | autompg.py:102-103 | `Strip`, the whitespace removal of `int()` and `float()`, keeps a contiguous middle slice that neither starts nor ends with number whitespace, and removes only number whitespace around it. Number whitespace is the `str.isspace` set without U+001C to U+001F |
| Numbers.SeparatorPaddingRejected | autompg.py:102-103 | a year or mpg field padded with U+001C is rejected by `ParseInt` and `ParseDecimal`, as by `int()` and `float()`, although `str.isspace` counts U+001C as whitespace |
| Numbers.WhitespacePaddingAccepted | autompg.py:102 | a tab before and a no-break space after a year are skipped by `ParseInt`, as by `int()` |
| Numbers.ParseIntShowInt | autompg.py:102 | `ParseInt`, the model of `int()`, applied to an integer's decimal text gives back that integer |
| Numbers.ParseDecimalShowInt | autompg.py:103 | `ParseDecimal`, the model of `float()`, applied to an integer's decimal text gives back that integer as a number |
| Numbers.UnsignedDecimal | autompg.py:103 | the unsigned part of a `float()` literal never denotes a negative number |
| Records.Equal | autompg.py:35-39 | `Equal` is `__eq__`: two records are equal exactly when make, model, year and mpg are all equal |
| Records.StrLessIsLexicographic | autompg.py:41-45 | `StrLess`, the string `<` inside `__lt__`'s tuple comparison, is lexicographic: a proper prefix comes first, otherwise the first differing character decides |
| Records.StrLessConnected | autompg.py:43 | any two distinct strings are ordered one way or the other |
| Records.LessIrreflexive | autompg.py:41-45 | under `Less`, which is `__lt__` (the tuple order on make, model, year, mpg), no record is less than itself |
| Records.LessTransitive | autompg.py:41-45 | the tuple order on records is transitive |
| Records.LessTrichotomy | autompg.py:35-45 | for any two records exactly one of `a < b`, `b < a`, `a == b` holds |
| Cleaning.ExpandTabsRemovesTabs | autompg.py:75 | `ExpandTabs`, which is `str.expandtabs`, leaves no tab in the line, for any tab size and start column |
| Cleaning.ExpandTabsOne | autompg.py:75 | `expandtabs(1)` keeps the length and turns each tab into one space, changing no other character |
| Cleaning.CleanLines | autompg.py:72-76 | the cleaning loop writes one cleaned line per input line, each the `expandtabs(1)` of its input, with the same length and tabs turned into spaces |
| Parsing.NormalizeMake | autompg.py:91-100 | a misspelt make is replaced by its correction from the fixed table; any other make is kept |
| Parsing.NormalizeMakeIdempotent | autompg.py:91-100 | normalising twice is the same as normalising once, and a normalised make is never one of the misspellings |
| Parsing.ParseRowErrors | autompg.py:88-103 | `ParseRow` is the body of the `_load_data` loop. A row fails: with too few fields when field 8 is missing; with an empty name when field 8 is blank; with a bad year when `ParseInt` (`int()`) rejects field 6; with a bad mpg when `ParseDecimal` (`float()`) rejects field 0, in that order; otherwise it gives a record |
| Parsing.ParseRowFields | autompg.py:88-104 | a parsed record's year is field 6 plus 1900, its mpg is field 0, its make is the normalised first word, and its model is the other words, single-spaced, and is empty exactly when the name is one word |
| Parsing.ParseRowOfFields | autompg.py:88-104 | a row whose field 8 is words joined by single spaces, whose field 6 is the decimal text of a year offset and whose field 0 is a valid `float()` text parses to the record with the normalised first word, the other words, the offset plus 1900 and that mpg |
| Parsing.ParseAllSpec | autompg.py:87-104 | applying a row parser to each row until the first error gives one record per row, in row order, up to the first failing row. That row's index and error are reported, and success is reported exactly when every row parses |
| Parsing.ParseRowsSpec | autompg.py:87-104 | the same for the rows of the data file: loading keeps one record per row, in row order, up to the first bad row, reports that row's index and error, and succeeds exactly when every row parses |
| Parsing.ChevyMalibuRow | autompg.py:88-104 | a row in the data set's format whose name is `chevy malibu` gives make `chevrolet` (from `chevy`), model `malibu`, year 1970 and mpg 18.0 |
| Sorting.SortBy | autompg.py:107-118 | sorting by a key gives a list ordered by that key that is a permutation of the input and keeps equal-key records in input order |
| Sorting.BeforeTransitive | autompg.py:107-118 | each sort key orders records transitively |
| Sorting.DefaultTiesAreEqual | autompg.py:108 | under the natural order, only equal records tie, so the default sort is fully determined |
| Sorting.StableSortIsUnique | autompg.py:107-118 | any sorted permutation that keeps equal-key records in input order is exactly the sorted list |
| Grouping.GroupMpgs | autompg.py:121-124 | a key's group is non-empty exactly when some record has that key |
| Grouping.GroupMembers | autompg.py:123-124 | every value in a key's group is the mpg of a record with that key |
| Grouping.GroupMpgsExact | autompg.py:123-124 | a key's group holds the mpg of exactly the records with that key, each once and in record order: position `j` of the group is the mpg of the record at the `j`-th of a strictly increasing list of positions, and that list contains a position exactly when its record has the key |
| Grouping.GroupAverages | autompg.py:120-137 | the averaging loops give a table whose keys are exactly the keys present in the data, mapping each key to the mean mpg of its records |
| Grouping.MeanWithinBounds | autompg.py:126 | a mean lies between any lower and upper bound of its values |
| Grouping.AverageWithinGroup | autompg.py:120-137 | each table entry lies between the lowest and highest mpg of that key's records |
| Grouping.AveragesRecoverTotal | autompg.py:120-137 | the sum over the keys of average times group size gives back the total mpg of all records, in any key order |
| Grouping.YearAverageExample | autompg.py:120-128 | two 1970 records with 18.0 and 22.0 mpg give a year table of exactly {1970: 20.0} |
| Store.AutoMpgData.constructor | autompg.py:52-55 | a new container has no records and empty averages tables |
| Store.AutoMpgData.LoadData | autompg.py:81-104 | loading appends the parsed records in row order, stops at the first bad row with its index and error, and leaves the averages tables unchanged |
| Store.AutoMpgData.SortByDefault | autompg.py:107-109 | the records are re-ordered by the natural order: a permutation with no record before a smaller one; the tables are unchanged |
| Store.AutoMpgData.SortByYear | autompg.py:112-114 | the records are re-ordered by year: a permutation in non-decreasing year order, with same-year records in their old order; the tables are unchanged |
| Store.AutoMpgData.SortByMpg | autompg.py:116-118 | the records are re-ordered by mpg: a permutation in non-decreasing mpg order, with same-mpg records in their old order; the tables are unchanged |
| Store.AutoMpgData.MpgByYear | autompg.py:120-128 | the year table becomes the mean mpg per year of the current records; the records and the make table are unchanged |
| Store.AutoMpgData.MpgByMake | autompg.py:130-138 | the make table becomes the mean mpg per make of the current records; the records and the year table are unchanged |

## Left out

- Downloading the data set over HTTP and writing the cache file (`_get_data`) are network and file I/O. The `FileNotFoundError` retry goes with them.
- Opening and writing files is left out. `CleanLines` takes the file's lines as a sequence and returns the cleaned lines.
- The `csv.reader` tokeniser (space delimiter, `skipinitialspace`, quoting) is not modelled. `LoadData` and `ParseRows` take rows that are already split into fields.
- Numbers: mpg values are exact decimal numbers (`real`), not IEEE doubles, so float rounding is not modelled.
  - `float()` forms with exponents, `inf`, `nan` or non-ASCII digits are not accepted by the model.
  - `int()` is likewise limited to ASCII digits.
- Numbers.ParseInt and Numbers.ParseDecimal carry no contract of their own. Their meaning is given by `ParseIntShowInt`, `ParseDecimalShowInt`, `UnsignedDecimal`, `SeparatorPaddingRejected` and `WhitespacePaddingAccepted`, not by a full characterisation of Python's number grammar.
- Numbers.ParseIntShowInt: holds for every integer, while CPython 3.11 and later make `int()` reject decimal texts longer than 4300 digits. That limit is not modelled, since no year field comes near it.
- Store.AutoMpgData.SortByDefault, Store.AutoMpgData.SortByYear, Store.AutoMpgData.SortByMpg: `data` is a sequence value, so aliasing is not captured. `sort_by_default` sorts the existing list in place, and any other holder of that list sees the new order. `sort_by_year` and `sort_by_mpg` bind `data` to a new list. In the model, all three just give `data` its new value.
- The `NotImplemented` result of `__eq__` and `__lt__` for other types is outside the model. Records are a single type here.
- `__hash__`, `__repr__`, `__str__` and `__iter__` are not modelled, nor are logging, `main`, argument parsing, output files and plotting.
- Python dicts remember insertion order; the model's maps are unordered. `AveragesRecoverTotal` holds for every key order.
- `defaultdict(float)` returns 0.0 for a missing key. The model's tables simply have no entry for such a key.
- Store.AutoMpgData.constructor: in the source, `__init__` also loads the data. Here construction and `LoadData` are separate steps.
  - When a row fails, Python raises and no object exists. The model returns the failing row's index and error, and keeps the records appended before it.
- Parsing.NormalizeMake: the correction of `toyouta` is `toyata`, exactly as the source has it, not `toyota`.
