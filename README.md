# qacct2csv: a Dafny model of `transpose_qacct`

`transpose_qacct` reads the text of a qacct job-accounting log. It returns
a table with one row per job number and one column per field name.

- **Entries.** The log is cut into entries at each leftmost occurrence of
  62 `=`, scanning from the left. The cut is on the substring, not on
  lines: a run of 63 `=` leaves its last `=` in the next entry. Blank
  entries are skipped.
- **Lines.** Each entry is cut into lines. Blank lines are skipped.
- **Fields.** Every other line is stripped and each `,` becomes `;`. The
  line is then split at its first whitespace run into a field name and a
  value. A line with a single token raises `IndexError`.
- **Records.** The fields of one entry fill a fresh dict, and a repeated
  name keeps its last value.
- **Table.** Each dict is filed in an ordered table under its `jobnumber`.
  A missing `jobnumber` raises `KeyError`. A repeated job number keeps
  its row position and takes the later record.
- **Grid.** The table becomes a grid. Its columns are the union of all
  field names, and a cell is empty where a record lacks the field.
- **Datetime columns.** Every cell of `qsub_time`, `start_time` and
  `end_time` gets a leading `'`. A missing column raises `KeyError`.

The project has four modules:

- `PyStr` (`pystr.dfy`) holds the Python `str` operations the code relies
  on: `isspace`, `strip`, `split(sep)`, `split(maxsplit=1)`, `join` and
  one-character `replace`.
- `OrderedDicts` (`ordered_dicts.dfy`) models Python's insertion-ordered
  dict as a value. It has a key order and a map, and `Put` has Python's
  rule that an existing key keeps its place.
- `Qacct2Csv` (`qacct2csv.dfy`) holds the operation itself.
  - Specification functions describe what each stage yields or raises:
    `ParseLine`, `Fields`/`RecordOf`, `AddEntries`/`TableOf`,
    `FromTable`, `Quoted`/`QuoteDates` and `TransposeSpec`.
  - Imperative methods mirror the code's loops: `ReadRecord` is the inner
    loop, `CollectTable` the outer loop, `QuoteColumn` one column
    reassignment, and `Transpose` the whole function.
  - Each method is proved equal to its specification function.
  - The exceptions are the `Error` cases: `MalformedLine` is the
    `IndexError`, and `MissingJobNumber` and `MissingColumn(name)` are
    the two `KeyError`s.
- `Qacct2CsvProps` (`qacct2csv_props.dfy`) holds the lemmas: what a line
  parses into, what a record and the table hold, which inputs fail and
  with which error, and what the final grid holds.

Three consequences of the code are worth stating plainly:

- **Commas.** A `,` in a value is stored as `;`
  (`Qacct2CsvProps.ParseLineSpec`, `Qacct2CsvProps.RecordShape`).
- **Missing datetime column.** A missing `qsub_time`, `start_time` or
  `end_time` column raises `KeyError` (`Qacct2CsvProps.TransposeOutcome`,
  `Qacct2CsvProps.BlankInputFails`). So a log whose records hold only
  `jobnumber` and `qsub_time` fails on `start_time`.
- **Field names.** A field name is any first token: it has no whitespace
  and no `,`, and nothing more is required of it.

## Model

| member | source | states |
|---|---|---|
| PyStr.IsSpace | HPC/qacct2csv.py:22-25 | `str.isspace` on one character: ASCII whitespace is whitespace; `,`, `;`, `=` and `'` are not |
| PyStr.Strip | HPC/qacct2csv.py:24-26 | `str.strip()`: the result is empty exactly when the text is blank; otherwise it neither starts nor ends with whitespace |
| PyStr.StripRemovesBlank | HPC/qacct2csv.py:24-26 | strip keeps one contiguous part of the text, with only whitespace before it and only whitespace after it |
| PyStr.StripUnchanged | HPC/qacct2csv.py:26 | stripping a text without surrounding whitespace changes nothing, so line 26's second strip of name and value is a no-op |
| PyStr.SplitFirst | HPC/qacct2csv.py:25 | `split(maxsplit=1)`: at most two parts, none for blank text; the first is a non-empty token without whitespace, and a second part starts with a non-space |
| PyStr.SplitFirstOne | HPC/qacct2csv.py:25 | a single token without surrounding whitespace is its own only part |
| PyStr.SplitFirstTwo | HPC/qacct2csv.py:25 | a stripped text with inner whitespace splits into the text before its first whitespace run and the text after that run; the run is blank and the three pieces rebuild the text |
| PyStr.SplitFirstCount | HPC/qacct2csv.py:25-26 | a stripped text yields two parts exactly when it contains whitespace (otherwise line 26's `[1]` fails) |
| PyStr.SplitFirstAbsent | HPC/qacct2csv.py:25-26 | a character missing from a stripped text (the `,` after `replace`) is missing from both parts |
| PyStr.SplitFirstShape | HPC/qacct2csv.py:25-26 | for a stripped text with inner whitespace: two parts, a whitespace-free name and a value with non-space ends, separated in the text by one blank run |
| PyStr.Join | HPC/qacct2csv.py:25 | `",".join(parts)` begins with the first part |
| PyStr.Split | HPC/qacct2csv.py:20 | `str.split(sep)` always yields at least one piece (where it cuts: `PyStr.SplitLeftmost`, `PyStr.SplitNoOccurrence`, `PyStr.SplitMaximal`) |
| PyStr.JoinSplit | HPC/qacct2csv.py:20 | joining the pieces of a split with the separator gives the input back |
| PyStr.SplitMaximal | HPC/qacct2csv.py:20 | `str.split(sep)` cuts at every separator: no piece contains the separator |
| PyStr.SplitFromMaximal | HPC/qacct2csv.py:20 | the same, for a split that has already collected a piece in which no separator starts |
| PyStr.SplitLeftmost | HPC/qacct2csv.py:20 | `str.split(sep)` cuts at the leftmost occurrence of the separator: the first piece is the text before it, and the rest is the split of the text after it (this fixes the cuts for a separator that overlaps itself, such as 62 `=`) |
| PyStr.SplitFromLeftmost | HPC/qacct2csv.py:20 | the same, for a split that has already collected part of its first piece |
| PyStr.SplitNoOccurrence | HPC/qacct2csv.py:20 | a text that does not contain the separator is a single piece |
| PyStr.SplitFromNoOccurrence | HPC/qacct2csv.py:20 | the same, for a split that has already collected part of its piece |
| PyStr.SplitJoin | HPC/qacct2csv.py:25-26 | splitting the join of parts on a one-character separator that no part contains gives the parts back |
| PyStr.SplitFromNoSep | HPC/qacct2csv.py:26 | a one-character separator absent from the text leaves it in one piece |
| PyStr.SplitFromFirstSep | HPC/qacct2csv.py:26 | the first occurrence of a one-character separator closes the first piece |
| PyStr.SplitBlank | HPC/qacct2csv.py:20-22 | every piece of a split of blank text is blank |
| PyStr.Replace | HPC/qacct2csv.py:25 | `replace(",", ";")`: same length; every `,` becomes `;` and every other character is kept |
| OrderedDicts.ODict.Put | HPC/qacct2csv.py:27-28 | `d[k] = v`: k is bound to v and every other key keeps its value; the old key order is a prefix of the new one, which grows by one exactly when k is new; validity is kept |
| OrderedDicts.Empty | HPC/qacct2csv.py:17-18 | `dict()`: no keys and no entries |
| OrderedDicts.LastFor | HPC/qacct2csv.py:27 | the value of the last pair with key k: there is such a pair and no later pair has key k |
| OrderedDicts.Dedup | HPC/qacct2csv.py:28 | the key order of repeated puts: no repeats, and the same elements as the input |
| OrderedDicts.DedupDistinct | HPC/qacct2csv.py:28 | removing repeats from a sequence without repeats changes nothing |
| OrderedDicts.DedupPrefix | HPC/qacct2csv.py:28 | more puts never move a key already placed: the result for a prefix is a prefix of the result for the whole |
| OrderedDicts.DedupOrder | HPC/qacct2csv.py:28 | keys stay in the order of their first occurrences |
| OrderedDicts.DedupCard | HPC/qacct2csv.py:28 | one key per distinct input element |
| OrderedDicts.PutAllKeySet | HPC/qacct2csv.py:27 | after a run of puts the dict holds exactly its old keys and the keys put |
| OrderedDicts.PutAllOrder | HPC/qacct2csv.py:27-28 | after a run of puts the key order is the old order followed by the new keys in first-put order |
| OrderedDicts.PutAllValues | HPC/qacct2csv.py:27 | each key put holds the value of its last put; every other key keeps its value |
| OrderedDicts.PutAllValid | HPC/qacct2csv.py:27-28 | a run of puts keeps the key order in step with the map |
| OrderedDicts.PutAllFresh | HPC/qacct2csv.py:27-29 | a dict filled from `dict()`: keys in first-put order, one per distinct key put, nothing else, and each with its last value |
| Qacct2Csv.ParseLine | HPC/qacct2csv.py:25-26 | the only error a line can raise is `MalformedLine` (contents: `Qacct2CsvProps.ParseLineSpec`) |
| Qacct2Csv.Fields | HPC/qacct2csv.py:23-27 | reading an entry's lines into a valid dict yields a valid dict (contents: `Qacct2CsvProps.FieldsPuts`) |
| Qacct2Csv.RecordOf | HPC/qacct2csv.py:23-29 | the record of one entry starts from an empty dict and is valid (contents: `Qacct2CsvProps.RecordContents`) |
| Qacct2Csv.AddEntries | HPC/qacct2csv.py:21-28 | filing entries keeps the table well formed (contents: `Qacct2CsvProps.AddEntriesPuts`) |
| Qacct2Csv.TableOf | HPC/qacct2csv.py:17-29 | the table read from a log is well formed (contents: `Qacct2CsvProps.TableContents`) |
| Qacct2Csv.ColumnsOf | HPC/qacct2csv.py:32 | the grid's columns: no repeats, and a name is a column exactly when some record has that field |
| Qacct2Csv.FromTable | HPC/qacct2csv.py:32 | `from_dict(orient="index")`: one row per job number (listed in table order), the column union, one cell per column in every row, and each cell the row's value or Missing |
| Qacct2Csv.Quote | HPC/qacct2csv.py:35-37 | `"'" + str(cell)`: a value becomes `'` followed by the value; a missing cell stays without a value but is no longer plain Missing |
| Qacct2Csv.Quoted | HPC/qacct2csv.py:35-37 | `g[c] = "'" + g[c].astype(str)`: an absent column is `KeyError`; otherwise only the cells of that column are quoted |
| Qacct2Csv.QuoteDates | HPC/qacct2csv.py:35-37 | succeeds exactly when all three datetime columns exist, keeping a shaped grid with the same row labels and columns; otherwise the error is the `KeyError` of one of them (which one, and the cells: `Qacct2CsvProps.QuoteDatesOutcome`) |
| Qacct2Csv.QuoteColumn | HPC/qacct2csv.py:35-37 | the in-place column reassignment, looping over rows, yields exactly `Quoted` |
| Qacct2Csv.ReadRecord | HPC/qacct2csv.py:23-27 | the inner loop, filling a fresh dict line by line, yields exactly `RecordOf(entry)`, including the `IndexError` case |
| Qacct2Csv.CollectTable | HPC/qacct2csv.py:17-29 | the outer loop yields exactly `TableOf(input)`, including both error cases |
| Qacct2Csv.TransposeSpec | HPC/qacct2csv.py:7-39 | a returned grid is shaped, has no job number twice and has the three datetime columns (contents: `Qacct2CsvProps.TransposeOutcome`) |
| Qacct2Csv.Transpose | HPC/qacct2csv.py:7-39 | the whole function yields exactly `TransposeSpec(input)` |
| Qacct2CsvProps.Cleaned | HPC/qacct2csv.py:25 | the stripped line with `,` replaced has no `,` and no whitespace at either end |
| Qacct2CsvProps.RejoinParts | HPC/qacct2csv.py:25-26 | joining the `split(maxsplit=1)` parts with `,` and splitting on `,` again gives the parts back (or one empty piece for empty text), and both parts are already stripped |
| Qacct2CsvProps.ParseLineParts | HPC/qacct2csv.py:25-26 | a line parses into the two `split(maxsplit=1)` parts of its cleaned text, or fails with `MalformedLine` when there are fewer |
| Qacct2CsvProps.ParseLineSpec | HPC/qacct2csv.py:25-26 | a line parses iff its cleaned text contains whitespace, and otherwise fails with `MalformedLine`; the name is a whitespace-free token; the value has no `,` and non-space ends; cleaned text = name + one blank run + value |
| Qacct2CsvProps.OneTokenLine | HPC/qacct2csv.py:25-26 | a line whose stripped text is a single token fails with `MalformedLine` |
| Qacct2CsvProps.FieldsPuts | HPC/qacct2csv.py:23-27 | reading lines fails with `MalformedLine` iff some non-blank line does not parse; otherwise it puts the pairs of the non-blank lines into the dict, in order |
| Qacct2CsvProps.BlankLineIgnored | HPC/qacct2csv.py:24 | inserting a blank line anywhere into an entry changes nothing |
| Qacct2CsvProps.RecordContents | HPC/qacct2csv.py:27-29 | a record holds exactly the names of its own entry's lines, in first-appearance order, each with the value of its last line |
| Qacct2CsvProps.LinePairsClean | HPC/qacct2csv.py:25-26 | the pair a line parses into has a name without whitespace or `,` and a value without `,` |
| Qacct2CsvProps.PairsShape | HPC/qacct2csv.py:23-26 | every pair read from an entry's lines is clean in that sense |
| Qacct2CsvProps.PutAllClean | HPC/qacct2csv.py:27 | a dict filled from `dict()` with clean pairs holds only clean entries |
| Qacct2CsvProps.RecordShape | HPC/qacct2csv.py:25-27 | no stored name has whitespace or `,`, and no stored value has `,` |
| Qacct2CsvProps.AllEntriesOkCons | HPC/qacct2csv.py:21-28 | all entries are fine exactly when the first one is and all the rest are |
| Qacct2CsvProps.AddEntriesPuts | HPC/qacct2csv.py:21-28 | filing succeeds iff every entry is blank or reads into a record with a `jobnumber`, and then puts the (job number, record) pairs into the table in order |
| Qacct2CsvProps.AddEntriesHeadError | HPC/qacct2csv.py:22-28 | a bad first entry raises its own error at once |
| Qacct2CsvProps.AddEntriesError | HPC/qacct2csv.py:21-28 | when filing fails, the error is that of the first bad entry (earlier entries are all fine) |
| Qacct2CsvProps.BlankEntryIgnored | HPC/qacct2csv.py:22 | inserting a blank entry anywhere changes nothing |
| Qacct2CsvProps.RowsKeyed | HPC/qacct2csv.py:28 | every row pair is filed under its own record's `jobnumber` value |
| Qacct2CsvProps.TableOfRows | HPC/qacct2csv.py:28 | a table filled from `dict()` with such pairs: job numbers in first-appearance order, one per distinct job number, each with the last record filed and its own `jobnumber` |
| Qacct2CsvProps.TableContents | HPC/qacct2csv.py:28 | the table of a log: one row per distinct job number of its entries, in first-appearance order; each row is the last record with that job number and carries it as its `jobnumber` |
| Qacct2CsvProps.AddEntriesSnoc | HPC/qacct2csv.py:21-28 | filing one more entry is filing it into the table the earlier entries left |
| Qacct2CsvProps.DuplicateJobReplaces | HPC/qacct2csv.py:28 | a later entry with a job number already present replaces that row's record in place; the key order and every other row are unchanged |
| Qacct2CsvProps.BadEntryFails | HPC/qacct2csv.py:21-28 | any bad entry makes the whole call fail, and with its own error when every earlier entry is fine |
| Qacct2CsvProps.MissingJobNumberFails | HPC/qacct2csv.py:28 | a non-blank entry without `jobnumber` makes the call fail, with `MissingJobNumber` unless an earlier entry failed first |
| Qacct2CsvProps.OneTokenEntry | HPC/qacct2csv.py:23-26 | an entry with a one-token line is bad and raises `MalformedLine` |
| Qacct2CsvProps.OneTokenLineFails | HPC/qacct2csv.py:25-26 | a one-token line anywhere makes the call fail, with `MalformedLine` unless an earlier entry failed first |
| Qacct2CsvProps.QuoteDatesOutcome | HPC/qacct2csv.py:35-37 | the first missing of `qsub_time`, `start_time`, `end_time` is the `KeyError`; otherwise exactly the cells of those three columns are quoted once, and everything else is kept |
| Qacct2CsvProps.GridOutcome | HPC/qacct2csv.py:32-37 | the quoted grid of a table is the expected grid of the table |
| Qacct2CsvProps.TransposeOutcome | HPC/qacct2csv.py:7-39 | a failed read is passed on; otherwise the result is the `KeyError` of the first missing datetime column, or a grid with one row per job number, the column union, every cell the row's value or Missing, and `'` in front of every datetime cell |
| Qacct2CsvProps.BlankEntries | HPC/qacct2csv.py:22 | entries that are all blank leave the table unchanged |
| Qacct2CsvProps.LongSeparatorRun | HPC/qacct2csv.py:20 | entries are cut at the 62-`=` substring, not at lines: 63 `=` then `y` splits into an empty entry and `=y` |
| Qacct2CsvProps.BlankInputFails | HPC/qacct2csv.py:20-35 | a blank log, the empty one included, fails with the `KeyError` for `qsub_time` |

## Left out

- `run` (lines 41-71), with its file and stdin reading, file and stdout
  writing and `sys.exit`, is I/O. The model takes the input text as a
  parameter and returns the grid or the error.
- The argparse command line and the stdin tty check (lines 73-91) are user
  interface, not logic.
- `to_csv` (lines 66, 71) is left out: CSV quoting and escaping and the
  `ID` index header belong to pandas, which is not part of this model.
- Qacct2Csv.ColumnsOf: the columns are in first-seen order (records in
  table order, fields in record order). Pandas' own column order for
  `from_dict` is not modelled; only the column set and the one cell per
  column are claimed.
- Qacct2Csv.Quote: a missing cell becomes `QuotedMissing`. The text pandas
  gives it, `'nan` from `astype(str)`, is not modelled.
- Qacct2Csv.ReadRecord: the per-entry dict is a value. The code stores a
  reference to it in the big dict and then binds a fresh dict, never
  mutating the stored one. So no aliasing is lost, but the model does not
  show the reference itself.
- Qacct2Csv.FromTable: rows are listed in table order. Pandas' own row
  order when records have different fields is not modelled, and neither is
  the internal layout of a DataFrame; the grid is built as a value in one
  step.
