/** `transpose_qacct`: turns the text of a qacct job-accounting log into a
    grid with one row per job number and one column per field name.

    The input is cut into entries at each leftmost occurrence of a run of
    62 `=` (wherever it stands, inside a line or a longer run too); each
    non-blank entry is read line by line into a record (field name to
    value); each record is filed in a table under its `jobnumber`; the table
    becomes a grid whose columns are all field names; and the three
    datetime columns get a leading `'` on every cell. */
module Qacct2Csv {
  import opened PyStr
  import opened OrderedDicts

  /** The exceptions transpose_qacct can raise. */
  datatype Error =
    | MalformedLine              // IndexError: a line with a single token
    | MissingJobNumber           // KeyError: an entry without a jobnumber line
    | MissingColumn(name: string) // KeyError: no record has this datetime field

  datatype Result<T> = Ok(value: T) | Err(error: Error)

  /** The text that separates two entries of the log: 62 `=`, matched as
      a substring, not as a whole line. */
  const Separator: string := "=============================================================="

  const JobNumber: string := "jobnumber"
  const QsubTime: string := "qsub_time"
  const StartTime: string := "start_time"
  const EndTime: string := "end_time"

  /** One job's fields, in the order their names first appear. */
  type Record = ODict<string>

  /** Records filed under their job numbers, in order of first appearance. */
  type Table = ODict<Record>

  // ---------------------------------------------------------------------
  // Reading one line

  /** A field line: stripped, every `,` made a `;`, split on its first
      whitespace run into name and value, joined with `,` and split on `,`
      again; a line with a single token has no second part. */
  function ParseLine(line: string): (r: Result<(string, string)>)
    ensures r.Err? ==> r.error == MalformedLine
  {
    var formatted := Join(SplitFirst(Replace(Strip(line), ',', ';')), ",");
    var fields := Split(formatted, ",");
    if |fields| < 2 then Err(MalformedLine)
    else Ok((Strip(fields[0]), Strip(fields[1])))
  }

  // ---------------------------------------------------------------------
  // Reading the log into a table (the specification of Transpose's loops)

  /** The lines of one entry, from the first one left, read into the record
      acc: blank lines are skipped, every other line is parsed and its
      value stored under its name (a repeated name keeps its last value). */
  function Fields(lines: seq<string>, acc: Record): (r: Result<Record>)
    ensures acc.Valid() && r.Ok? ==> r.value.Valid()
  {
    if lines == [] then Ok(acc)
    else if Strip(lines[0]) == [] then Fields(lines[1..], acc)
    else match ParseLine(lines[0])
      case Err(e) => Err(e)
      case Ok(kv) => Fields(lines[1..], acc.Put(kv.0, kv.1))
  }

  /** The record read from one entry, starting from an empty dict. */
  function RecordOf(entry: string): (r: Result<Record>)
    ensures r.Ok? ==> r.value.Valid()
  {
    Fields(Split(entry, "\n"), Empty())
  }

  /** A table whose key order, and every record's key order, are in step
      with their mappings. */
  ghost predicate WellFormed(t: Table)
  {
    t.Valid() && forall k :: k in t.vals ==> t.vals[k].Valid()
  }

  /** The entries, from the first one left, filed into table: blank entries
      are skipped; every other entry is read into a record, which must
      have a jobnumber, and stored under it (a repeated job number keeps its
      row and takes the later record). */
  function AddEntries(entries: seq<string>, table: Table): (r: Result<Table>)
    ensures WellFormed(table) && r.Ok? ==> WellFormed(r.value)
  {
    if entries == [] then Ok(table)
    else if Strip(entries[0]) == [] then AddEntries(entries[1..], table)
    else match RecordOf(entries[0])
      case Err(e) => Err(e)
      case Ok(rec) =>
        if JobNumber in rec.vals then AddEntries(entries[1..], table.Put(rec.vals[JobNumber], rec))
        else Err(MissingJobNumber)
  }

  /** The table read from the whole log. */
  function TableOf(input: string): (r: Result<Table>)
    ensures r.Ok? ==> WellFormed(r.value)
  {
    AddEntries(Split(input, Separator), Empty())
  }

  // ---------------------------------------------------------------------
  // The grid

  /** A cell of the grid: a field's value, or no value because the row's
      record lacks the field; QuotedMissing is a missing cell after the
      datetime prefix was put in front of its text. */
  datatype Cell = Present(text: string) | Missing | QuotedMissing

  /** `"'" + str(cell)`: a value gets a leading `'`; a missing cell stays
      without a value but is no longer plain Missing. */
  function Quote(c: Cell): (r: Cell)
    ensures r.Present? <==> c.Present?
    ensures r != Missing
    ensures c.Present? ==> |r.text| == |c.text| + 1 && r.text[0] == '\'' && r.text[1..] == c.text
  {
    match c
    case Present(s) => Present("'" + s)
    case _ => QuotedMissing
  }

  /** Row labels (job numbers), column labels (field names) and one row of
      cells per label. */
  datatype Grid = Grid(index: seq<string>, columns: seq<string>, rows: seq<seq<Cell>>)
  {
    /** One row per label, one cell per column, no column twice. */
    ghost predicate Shaped()
    {
      && |rows| == |index|
      && Distinct(columns)
      && forall i :: 0 <= i < |rows| ==> |rows[i]| == |columns|
    }
  }

  /** The records of a table, in table order. */
  function RecordsOf(t: Table): (recs: seq<Record>)
    requires t.Valid()
    ensures |recs| == |t.keys| && forall i :: 0 <= i < |recs| ==> recs[i] == t.vals[t.keys[i]]
  {
    seq(|t.keys|, i requires 0 <= i < |t.keys| && t.keys[i] in t.vals => t.vals[t.keys[i]])
  }

  /** The key orders of the records, one after the other. */
  function KeyStream(recs: seq<Record>): seq<string>
  {
    if recs == [] then [] else recs[0].keys + KeyStream(recs[1..])
  }

  lemma {:induction false} KeyStreamKeys(recs: seq<Record>)
    requires forall i :: 0 <= i < |recs| ==> recs[i].Valid()
    ensures forall c :: c in KeyStream(recs) <==> exists i :: 0 <= i < |recs| && c in recs[i].vals
  {
    if recs != [] {
      KeyStreamKeys(recs[1..]);
      assert KeyStream(recs) == recs[0].keys + KeyStream(recs[1..]);
      forall c | c in KeyStream(recs) ensures exists i :: 0 <= i < |recs| && c in recs[i].vals {
        if c !in recs[0].keys {
          assert c in KeyStream(recs[1..]);
          var i :| 0 <= i < |recs| - 1 && c in recs[1..][i].vals;
          assert c in recs[i + 1].vals;
        }
      }
      forall c, i | 0 <= i < |recs| && c in recs[i].vals ensures c in KeyStream(recs) {
        if i > 0 {
          assert c in recs[1..][i - 1].vals;
        }
      }
    }
  }

  /** The grid's columns: every field name of every record, each once, in
      the order first met (records in table order, fields in record
      order). */
  function ColumnsOf(t: Table): (cols: seq<string>)
    requires WellFormed(t)
    ensures Distinct(cols)
    ensures forall c :: c in cols <==> exists k :: k in t.vals && c in t.vals[k].vals
  {
    var recs := RecordsOf(t);
    KeyStreamKeys(recs);
    forall c, k | k in t.vals && c in t.vals[k].vals ensures exists i :: 0 <= i < |recs| && c in recs[i].vals {
      var i := IndexOf(t.keys, k);
      assert c in recs[i].vals;
    }
    Dedup(KeyStream(recs))
  }

  /** The cell of a record under column c. */
  function CellOf(rec: Record, c: string): Cell
  {
    if c in rec.vals then Present(rec.vals[c]) else Missing
  }

  /** The table as a grid, as `DataFrame.from_dict(table, orient="index")`
      builds it: one row per job number, the union of all field names as
      columns, and in each cell the row's value for the column or Missing.
      The model lists the rows in table order. */
  function FromTable(t: Table): (g: Grid)
    requires WellFormed(t)
    ensures g.Shaped() && g.index == t.keys && g.columns == ColumnsOf(t)
    ensures forall i, j :: 0 <= i < |g.rows| && 0 <= j < |g.columns| ==>
              g.rows[i][j] == CellOf(t.vals[t.keys[i]], g.columns[j])
  {
    var cols := ColumnsOf(t);
    var recs := RecordsOf(t);
    Grid(t.keys, cols,
         seq(|recs|, i requires 0 <= i < |recs| =>
           seq(|cols|, j requires 0 <= j < |cols| => CellOf(recs[i], cols[j]))))
  }

  /** `g[name] = "'" + g[name].astype(str)`: every cell of column name
      quoted, every other cell kept; an absent column is a KeyError. */
  function Quoted(g: Grid, name: string): (r: Result<Grid>)
    requires g.Shaped()
    ensures name !in g.columns ==> r == Err(MissingColumn(name))
    ensures name in g.columns ==>
              && r.Ok? && r.value.Shaped()
              && r.value.index == g.index && r.value.columns == g.columns
              && forall i, j :: 0 <= i < |g.rows| && 0 <= j < |g.columns| ==>
                   r.value.rows[i][j] == if g.columns[j] == name then Quote(g.rows[i][j]) else g.rows[i][j]
  {
    if name !in g.columns then Err(MissingColumn(name))
    else
      var j := IndexOf(g.columns, name);
      Ok(g.(rows := seq(|g.rows|, i requires 0 <= i < |g.rows| && j < |g.rows[i]| =>
                      g.rows[i][j := Quote(g.rows[i][j])])))
  }

  /** Lines 35-37: the qsub_time, start_time and end_time columns quoted,
      in that order; the first of them that is absent is the KeyError. */
  function QuoteDates(g: Grid): (r: Result<Grid>)
    requires g.Shaped()
    ensures r.Ok? <==> QsubTime in g.columns && StartTime in g.columns && EndTime in g.columns
    ensures r.Ok? ==> r.value.Shaped() && r.value.index == g.index && r.value.columns == g.columns
    ensures r.Err? ==> r.error in {MissingColumn(QsubTime), MissingColumn(StartTime), MissingColumn(EndTime)}
  {
    match Quoted(g, QsubTime)
    case Err(e) => Err(e)
    case Ok(g1) =>
      match Quoted(g1, StartTime)
      case Err(e) => Err(e)
      case Ok(g2) => Quoted(g2, EndTime)
  }

  /** What transpose_qacct returns for input, or the exception it raises. */
  function TransposeSpec(input: string): (r: Result<Grid>)
    ensures r.Ok? ==> r.value.Shaped() && Distinct(r.value.index)
    ensures r.Ok? ==> QsubTime in r.value.columns && StartTime in r.value.columns && EndTime in r.value.columns
  {
    match TableOf(input)
    case Err(e) => Err(e)
    case Ok(t) => QuoteDates(FromTable(t))
  }

  // ---------------------------------------------------------------------
  // The operation

  /** Quotes one column in place, row by row. */
  method QuoteColumn(g: Grid, name: string) returns (r: Result<Grid>)
    requires g.Shaped()
    ensures r == Quoted(g, name)
  {
    if name !in g.columns {
      return Err(MissingColumn(name));
    }
    var j := IndexOf(g.columns, name);
    var rows := g.rows;
    var i := 0;
    while i < |rows|
      invariant 0 <= i <= |rows| == |g.rows|
      invariant forall k :: 0 <= k < i ==> rows[k] == g.rows[k][j := Quote(g.rows[k][j])]
      invariant forall k :: i <= k < |rows| ==> rows[k] == g.rows[k]
    {
      rows := rows[i := rows[i][j := Quote(rows[i][j])]];
      i := i + 1;
    }
    assert rows == seq(|g.rows|, i requires 0 <= i < |g.rows| && j < |g.rows[i]| =>
                         g.rows[i][j := Quote(g.rows[i][j])]);
    r := Ok(g.(rows := rows));
  }

  /** Lines 23-27 of transpose_qacct: the inner loop, which fills a fresh
      per-entry dict line by line. */
  method ReadRecord(entry: string) returns (r: Result<Record>)
    ensures r == RecordOf(entry)
  {
    var small: Record := Empty();
    var lines := Split(entry, "\n");
    var j := 0;
    while j < |lines|
      invariant 0 <= j <= |lines|
      invariant small.Valid()
      invariant Fields(lines[j..], small) == RecordOf(entry)
    {
      var line := lines[j];
      assert lines[j..][0] == line && lines[j..][1..] == lines[j + 1..];
      if Strip(line) != [] {
        var parsed := ParseLine(line);
        if parsed.Err? {
          return Err(parsed.error);
        }
        small := small.Put(parsed.value.0, parsed.value.1);
      }
      j := j + 1;
    }
    assert lines[j..] == [];
    return Ok(small);
  }

  /** Lines 17-29 of transpose_qacct: the outer loop, which files the record
      of every non-blank entry under its jobnumber. */
  method CollectTable(input: string) returns (r: Result<Table>)
    ensures r == TableOf(input)
  {
    var big: Table := Empty();
    var entries := Split(input, Separator);
    var i := 0;
    while i < |entries|
      invariant 0 <= i <= |entries|
      invariant AddEntries(entries[i..], big) == TableOf(input)
    {
      var entry := entries[i];
      assert entries[i..][0] == entry && entries[i..][1..] == entries[i + 1..];
      if Strip(entry) != [] {
        var small := ReadRecord(entry);
        if small.Err? {
          return Err(small.error);
        }
        if JobNumber !in small.value.vals {
          return Err(MissingJobNumber);
        }
        big := big.Put(small.value.vals[JobNumber], small.value);
      }
      i := i + 1;
    }
    assert entries[i..] == [];
    return Ok(big);
  }

  /** transpose_qacct: the log read into a table, the table turned into a
      grid, the datetime columns quoted one after the other. */
  method Transpose(input: string) returns (r: Result<Grid>)
    ensures r == TransposeSpec(input)
  {
    var table := CollectTable(input);
    if table.Err? {
      return Err(table.error);
    }
    var grid := FromTable(table.value);
    r := QuoteColumn(grid, QsubTime);
    if r.Err? {
      return;
    }
    r := QuoteColumn(r.value, StartTime);
    if r.Err? {
      return;
    }
    r := QuoteColumn(r.value, EndTime);
  }
}
