/** What transpose_qacct guarantees, stated over the model of
    Qacct2Csv: how one line splits into name and value, what a record and
    the table hold, which inputs fail and how, and what the grid looks
    like. */
module Qacct2CsvProps {
  import opened PyStr
  import opened OrderedDicts
  import opened Qacct2Csv

  // ---------------------------------------------------------------------
  // One line

  /** The stripped line with every `,` made a `;`: no `,`, no whitespace
      at either end. */
  lemma Cleaned(line: string)
    ensures var t := Replace(Strip(line), ',', ';');
            ',' !in t && (t == [] || (!IsSpace(t[0]) && !IsSpace(t[|t| - 1])))
  {
  }

  /** Joining the parts of SplitFirst with `,` and splitting on `,` again
      gives them back, for a stripped text without `,`; each part is
      already stripped. */
  lemma RejoinParts(t: string)
    requires ',' !in t && (t == [] || (!IsSpace(t[0]) && !IsSpace(t[|t| - 1])))
    ensures Split(Join(SplitFirst(t), ","), ",") == if t == [] then [[]] else SplitFirst(t)
    ensures |SplitFirst(t)| == 2 ==>
              Strip(SplitFirst(t)[0]) == SplitFirst(t)[0] && Strip(SplitFirst(t)[1]) == SplitFirst(t)[1]
  {
    if t == [] {
      assert SplitFirst(t) == [];
      assert Join(SplitFirst(t), ",") == [];
      var e: string := [];
      assert SplitFrom(e, ",", e) == [e + e];
      assert e + e == e;
    } else if NoSpace(t) {
      RejoinOne(t);
    } else {
      RejoinTwo(t);
    }
  }

  lemma RejoinOne(t: string)
    requires ',' !in t && t != [] && NoSpace(t)
    ensures Split(Join(SplitFirst(t), ","), ",") == [t] == SplitFirst(t)
  {
    SplitFirstOne(t);
    SplitFromNoSep(t, ",", []);
    assert [] + t == t;
  }

  lemma RejoinTwo(t: string)
    requires ',' !in t && t != [] && !IsSpace(t[0]) && !IsSpace(t[|t| - 1]) && !NoSpace(t)
    ensures Split(Join(SplitFirst(t), ","), ",") == SplitFirst(t)
    ensures |SplitFirst(t)| == 2
    ensures Strip(SplitFirst(t)[0]) == SplitFirst(t)[0] && Strip(SplitFirst(t)[1]) == SplitFirst(t)[1]
  {
    SplitFirstShape(t, ',');
    var ps := SplitFirst(t);
    SplitJoin(ps, ",");
    StripUnchanged(ps[0]);
    StripUnchanged(ps[1]);
  }

  /** The round trip through `,` in ParseLine changes nothing: a line
      yields the two parts of `split(maxsplit=1)` of its cleaned text, or
      fails when there are fewer. */
  lemma ParseLineParts(line: string)
    ensures var ps := SplitFirst(Replace(Strip(line), ',', ';'));
            ParseLine(line) == if |ps| < 2 then Err(MalformedLine) else Ok((ps[0], ps[1]))
  {
    var t := Replace(Strip(line), ',', ';');
    assert ',' !in t;
    assert t == [] <==> Strip(line) == [];
    RejoinParts(t);
  }

  /** A line parses exactly when its stripped text holds a whitespace
      character, i.e. has at least two tokens. The name is then the first
      token (no whitespace, no `,`); the value is everything after the
      whitespace run that follows it, up to the end of the stripped line,
      inner whitespace included, with every `,` turned into `;`. */
  lemma ParseLineSpec(line: string)
    ensures var t := Replace(Strip(line), ',', ';');
            ParseLine(line).Ok? <==> !NoSpace(t)
    ensures ParseLine(line).Err? ==> ParseLine(line).error == MalformedLine
    ensures ParseLine(line).Ok? ==>
              var t := Replace(Strip(line), ',', ';');
              var key := ParseLine(line).value.0;
              var value := ParseLine(line).value.1;
              && key != [] && NoSpace(key) && ',' !in key
              && value != [] && !IsSpace(value[0]) && !IsSpace(value[|value| - 1]) && ',' !in value
              && |key| + |value| < |t|
              && t == key + t[|key|..|t| - |value|] + value
              && IsBlank(t[|key|..|t| - |value|])
  {
    Cleaned(line);
    var t := Replace(Strip(line), ',', ';');
    ParseLineParts(line);
    SplitFirstCount(t);
    if !NoSpace(t) {
      SplitFirstShape(t, ',');
    }
  }

  // ---------------------------------------------------------------------
  // One entry

  /** Every non-blank line of lines parses. */
  ghost predicate AllParse(lines: seq<string>)
  {
    forall i :: 0 <= i < |lines| ==> LineOk(lines[i])
  }

  /** A line that is blank or parses. */
  ghost predicate LineOk(line: string)
  {
    IsBlank(line) || ParseLine(line).Ok?
  }

  /** The (name, value) pair a line contributes: none for a blank line or
      one that does not parse. */
  ghost function LinePairs(line: string): seq<(string, string)>
  {
    if IsBlank(line) || ParseLine(line).Err? then [] else [ParseLine(line).value]
  }

  /** The (name, value) pairs of the non-blank lines that parse, in order. */
  ghost function Pairs(lines: seq<string>): seq<(string, string)>
  {
    if lines == [] then [] else LinePairs(lines[0]) + Pairs(lines[1..])
  }

  /** Reading lines into acc fails, with MalformedLine, exactly when some
      non-blank line does not parse; otherwise it puts the pairs of the
      non-blank lines into acc one after the other. */
  lemma {:induction false} FieldsPuts(lines: seq<string>, acc: Record)
    ensures Fields(lines, acc) ==
              if AllParse(lines) then Ok(PutAll(acc, Pairs(lines))) else Err(MalformedLine)
    decreases |lines|
  {
    if lines != [] {
      var rest := lines[1..];
      AllParseCons(lines);
      var line := lines[0];
      if IsBlank(line) {
        FieldsPuts(rest, acc);
        assert Pairs(lines) == Pairs(rest);
        assert Fields(lines, acc) == Fields(rest, acc);
        assert AllParse(lines) == AllParse(rest);
      } else if ParseLine(line).Ok? {
        var kv := ParseLine(line).value;
        FieldsPuts(rest, acc.Put(kv.0, kv.1));
        assert Pairs(lines) == [kv] + Pairs(rest);
        PutAllCons(acc, kv, Pairs(rest));
        assert Fields(lines, acc) == Fields(rest, acc.Put(kv.0, kv.1));
        assert AllParse(lines) == AllParse(rest);
      } else {
        assert ParseLine(line) == Err(MalformedLine);
        assert Fields(lines, acc) == Err(MalformedLine);
        assert !AllParse(lines);
      }
    }
  }

  lemma AllParseCons(lines: seq<string>)
    requires lines != []
    ensures AllParse(lines) <==> (IsBlank(lines[0]) || ParseLine(lines[0]).Ok?) && AllParse(lines[1..])
  {
    ShiftAll(lines, LineOk);
  }

  /** A property holds of every element of s exactly when it holds of the
      first and of every later one. */
  lemma ShiftAll(s: seq<string>, P: string -> bool)
    requires s != []
    ensures (forall i :: 0 <= i < |s| ==> P(s[i])) <==> P(s[0]) && forall i :: 0 <= i < |s| - 1 ==> P(s[1..][i])
  {
    if P(s[0]) && forall i :: 0 <= i < |s| - 1 ==> P(s[1..][i]) {
      forall i | 0 <= i < |s| ensures P(s[i]) {
        if i > 0 { assert s[i] == s[1..][i - 1]; }
      }
    }
  }

  /** Inserting a blank line anywhere into an entry changes nothing. */
  lemma {:induction false} BlankLineIgnored(a: seq<string>, line: string, b: seq<string>, acc: Record)
    requires IsBlank(line)
    ensures Fields(a + [line] + b, acc) == Fields(a + b, acc)
    decreases |a|
  {
    if a == [] {
      assert a + [line] + b == [line] + b && a + b == b;
      assert ([line] + b)[1..] == b;
    } else {
      assert (a + [line] + b)[0] == a[0] == (a + b)[0];
      assert (a + [line] + b)[1..] == a[1..] + [line] + b;
      assert (a + b)[1..] == a[1..] + b;
      if Strip(a[0]) == [] {
        BlankLineIgnored(a[1..], line, b, acc);
      } else if ParseLine(a[0]).Ok? {
        var kv := ParseLine(a[0]).value;
        BlankLineIgnored(a[1..], line, b, acc.Put(kv.0, kv.1));
      }
    }
  }

  /** A record read from an entry holds exactly the names of the entry's
      non-blank lines, in the order they first appear, each with the value
      of its last line; nothing else (the dict starts empty for every
      entry). */
  lemma RecordContents(entry: string)
    requires RecordOf(entry).Ok?
    ensures var ps := Pairs(Split(entry, "\n"));
            var rec := RecordOf(entry).value;
            && AllParse(Split(entry, "\n"))
            && rec.keys == Dedup(Firsts(ps))
            && (forall k :: k in rec.vals <==> k in Firsts(ps))
            && (forall k :: k in rec.vals ==> rec.vals[k] == LastFor(ps, k))
  {
    var lines := Split(entry, "\n");
    var ps := Pairs(lines);
    FieldsPuts(lines, Empty());
    PutAllOrder(Empty(), ps);
    PutAllKeySet(Empty(), ps);
    PutAllValues(Empty(), ps);
    assert Empty<string>().keys + Firsts(ps) == Firsts(ps);
  }

  /** A name without whitespace or `,`, and a value without `,`. */
  predicate CleanPair(kv: (string, string))
  {
    NoSpace(kv.0) && ',' !in kv.0 && ',' !in kv.1
  }

  /** Every pair of ps is clean. */
  predicate AllClean(ps: seq<(string, string)>)
  {
    forall i :: 0 <= i < |ps| ==> CleanPair(ps[i])
  }

  lemma CleanConcat(a: seq<(string, string)>, b: seq<(string, string)>)
    requires AllClean(a) && AllClean(b)
    ensures AllClean(a + b)
  {
    forall i | 0 <= i < |a + b| ensures CleanPair((a + b)[i]) {
      if i >= |a| { assert (a + b)[i] == b[i - |a|]; }
    }
  }

  /** The pair a line parses into is clean. */
  lemma LinePairsClean(line: string)
    ensures AllClean(LinePairs(line))
  {
    if !IsBlank(line) && ParseLine(line).Ok? {
      Cleaned(line);
      var t := Replace(Strip(line), ',', ';');
      ParseLineParts(line);
      SplitFirstAbsent(t, ',');
      assert LinePairs(line) == [(SplitFirst(t)[0], SplitFirst(t)[1])];
    }
  }

  /** Every pair read from lines is clean. */
  lemma {:induction false} PairsShape(lines: seq<string>)
    ensures AllClean(Pairs(lines))
    decreases |lines|
  {
    if lines != [] {
      PairsShape(lines[1..]);
      LinePairsClean(lines[0]);
      CleanConcat(LinePairs(lines[0]), Pairs(lines[1..]));
    }
  }

  /** A dict filled from `dict()` with clean pairs only holds clean
      entries. */
  lemma PutAllClean(ps: seq<(string, string)>)
    requires AllClean(ps)
    ensures var d := PutAll(Empty(), ps);
            forall k :: k in d.vals ==> CleanPair((k, d.vals[k]))
  {
    var d := PutAll(Empty(), ps);
    PutAllFresh(ps);
    forall k | k in d.vals ensures CleanPair((k, d.vals[k])) {
      var v := LastFor(ps, k);
      var i :| 0 <= i < |ps| && ps[i] == (k, v) && forall j :: i < j < |ps| ==> ps[j].0 != k;
      assert CleanPair(ps[i]);
    }
  }

  /** No name of a record holds whitespace or `,`, and no value holds
      `,`. */
  lemma RecordShape(entry: string)
    requires RecordOf(entry).Ok?
    ensures var rec := RecordOf(entry).value;
            forall k :: k in rec.vals ==> CleanPair((k, rec.vals[k]))
  {
    var lines := Split(entry, "\n");
    FieldsPuts(lines, Empty());
    PairsShape(lines);
    PutAllClean(Pairs(lines));
  }

  // ---------------------------------------------------------------------
  // The table

  /** An entry that is blank, or reads into a record that has a
      jobnumber. */
  ghost predicate EntryOk(entry: string)
  {
    IsBlank(entry) || (RecordOf(entry).Ok? && JobNumber in RecordOf(entry).value.vals)
  }

  /** Every entry is EntryOk. */
  ghost predicate AllEntriesOk(entries: seq<string>)
  {
    forall i :: 0 <= i < |entries| ==> EntryOk(entries[i])
  }

  /** The (job number, record) pair of every non-blank entry that reads
      into a record with a jobnumber, in order. */
  ghost function Rows(entries: seq<string>): seq<(string, Record)>
  {
    if entries == [] then []
    else if !IsBlank(entries[0]) && EntryOk(entries[0]) then
      var rec := RecordOf(entries[0]).value;
      [(rec.vals[JobNumber], rec)] + Rows(entries[1..])
    else Rows(entries[1..])
  }

  /** The error an entry that is not EntryOk raises. */
  ghost function EntryError(entry: string): Error
  {
    if RecordOf(entry).Err? then MalformedLine else MissingJobNumber
  }

  lemma AllEntriesOkCons(entries: seq<string>)
    requires entries != []
    ensures AllEntriesOk(entries) <==> EntryOk(entries[0]) && AllEntriesOk(entries[1..])
  {
    var rest := entries[1..];
    if AllEntriesOk(entries) {
      forall i | 0 <= i < |rest| ensures EntryOk(rest[i]) {
        assert rest[i] == entries[i + 1];
      }
    } else {
      var i :| 0 <= i < |entries| && !EntryOk(entries[i]);
      if i > 0 { assert rest[i - 1] == entries[i]; }
    }
  }

  /** Filing entries into a table succeeds exactly when every entry is
      EntryOk, and then puts the (job number, record) pairs of the non-blank
      entries into it one after the other. */
  lemma {:induction false} AddEntriesPuts(entries: seq<string>, t: Table)
    ensures AddEntries(entries, t).Ok? <==> AllEntriesOk(entries)
    ensures AddEntries(entries, t).Ok? ==> AddEntries(entries, t).value == PutAll(t, Rows(entries))
    decreases |entries|
  {
    if entries != [] {
      var e := entries[0];
      var rest := entries[1..];
      AllEntriesOkCons(entries);
      if IsBlank(e) {
        AddEntriesPuts(rest, t);
        assert Rows(entries) == Rows(rest);
      } else if EntryOk(e) {
        var rec := RecordOf(e).value;
        var t' := t.Put(rec.vals[JobNumber], rec);
        AddEntriesPuts(rest, t');
        assert AddEntries(entries, t) == AddEntries(rest, t');
        assert Rows(entries) == [(rec.vals[JobNumber], rec)] + Rows(rest);
        assert PutAll(t, Rows(entries)) == PutAll(t', Rows(rest));
      } else {
        assert AddEntries(entries, t).Err?;
      }
    }
  }

  /** A first entry that is not EntryOk raises its error at once. */
  lemma AddEntriesHeadError(entries: seq<string>, t: Table)
    requires entries != [] && !EntryOk(entries[0])
    ensures AddEntries(entries, t) == Err(EntryError(entries[0]))
  {
    var e := entries[0];
    if RecordOf(e).Err? {
      FieldsPuts(Split(e, "\n"), Empty());
    }
  }

  /** A first entry that is EntryOk leaves the rest to be filed into the
      table it produces. */
  lemma AddEntriesHeadOk(entries: seq<string>, t: Table) returns (t': Table)
    requires entries != [] && EntryOk(entries[0])
    ensures AddEntries(entries, t) == AddEntries(entries[1..], t')
  {
    var e := entries[0];
    t' := if IsBlank(e) then t else t.Put(RecordOf(e).value.vals[JobNumber], RecordOf(e).value);
  }

  /** Entry i is the first of entries that is not EntryOk. */
  ghost predicate FirstBad(entries: seq<string>, i: int)
  {
    0 <= i < |entries| && !EntryOk(entries[i]) && forall j :: 0 <= j < i ==> EntryOk(entries[j])
  }

  /** A first entry that is EntryOk moves the first bad entry one place
      on. */
  lemma FirstBadShift(entries: seq<string>, i: int)
    requires entries != [] && EntryOk(entries[0]) && FirstBad(entries[1..], i)
    ensures FirstBad(entries, i + 1) && entries[i + 1] == entries[1..][i]
  {
    ShiftPrefix(entries, EntryOk, i + 1);
  }

  /** A property of the first element and of the first n - 1 later ones is
      a property of the first n elements. */
  lemma ShiftPrefix(s: seq<string>, P: string -> bool, n: nat)
    requires 0 < n <= |s| && P(s[0]) && forall j :: 0 <= j < n - 1 ==> P(s[1..][j])
    ensures forall j :: 0 <= j < n ==> P(s[j])
  {
    forall j | 0 <= j < n ensures P(s[j]) {
      if j > 0 { assert s[j] == s[1..][j - 1]; }
    }
  }

  /** When filing fails, the first entry that is not EntryOk decides the
      error: MalformedLine when one of its lines does not parse,
      MissingJobNumber when its record has no jobnumber. */
  lemma {:induction false} AddEntriesError(entries: seq<string>, t: Table)
    requires AddEntries(entries, t).Err?
    ensures exists i :: FirstBad(entries, i) && AddEntries(entries, t).error == EntryError(entries[i])
    decreases |entries|
  {
    if !EntryOk(entries[0]) {
      AddEntriesHeadError(entries, t);
      assert FirstBad(entries, 0);
    } else {
      var rest := entries[1..];
      var t' := AddEntriesHeadOk(entries, t);
      AddEntriesError(rest, t');
      var i :| FirstBad(rest, i) && AddEntries(rest, t').error == EntryError(rest[i]);
      FirstBadShift(entries, i);
    }
  }

  /** Inserting a blank entry anywhere into the log's entries changes
      nothing. */
  lemma {:induction false} BlankEntryIgnored(a: seq<string>, entry: string, b: seq<string>, t: Table)
    requires IsBlank(entry)
    ensures AddEntries(a + [entry] + b, t) == AddEntries(a + b, t)
    decreases |a|
  {
    if a == [] {
      assert a + [entry] + b == [entry] + b && a + b == b;
      assert ([entry] + b)[1..] == b;
    } else {
      assert (a + [entry] + b)[0] == a[0] == (a + b)[0];
      assert (a + [entry] + b)[1..] == a[1..] + [entry] + b;
      assert (a + b)[1..] == a[1..] + b;
      if Strip(a[0]) == [] {
        BlankEntryIgnored(a[1..], entry, b, t);
      } else if RecordOf(a[0]).Ok? && JobNumber in RecordOf(a[0]).value.vals {
        var rec := RecordOf(a[0]).value;
        BlankEntryIgnored(a[1..], entry, b, t.Put(rec.vals[JobNumber], rec));
      }
    }
  }

  /** Every row pair is filed under its own record's jobnumber value. */
  lemma {:induction false} RowsKeyed(entries: seq<string>)
    ensures forall i :: 0 <= i < |Rows(entries)| ==>
              JobNumber in Rows(entries)[i].1.vals && Rows(entries)[i].1.vals[JobNumber] == Rows(entries)[i].0
    decreases |entries|
  {
    if entries != [] {
      RowsKeyed(entries[1..]);
    }
  }

  /** The table read from a log: one row per distinct job number of its
      non-blank entries, in the order each job number first appears; each
      row holds the record of the last entry with that job number; and
      each row is filed under its own record's jobnumber value. */
  lemma TableContents(input: string)
    requires TableOf(input).Ok?
    ensures var rows := Rows(Split(input, Separator));
            var t := TableOf(input).value;
            && t.keys == Dedup(Firsts(rows))
            && |t.keys| == |set k | k in Firsts(rows)|
            && (forall k :: k in t.vals <==> k in Firsts(rows))
            && (forall k :: k in t.vals ==> t.vals[k] == LastFor(rows, k))
            && (forall k :: k in t.vals ==> JobNumber in t.vals[k].vals && t.vals[k].vals[JobNumber] == k)
  {
    var es := Split(input, Separator);
    AddEntriesPuts(es, Empty());
    RowsKeyed(es);
    TableOfRows(Rows(es));
  }

  /** PutAllFresh, for rows each filed under its record's jobnumber. */
  lemma TableOfRows(rows: seq<(string, Record)>)
    requires forall i :: 0 <= i < |rows| ==> JobNumber in rows[i].1.vals && rows[i].1.vals[JobNumber] == rows[i].0
    ensures var t := PutAll(Empty(), rows);
            && t.keys == Dedup(Firsts(rows))
            && |t.keys| == |set k | k in Firsts(rows)|
            && (forall k :: k in t.vals <==> k in Firsts(rows))
            && (forall k :: k in t.vals ==> t.vals[k] == LastFor(rows, k))
            && (forall k :: k in t.vals ==> JobNumber in t.vals[k].vals && t.vals[k].vals[JobNumber] == k)
  {
    PutAllFresh(rows);
    var t := PutAll(Empty(), rows);
    forall k | k in t.vals ensures JobNumber in t.vals[k].vals && t.vals[k].vals[JobNumber] == k {
      var v := LastFor(rows, k);
      var i :| 0 <= i < |rows| && rows[i] == (k, v) && forall j :: i < j < |rows| ==> rows[j].0 != k;
    }
  }

  /** An entry that is not EntryOk makes the whole call fail; when every
      earlier entry is EntryOk, it is this entry's error that is raised. */
  lemma BadEntryFails(input: string, i: nat)
    requires i < |Split(input, Separator)| && !EntryOk(Split(input, Separator)[i])
    ensures TransposeSpec(input).Err?
    ensures (forall j :: 0 <= j < i ==> EntryOk(Split(input, Separator)[j])) ==>
              TransposeSpec(input) == Err(EntryError(Split(input, Separator)[i]))
  {
    var es := Split(input, Separator);
    AddEntriesPuts(es, Empty());
    TransposeOutcome(input);
    if forall j :: 0 <= j < i ==> EntryOk(es[j]) {
      AddEntriesError(es, Empty());
      var k :| FirstBad(es, k) && TableOf(input).error == EntryError(es[k]);
      assert k == i;
    }
  }

  /** A non-blank entry whose record lacks a jobnumber makes the whole
      call fail, with MissingJobNumber unless an earlier entry already
      failed. */
  lemma MissingJobNumberFails(input: string, i: nat)
    requires i < |Split(input, Separator)|
    requires !IsBlank(Split(input, Separator)[i])
    requires RecordOf(Split(input, Separator)[i]).Ok?
    requires JobNumber !in RecordOf(Split(input, Separator)[i]).value.vals
    ensures TransposeSpec(input).Err?
    ensures (forall j :: 0 <= j < i ==> EntryOk(Split(input, Separator)[j])) ==>
              TransposeSpec(input) == Err(MissingJobNumber)
  {
    BadEntryFails(input, i);
  }

  /** A line with a single token does not parse. */
  lemma OneTokenLine(line: string)
    requires NoSpace(Strip(line))
    ensures ParseLine(line) == Err(MalformedLine)
  {
    Cleaned(line);
    var t := Replace(Strip(line), ',', ';');
    assert NoSpace(t);
    ParseLineParts(line);
    SplitFirstCount(t);
  }

  /** An entry with a non-blank line of a single token is not EntryOk, and
      raises MalformedLine. */
  lemma OneTokenEntry(entry: string, j: nat)
    requires j < |Split(entry, "\n")|
    requires !IsBlank(Split(entry, "\n")[j]) && NoSpace(Strip(Split(entry, "\n")[j]))
    ensures !EntryOk(entry) && EntryError(entry) == MalformedLine
  {
    var lines := Split(entry, "\n");
    OneTokenLine(lines[j]);
    assert !AllParse(lines);
    FieldsPuts(lines, Empty());
    if IsBlank(entry) {
      SplitBlank(entry, "\n", []);
      assert false;
    }
  }

  /** A non-blank line with a single token makes the whole call fail, with
      MalformedLine unless an earlier entry already failed. */
  lemma OneTokenLineFails(input: string, i: nat, j: nat)
    requires i < |Split(input, Separator)|
    requires j < |Split(Split(input, Separator)[i], "\n")|
    requires !IsBlank(Split(Split(input, Separator)[i], "\n")[j])
    requires NoSpace(Strip(Split(Split(input, Separator)[i], "\n")[j]))
    ensures TransposeSpec(input).Err?
    ensures (forall k :: 0 <= k < i ==> EntryOk(Split(input, Separator)[k])) ==>
              TransposeSpec(input) == Err(MalformedLine)
  {
    OneTokenEntry(Split(input, Separator)[i], j);
    BadEntryFails(input, i);
  }

  /** Reading one more entry after a run of entries is reading it into the
      table the run left. */
  lemma {:induction false} AddEntriesSnoc(entries: seq<string>, entry: string, t: Table)
    ensures AddEntries(entries + [entry], t) ==
              match AddEntries(entries, t)
              case Err(e) => Err(e)
              case Ok(t') => AddEntries([entry], t')
    decreases |entries|
  {
    if entries == [] {
      assert entries + [entry] == [entry];
    } else {
      assert (entries + [entry])[0] == entries[0];
      assert (entries + [entry])[1..] == entries[1..] + [entry];
      if Strip(entries[0]) == [] {
        AddEntriesSnoc(entries[1..], entry, t);
      } else if RecordOf(entries[0]).Ok? && JobNumber in RecordOf(entries[0]).value.vals {
        var rec := RecordOf(entries[0]).value;
        AddEntriesSnoc(entries[1..], entry, t.Put(rec.vals[JobNumber], rec));
      }
    }
  }

  /** A later entry with a job number already in the table replaces that
      row's record and keeps its position; every other row is
      unchanged. */
  lemma DuplicateJobReplaces(entries: seq<string>, entry: string, t: Table)
    requires AddEntries(entries, Empty()) == Ok(t)
    requires !IsBlank(entry) && RecordOf(entry).Ok?
    requires JobNumber in RecordOf(entry).value.vals
    requires RecordOf(entry).value.vals[JobNumber] in t.vals
    ensures var rec := RecordOf(entry).value;
            AddEntries(entries + [entry], Empty()) ==
              Ok(ODict(t.keys, t.vals[rec.vals[JobNumber] := rec]))
  {
    AddEntriesSnoc(entries, entry, Empty());
    assert [entry][1..] == [];
  }

  // ---------------------------------------------------------------------
  // The grid

  /** Quoting the three datetime columns of a grid: the first of
      qsub_time, start_time and end_time that the grid lacks is a
      MissingColumn error; otherwise every cell of those three columns is
      quoted once and every other cell is kept. */
  lemma QuoteDatesOutcome(g: Grid)
    requires g.Shaped()
    ensures QsubTime !in g.columns ==> QuoteDates(g) == Err(MissingColumn(QsubTime))
    ensures QsubTime in g.columns && StartTime !in g.columns ==>
              QuoteDates(g) == Err(MissingColumn(StartTime))
    ensures QsubTime in g.columns && StartTime in g.columns && EndTime !in g.columns ==>
              QuoteDates(g) == Err(MissingColumn(EndTime))
    ensures QsubTime in g.columns && StartTime in g.columns && EndTime in g.columns ==>
              var r := QuoteDates(g);
              && r.Ok? && r.value.Shaped()
              && r.value.index == g.index && r.value.columns == g.columns
              && forall i, j :: 0 <= i < |g.rows| && 0 <= j < |g.columns| ==>
                   r.value.rows[i][j] ==
                     if g.columns[j] in {QsubTime, StartTime, EndTime} then Quote(g.rows[i][j]) else g.rows[i][j]
  {
    if QsubTime in g.columns && StartTime in g.columns && EndTime in g.columns {
      var g1 := Quoted(g, QsubTime).value;
      var g2 := Quoted(g1, StartTime).value;
      var g3 := Quoted(g2, EndTime).value;
      forall i, j | 0 <= i < |g.rows| && 0 <= j < |g.columns|
        ensures g3.rows[i][j] ==
                  if g.columns[j] in {QsubTime, StartTime, EndTime} then Quote(g.rows[i][j]) else g.rows[i][j]
      {
        assert g1.rows[i][j] == if g.columns[j] == QsubTime then Quote(g.rows[i][j]) else g.rows[i][j];
        assert g2.rows[i][j] == if g.columns[j] == StartTime then Quote(g1.rows[i][j]) else g1.rows[i][j];
      }
    }
  }

  /** What transpose_qacct yields for a table t: the first of qsub_time,
      start_time and end_time that no record has is a MissingColumn error;
      otherwise the grid has one row per table row in table order, the
      union of all field names as columns, and in every cell the row's
      value for the column (or Missing), with a leading `'` in the three
      datetime columns. */
  ghost predicate Expected(t: Table, r: Result<Grid>)
    requires WellFormed(t)
  {
    ExpectedFor(t, ColumnsOf(t), r)
  }

  /** Expected, for the columns cols of t. */
  ghost predicate ExpectedFor(t: Table, cols: seq<string>, r: Result<Grid>)
    requires t.Valid()
  {
    && (QsubTime !in cols ==> r == Err(MissingColumn(QsubTime)))
    && (QsubTime in cols && StartTime !in cols ==> r == Err(MissingColumn(StartTime)))
    && (QsubTime in cols && StartTime in cols && EndTime !in cols ==> r == Err(MissingColumn(EndTime)))
    && (QsubTime in cols && StartTime in cols && EndTime in cols ==>
          && r.Ok? && r.value.Shaped()
          && r.value.index == t.keys && r.value.columns == cols
          && forall i, j :: 0 <= i < |t.keys| && 0 <= j < |cols| ==>
               r.value.rows[i][j] ==
                 var c := CellOf(t.vals[t.keys[i]], cols[j]);
                 if cols[j] in {QsubTime, StartTime, EndTime} then Quote(c) else c)
  }

  /** The grid built from a table, with its datetime columns quoted, is
      the expected one. */
  lemma GridOutcome(t: Table)
    requires WellFormed(t)
    ensures Expected(t, QuoteDates(FromTable(t)))
  {
    var g := FromTable(t);
    QuoteDatesOutcome(g);
    ExpectedFrom(t, g, ColumnsOf(t), QuoteDates(g));
  }

  /** A result that quotes the datetime columns of a grid of t, as
      QuoteDatesOutcome describes, is the expected one. */
  lemma ExpectedFrom(t: Table, g: Grid, cols: seq<string>, r: Result<Grid>)
    requires t.Valid() && g.Shaped() && g.index == t.keys && g.columns == cols
    requires forall i, j :: 0 <= i < |g.rows| && 0 <= j < |g.columns| ==>
               g.rows[i][j] == CellOf(t.vals[t.keys[i]], g.columns[j])
    requires QsubTime !in g.columns ==> r == Err(MissingColumn(QsubTime))
    requires QsubTime in g.columns && StartTime !in g.columns ==> r == Err(MissingColumn(StartTime))
    requires QsubTime in g.columns && StartTime in g.columns && EndTime !in g.columns ==>
               r == Err(MissingColumn(EndTime))
    requires QsubTime in g.columns && StartTime in g.columns && EndTime in g.columns ==>
               && r.Ok? && r.value.Shaped()
               && r.value.index == g.index && r.value.columns == g.columns
               && forall i, j :: 0 <= i < |g.rows| && 0 <= j < |g.columns| ==>
                    r.value.rows[i][j] ==
                      if g.columns[j] in {QsubTime, StartTime, EndTime} then Quote(g.rows[i][j]) else g.rows[i][j]
    ensures ExpectedFor(t, cols, r)
  {
  }

  /** The outcome of transpose_qacct: a failed read is passed on;
      otherwise the result is the expected one for the table read. */
  lemma TransposeOutcome(input: string)
    ensures TableOf(input).Err? ==> TransposeSpec(input) == Err(TableOf(input).error)
    ensures TableOf(input).Ok? ==> Expected(TableOf(input).value, TransposeSpec(input))
  {
    if TableOf(input).Ok? {
      var t := TableOf(input).value;
      assert TransposeSpec(input) == QuoteDates(FromTable(t));
      GridOutcome(t);
    }
  }

  /** Entries are cut at the leftmost occurrence of the 62 `=`, not at
      lines: a log that starts with a run of 63 `=` has an empty first
      entry, and the last `=` of the run begins the second. */
  lemma LongSeparatorRun()
    ensures Split(Separator + "=y", Separator) == ["", "=y"]
  {
    var s := Separator + "=y";
    assert s[..|Separator|] == Separator;
    SplitLeftmost(s, Separator, 0);
    assert s[|Separator|..] == "=y";
    forall p ensures !SepAt(Separator, "=y", p) { }
    SplitNoOccurrence("=y", Separator);
  }

  /** A blank log (the empty string included) has no entries but blank
      ones, so no qsub_time column, and fails with that KeyError. */
  lemma BlankInputFails(input: string)
    requires IsBlank(input)
    ensures TransposeSpec(input) == Err(MissingColumn(QsubTime))
  {
    var es := Split(input, Separator);
    SplitBlank(input, Separator, []);
    BlankEntries(es, Empty());
    var t: Table := Empty();
    assert TableOf(input) == Ok(t);
    assert ColumnsOf(t) == [];
    TransposeOutcome(input);
  }

  /** Entries that are all blank leave the table as it was. */
  lemma {:induction false} BlankEntries(es: seq<string>, t: Table)
    requires forall i :: 0 <= i < |es| ==> IsBlank(es[i])
    ensures AddEntries(es, t) == Ok(t)
    decreases |es|
  {
    if es != [] {
      BlankEntries(es[1..], t);
    }
  }
}
