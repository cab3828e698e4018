/** Saving in kobe_bid_scraper.py: de-duplication on the key
    (工事名, 開札日時) against what is already stored, projection onto the
    eight output columns, the CSV file written by `save_to_csv` and read
    back by `csv.DictReader`, and the rows `save_to_gsheet` appends. */
module KobeStore {
  import opened Base
  import opened BidRecord

  /** The de-duplication key of a record. */
  type Key = (string, string)

  function KeyOf(r: Record): Key {
    (Get(r, Name), Get(r, OpenedAt))
  }

  /** `existing_keys`. */
  function KeysOf(rows: seq<Record>): set<Key> {
    set i | 0 <= i < |rows| :: KeyOf(rows[i])
  }

  /** `new_data`: the rows, in order, whose key is not already stored. Rows
      of `data` are not compared with each other. */
  function NewRows(data: seq<Record>, keys: set<Key>): seq<Record> {
    if data == [] then []
    else
      var prev := NewRows(data[..|data| - 1], keys);
      var r := data[|data| - 1];
      if KeyOf(r) in keys then prev else prev + [r]
  }

  /** The rows kept are exactly the rows of `data` with a new key, in their
      original order. */
  lemma {:induction false} NewRowsMeaning(data: seq<Record>, keys: set<Key>)
    ensures forall r :: r in NewRows(data, keys) <==> r in data && KeyOf(r) !in keys
    ensures Subsequence(NewRows(data, keys), data)
  {
    if data != [] {
      var init := data[..|data| - 1];
      NewRowsMeaning(init, keys);
      assert data == init + [data[|data| - 1]];
    }
  }

  /** Each row is kept as many times as it occurs in `data` when its key is
      new, and not at all otherwise. */
  lemma {:induction false} NewRowsMultiset(data: seq<Record>, keys: set<Key>)
    ensures forall r :: multiset(NewRows(data, keys))[r] ==
              if KeyOf(r) in keys then 0 else multiset(data)[r]
  {
    if data != [] {
      var init := data[..|data| - 1];
      var x := data[|data| - 1];
      NewRowsMultiset(init, keys);
      assert data == init + [x];
      assert multiset(data) == multiset(init) + multiset{x};
    }
  }

  /** Against no stored keys every row is kept. */
  lemma {:induction false} NewRowsNoKeys(data: seq<Record>)
    ensures NewRows(data, {}) == data
  {
    if data != [] {
      NewRowsNoKeys(data[..|data| - 1]);
      assert data == data[..|data| - 1] + [data[|data| - 1]];
    }
  }

  /** A row of a data set is kept against keys that miss all of its keys. */
  lemma {:induction false} NewRowsDisjoint(data: seq<Record>, keys: set<Key>)
    requires forall i :: 0 <= i < |data| ==> KeyOf(data[i]) !in keys
    ensures NewRows(data, keys) == data
  {
    if data != [] {
      NewRowsDisjoint(data[..|data| - 1], keys);
      assert data == data[..|data| - 1] + [data[|data| - 1]];
    }
  }

  /** Nothing is kept against keys that cover every row. */
  lemma {:induction false} NewRowsCovered(data: seq<Record>, keys: set<Key>)
    requires forall i :: 0 <= i < |data| ==> KeyOf(data[i]) in keys
    ensures NewRows(data, keys) == []
  {
    if data != [] {
      NewRowsCovered(data[..|data| - 1], keys);
    }
  }

  /** The line written for a record: its values in column order, "" for a
      field it lacks. */
  function Project(r: Record): (line: seq<string>)
    ensures |line| == |Columns|
  {
    seq(|Columns|, i requires 0 <= i < |Columns| => Get(r, Columns[i]))
  }

  function ProjectAll(rows: seq<Record>): (lines: seq<seq<string>>)
    ensures |lines| == |rows|
  {
    if rows == [] then [] else ProjectAll(rows[..|rows| - 1]) + [Project(rows[|rows| - 1])]
  }

  /** `dict(zip(header, line))` over the first `m` pairs: a repeated name
      keeps the later value. */
  function ZipPrefix(header: seq<string>, line: seq<string>, m: nat): Record
    requires m <= |header| && m <= |line|
  {
    if m == 0 then map[] else ZipPrefix(header, line, m - 1)[header[m - 1] := line[m - 1]]
  }

  /** A record as `csv.DictReader` builds it from a line under `header`. */
  function Zip(header: seq<string>, line: seq<string>): Record {
    ZipPrefix(header, line, if |header| <= |line| then |header| else |line|)
  }

  /** Under a header of distinct names, zipping gives each name its value. */
  lemma {:induction false} ZipPrefixDistinct(header: seq<string>, line: seq<string>, m: nat)
    requires m <= |header| && m <= |line|
    requires forall i, j :: 0 <= i < j < |header| ==> header[i] != header[j]
    ensures ZipPrefix(header, line, m).Keys == set i | 0 <= i < m :: header[i]
    ensures forall i :: 0 <= i < m ==> ZipPrefix(header, line, m)[header[i]] == line[i]
  {
    if m > 0 {
      ZipPrefixDistinct(header, line, m - 1);
    }
  }

  /** The record read back from a line written for `r`. */
  function ReadBack(r: Record): Record {
    Zip(Columns, Project(r))
  }

  /** Writing then reading a record keeps exactly its eight columns, each
      with the record's value or "". */
  lemma ProjectReadBack(r: Record)
    ensures ReadBack(r).Keys == set c | c in Columns
    ensures forall c :: c in Columns ==> ReadBack(r)[c] == Get(r, c)
    ensures KeyOf(ReadBack(r)) == KeyOf(r)
  {
    ReadBackColumns(r);
    forall c | c in Columns ensures ReadBack(r)[c] == Get(r, c) {
      var i :| 0 <= i < |Columns| && Columns[i] == c;
    }
    assert Columns[0] == Name && Columns[1] == OpenedAt;
  }

  lemma ReadBackColumns(r: Record)
    ensures ReadBack(r).Keys == set c | c in Columns
    ensures forall i :: 0 <= i < |Columns| ==> ReadBack(r)[Columns[i]] == Get(r, Columns[i])
  {
    ColumnsDistinct();
    ZipPrefixDistinct(Columns, Project(r), |Columns|);
    assert (set i | 0 <= i < |Columns| :: Columns[i]) == set c | c in Columns;
  }

  /** The CSV file: absent, or its lines as lists of fields. */
  datatype CsvFile = NoFile | File(lines: seq<seq<string>>)

  /** The records `csv.DictReader` yields for the lines after the header;
      it skips lines without fields. */
  function RecordsOf(header: seq<string>, rows: seq<seq<string>>): seq<Record> {
    if rows == [] then []
    else
      var prev := RecordsOf(header, rows[..|rows| - 1]);
      var row := rows[|rows| - 1];
      if row == [] then prev else prev + [Zip(header, row)]
  }

  /** `list(csv.DictReader(f))`: the first line is the header. */
  function ReadRecords(f: CsvFile): seq<Record> {
    match f
    case NoFile => []
    case File(lines) => if lines == [] then [] else RecordsOf(lines[0], lines[1..])
  }

  /** `existing_data`: read only when appending to a file that exists. */
  function Existing(f: CsvFile, append: bool): seq<Record> {
    if append && f.File? then ReadRecords(f) else []
  }

  /** The file after `save_to_csv(data, path, append)`: when appending to an
      existing file, new lines go after its lines; otherwise the file is
      (re)written with the header first. */
  function Saved(f: CsvFile, data: seq<Record>, append: bool): CsvFile {
    var out := ProjectAll(NewRows(data, KeysOf(Existing(f, append))));
    if append && f.File? then File(f.lines + out) else File([Columns] + out)
  }

  /** A file this module could have written: absent, or headed by the columns. */
  predicate Headed(f: CsvFile) {
    f.NoFile? || (f.lines != [] && f.lines[0] == Columns)
  }

  /** What the save does to the file: the header is written exactly when
      not appending to an existing file; an append keeps every old line;
      each written line has the eight columns. The result is headed. */
  lemma SavedShape(f: CsvFile, data: seq<Record>, append: bool)
    ensures var g := Saved(f, data, append);
            var n := |NewRows(data, KeysOf(Existing(f, append)))|;
            && g.File?
            && (!(append && f.File?) ==> |g.lines| == 1 + n && g.lines[0] == Columns)
            && (append && f.File? ==> |g.lines| == |f.lines| + n && g.lines[..|f.lines|] == f.lines)
            && (forall k :: |g.lines| - n <= k < |g.lines| ==> |g.lines[k]| == |Columns|)
    ensures Headed(f) ==> Headed(Saved(f, data, append))
  {
    var rows := NewRows(data, KeysOf(Existing(f, append)));
    ProjectAllLines(rows);
  }

  lemma {:induction false} ProjectAllLines(rows: seq<Record>)
    ensures forall k :: 0 <= k < |ProjectAll(rows)| ==> ProjectAll(rows)[k] == Project(rows[k])
  {
    if rows != [] {
      ProjectAllLines(rows[..|rows| - 1]);
    }
  }

  lemma {:induction false} RecordsOfAppend(header: seq<string>, a: seq<seq<string>>, b: seq<seq<string>>)
    ensures RecordsOf(header, a + b) == RecordsOf(header, a) + RecordsOf(header, b)
  {
    if b == [] {
      assert a + b == a;
    } else {
      var b' := b[..|b| - 1];
      RecordsOfAppend(header, a, b');
      assert (a + b)[..|a + b| - 1] == a + b';
      assert (a + b)[|a + b| - 1] == b[|b| - 1];
    }
  }

  /** The records read back from the written lines of `rows`. */
  function ReadBackAll(rows: seq<Record>): (rs: seq<Record>)
    ensures |rs| == |rows|
  {
    if rows == [] then [] else ReadBackAll(rows[..|rows| - 1]) + [ReadBack(rows[|rows| - 1])]
  }

  lemma {:induction false} RecordsOfProjected(rows: seq<Record>)
    ensures RecordsOf(Columns, ProjectAll(rows)) == ReadBackAll(rows)
  {
    if rows != [] {
      var init := rows[..|rows| - 1];
      RecordsOfProjected(init);
      assert ProjectAll(rows)[..|rows| - 1] == ProjectAll(init);
      assert |Project(rows[|rows| - 1])| == 8;
    }
  }

  /** Reading the saved file gives the records that were stored before (when
      appending) followed by the kept rows, each as written. */
  lemma SavedRecords(f: CsvFile, data: seq<Record>, append: bool)
    requires append ==> Headed(f)
    ensures ReadRecords(Saved(f, data, append)) ==
              Existing(f, append) + ReadBackAll(NewRows(data, KeysOf(Existing(f, append))))
  {
    var rows := NewRows(data, KeysOf(Existing(f, append)));
    var out := ProjectAll(rows);
    RecordsOfProjected(rows);
    if append && f.File? {
      ReadAppended(f.lines, out);
    } else {
      ReadFresh(out);
    }
  }

  /** Lines appended to a headed file are read after its records. */
  lemma ReadAppended(lines: seq<seq<string>>, out: seq<seq<string>>)
    requires lines != [] && lines[0] == Columns
    ensures ReadRecords(File(lines + out)) == ReadRecords(File(lines)) + RecordsOf(Columns, out)
  {
    assert (lines + out)[0] == Columns;
    assert (lines + out)[1..] == lines[1..] + out;
    RecordsOfAppend(Columns, lines[1..], out);
  }

  /** A file written with the header first reads back as its other lines. */
  lemma ReadFresh(out: seq<seq<string>>)
    ensures ReadRecords(File([Columns] + out)) == RecordsOf(Columns, out)
  {
    assert ([Columns] + out)[1..] == out;
  }

  /** The keys of records written and read back are the keys of the rows. */
  lemma {:induction false} ReadBackKeys(rows: seq<Record>)
    ensures KeysOf(ReadBackAll(rows)) == KeysOf(rows)
  {
    if rows != [] {
      var init := rows[..|rows| - 1];
      ReadBackKeys(init);
      ProjectReadBack(rows[|rows| - 1]);
      var rb := ReadBackAll(rows);
      assert rb[..|rows| - 1] == ReadBackAll(init);
      assert KeysOf(rb) == KeysOf(ReadBackAll(init)) + {KeyOf(rb[|rows| - 1])} by {
        KeysOfSnoc(ReadBackAll(init), rb[|rows| - 1]);
        assert rb == ReadBackAll(init) + [rb[|rows| - 1]];
      }
      KeysOfSnoc(init, rows[|rows| - 1]);
      assert rows == init + [rows[|rows| - 1]];
    }
  }

  lemma KeysOfSnoc(rows: seq<Record>, r: Record)
    ensures KeysOf(rows + [r]) == KeysOf(rows) + {KeyOf(r)}
  {
    var all := rows + [r];
    forall k | k in KeysOf(all) ensures k in KeysOf(rows) + {KeyOf(r)} {
      var i :| 0 <= i < |all| && KeyOf(all[i]) == k;
      if i < |rows| {
        assert all[i] == rows[i];
      }
    }
    forall k | k in KeysOf(rows) ensures k in KeysOf(all) {
      var i :| 0 <= i < |rows| && KeyOf(rows[i]) == k;
      assert all[i] == rows[i];
    }
    assert all[|rows|] == r;
  }

  lemma KeysOfAppend(a: seq<Record>, b: seq<Record>)
    ensures KeysOf(a + b) == KeysOf(a) + KeysOf(b)
  {
    var all := a + b;
    forall k | k in KeysOf(all) ensures k in KeysOf(a) + KeysOf(b) {
      var i :| 0 <= i < |all| && KeyOf(all[i]) == k;
      if i < |a| {
        assert all[i] == a[i];
      } else {
        assert all[i] == b[i - |a|];
      }
    }
    forall k | k in KeysOf(a) + KeysOf(b) ensures k in KeysOf(all) {
      if k in KeysOf(a) {
        var i :| 0 <= i < |a| && KeyOf(a[i]) == k;
        assert all[i] == a[i];
      } else {
        var i :| 0 <= i < |b| && KeyOf(b[i]) == k;
        assert all[|a| + i] == b[i];
      }
    }
  }

  /** Appending the same data twice adds nothing the second time. */
  lemma SavedIdempotent(f: CsvFile, data: seq<Record>)
    requires Headed(f)
    ensures Saved(Saved(f, data, true), data, true) == Saved(f, data, true)
  {
    var once := Saved(f, data, true);
    var before := Existing(f, true);
    var kept := NewRows(data, KeysOf(before));
    SavedRecords(f, data, true);
    SavedShape(f, data, true);
    assert Existing(once, true) == before + ReadBackAll(kept);
    KeysOfAppend(before, ReadBackAll(kept));
    ReadBackKeys(kept);
    NewRowsMeaning(data, KeysOf(before));
    forall i | 0 <= i < |data| ensures KeyOf(data[i]) in KeysOf(Existing(once, true)) {
      if KeyOf(data[i]) !in KeysOf(before) {
        assert data[i] in kept;
        var j :| 0 <= j < |kept| && kept[j] == data[i];
      }
    }
    NewRowsCovered(data, KeysOf(Existing(once, true)));
    assert once.lines + [] == once.lines;
  }

  /** The repository's CSV test, for any data of its shape: writing `first`
      afresh stores its rows; appending `second`, whose keys are new, adds
      all of them; appending `first` again adds nothing. */
  lemma SaveScenario(f: CsvFile, first: seq<Record>, second: seq<Record>)
    requires forall i :: 0 <= i < |second| ==> KeyOf(second[i]) !in KeysOf(first)
    ensures |ReadRecords(Saved(f, first, false))| == |first|
    ensures |ReadRecords(Saved(Saved(f, first, false), second, true))| == |first| + |second|
    ensures |ReadRecords(Saved(Saved(Saved(f, first, false), second, true), first, true))|
              == |first| + |second|
  {
    var g1 := Saved(f, first, false);
    SavedShape(f, first, false);
    NewRowsNoKeys(first);
    assert KeysOf([]) == {};
    assert Headed(NoFile);
    SavedRecords(NoFile, first, false);
    assert g1 == Saved(NoFile, first, false);
    var r1 := ReadRecords(g1);
    assert r1 == ReadBackAll(first);
    ReadBackKeys(first);
    NewRowsDisjoint(second, KeysOf(r1));
    SavedShape(g1, second, true);
    SavedRecords(g1, second, true);
    var g2 := Saved(g1, second, true);
    var r2 := ReadRecords(g2);
    assert r2 == r1 + ReadBackAll(second);
    KeysOfAppend(r1, ReadBackAll(second));
    ReadBackKeys(second);
    forall i | 0 <= i < |first| ensures KeyOf(first[i]) in KeysOf(r2) {
      assert KeyOf(first[i]) in KeysOf(first);
    }
    NewRowsCovered(first, KeysOf(r2));
    SavedShape(g2, first, true);
    SavedRecords(g2, first, true);
  }

  /** `save_to_csv`: the lines written, one `writerow` per kept row. */
  method SaveCsv(f: CsvFile, data: seq<Record>, append: bool) returns (g: CsvFile)
    ensures g == Saved(f, data, append)
  {
    var existingData := Existing(f, append);
    var existingKeys := KeysOf(existingData);
    var newData := NewRows(data, existingKeys);
    var lines: seq<seq<string>>;
    if append && f.File? {
      lines := f.lines;
    } else {
      lines := [Columns];
    }
    var start := lines;
    var i := 0;
    while i < |newData|
      invariant 0 <= i <= |newData|
      invariant lines == start + ProjectAll(newData[..i])
    {
      assert newData[..i + 1][..i] == newData[..i];
      lines := lines + [Project(newData[i])];
      i := i + 1;
    }
    assert newData[..i] == newData;
    g := File(lines);
  }

  /** The rows `save_to_gsheet` appends, built in its loop over `data`
      against the keys of the sheet's existing records. */
  method RowsToAdd(existing: seq<Record>, data: seq<Record>) returns (rows: seq<seq<string>>)
    ensures rows == ProjectAll(NewRows(data, KeysOf(existing)))
  {
    var existingKeys := KeysOf(existing);
    rows := [];
    var i := 0;
    while i < |data|
      invariant 0 <= i <= |data|
      invariant rows == ProjectAll(NewRows(data[..i], existingKeys))
    {
      assert data[..i + 1][..i] == data[..i];
      var item := data[i];
      if KeyOf(item) !in existingKeys {
        rows := rows + [Project(item)];
      }
      i := i + 1;
    }
    assert data[..i] == data;
  }

  /** The sheet gets the rows an append to a CSV file holding the same
      records would get. */
  lemma SheetSameRuleAsCsv(f: CsvFile, data: seq<Record>)
    requires f.File?
    ensures Saved(f, data, true).lines == f.lines + ProjectAll(NewRows(data, KeysOf(ReadRecords(f))))
  {
  }

  /** The header step of `save_to_gsheet`, as the rows of the sheet
      before and after it. With no records, a grid of zero rows gets the
      header appended; a non-empty grid whose first row (`row_values(1)`,
      empty for an empty sheet) is not the header is cleared and given the
      header. `rowCount` is the grid's row count, which for a new sheet is
      its size, not its number of filled rows. A sheet with records is left
      alone, and a sheet already headed by the columns is never touched.
      After the step a sheet without records starts with the header,
      whenever a grid of zero rows holds nothing. */
  function HeaderStep(existing: seq<Record>, rowCount: nat, sheet: seq<seq<string>>): (after: seq<seq<string>>)
    ensures existing != [] ==> after == sheet
    ensures existing == [] && (rowCount == 0 ==> sheet == []) ==> after != [] && after[0] == Columns
    ensures sheet != [] && sheet[0] == Columns && rowCount > 0 ==> after == sheet
    ensures after == sheet || after == sheet + [Columns] || after == [Columns]
  {
    if existing == [] && rowCount == 0 then sheet + [Columns]
    else if existing == [] && rowCount > 0 then
      var headerRow := if sheet == [] then [] else sheet[0];
      if headerRow != Columns then [Columns] else sheet
    else sheet
  }
}
