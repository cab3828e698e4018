/** The detail pages of kobe_bid_scraper.py: the label → value table read
    from a bid's detail page, its merge into the bid record through the
    fixed label mapping, the list of required fields still missing, and
    the loop in `main` that falls back to the browser when fields are
    missing. */
module KobeDetails {
  import opened Base
  import opened BidRecord

  /** One `<tr>` of the detail table: the text of its cells. */
  type DetailRow = seq<string>

  /** The `details` dict after reading `rows`: a row with at least two cells
      binds its stripped first cell to its stripped second cell, and a later
      row with the same label overwrites an earlier one. */
  function DetailsOf(rows: seq<DetailRow>): map<string, string>
  {
    if rows == [] then map[]
    else
      var row := rows[|rows| - 1];
      var prev := DetailsOf(rows[..|rows| - 1]);
      if |row| >= 2 then prev[Strip(row[0]) := Strip(row[1])] else prev
  }

  /** The row loop of `get_bid_details_with_requests`, and of its browser
      twin. The two read different cells: the HTTP fetch reads `th` and
      `td` cells, the browser fetch only `td` cells. So a label held in a
      `th` cell is lost in the browser fetch. Here the cells are an input,
      so the difference lies in what each caller passes. */
  method BuildDetails(rows: seq<DetailRow>) returns (details: map<string, string>)
    ensures details == DetailsOf(rows)
  {
    details := map[];
    var i := 0;
    while i < |rows|
      invariant 0 <= i <= |rows|
      invariant details == DetailsOf(rows[..i])
    {
      assert rows[..i + 1][..i] == rows[..i];
      var cells := rows[i];
      if |cells| >= 2 {
        details := details[Strip(cells[0]) := Strip(cells[1])];
      }
      i := i + 1;
    }
    assert rows[..i] == rows;
  }

  /** Row `i` carries a label (it has at least two cells). */
  predicate Labelled(rows: seq<DetailRow>, i: int) {
    0 <= i < |rows| && |rows[i]| >= 2
  }

  /** Row `i` is the last row carrying its label. */
  predicate LastWithLabel(rows: seq<DetailRow>, i: int)
    requires Labelled(rows, i)
  {
    forall j :: i < j < |rows| && |rows[j]| >= 2 ==> Strip(rows[j][0]) != Strip(rows[i][0])
  }

  /** The labels of the table are exactly those of its rows with two cells. */
  lemma DetailsOfKeys(rows: seq<DetailRow>, key: string)
    ensures key in DetailsOf(rows) <==> exists i :: Labelled(rows, i) && Strip(rows[i][0]) == key
  {
    if key in DetailsOf(rows) {
      var i := KeyWitness(rows, key);
    }
    if exists i :: Labelled(rows, i) && Strip(rows[i][0]) == key {
      var i :| Labelled(rows, i) && Strip(rows[i][0]) == key;
      KeyPresent(rows, i);
    }
  }

  /** A label of the table comes from some row. */
  lemma {:induction false} KeyWitness(rows: seq<DetailRow>, key: string) returns (i: int)
    requires key in DetailsOf(rows)
    ensures Labelled(rows, i) && Strip(rows[i][0]) == key
  {
    var n := |rows| - 1;
    var init := rows[..n];
    if key in DetailsOf(init) && (|rows[n]| < 2 || Strip(rows[n][0]) != key) {
      i := KeyWitness(init, key);
      assert rows[i] == init[i];
    } else {
      i := n;
    }
  }

  /** Every row with two cells contributes its label. */
  lemma {:induction false} KeyPresent(rows: seq<DetailRow>, i: int)
    requires Labelled(rows, i)
    ensures Strip(rows[i][0]) in DetailsOf(rows)
  {
    var n := |rows| - 1;
    var init := rows[..n];
    if i < n {
      assert init[i] == rows[i];
      KeyPresent(init, i);
    }
  }

  /** Each label keeps the value of the last row that carries it. */
  lemma {:induction false} DetailsOfLastWins(rows: seq<DetailRow>, i: int)
    requires Labelled(rows, i) && LastWithLabel(rows, i)
    ensures Strip(rows[i][0]) in DetailsOf(rows)
    ensures DetailsOf(rows)[Strip(rows[i][0])] == Strip(rows[i][1])
  {
    var n := |rows| - 1;
    var init := rows[..n];
    if i < n {
      assert Labelled(init, i) && init[i] == rows[i];
      assert LastWithLabel(init, i);
      DetailsOfLastWins(init, i);
    }
  }

  /** The label mapping of the detail page: the page's label, and the bid
      field it fills. The targets are the output columns, in column order. */
  const FieldMapping: seq<(string, string)> := [
    ("工事（業務）名", Name),
    ("開札日時", OpenedAt),
    ("入札方式", BidMethod),
    ("参加者数", Bidders),
    ("落札金額（税込）", AwardedPrice),
    ("予定価格（税込）", PlannedPrice),
    ("最低制限価格（税込）", FloorPrice),
    ("契約の相手方", Contractor)
  ]

  /** The page label that fills bid field `target`, looking from entry `from`. */
  function LabelFrom(target: string, from: nat): (r: Option<string>)
    decreases |FieldMapping| - from
  {
    if from >= |FieldMapping| then None
    else if FieldMapping[from].1 == target then Some(FieldMapping[from].0)
    else LabelFrom(target, from + 1)
  }

  function LabelOf(target: string): Option<string> {
    LabelFrom(target, 0)
  }

  /** The mapping's targets are the columns, and each column is filled from
      the label listed beside it. */
  lemma MappingColumns()
    ensures |FieldMapping| == |Columns|
    ensures forall i :: 0 <= i < |Columns| ==> FieldMapping[i].1 == Columns[i]
    ensures forall i :: 0 <= i < |Columns| ==> LabelOf(Columns[i]) == Some(FieldMapping[i].0)
    ensures forall k :: k !in Columns ==> LabelOf(k).None?
  {
    MappingTargets();
    ColumnsDistinct();
    forall i | 0 <= i < |Columns| ensures LabelOf(Columns[i]) == Some(FieldMapping[i].0) {
      LabelFromHit(i, 0);
    }
    forall k | k !in Columns ensures LabelOf(k).None? {
      LabelFromMiss(k, 0);
    }
  }

  lemma MappingTargets()
    ensures |FieldMapping| == |Columns|
    ensures forall i :: 0 <= i < |Columns| ==> FieldMapping[i].1 == Columns[i]
  {
  }

  /** Looking from `from`, the first entry whose target is `FieldMapping[i].1`
      is entry `i`, when no entry in between has that target. */
  lemma {:induction false} LabelFromHit(i: nat, from: nat)
    requires from <= i < |FieldMapping|
    requires forall j :: from <= j < i ==> FieldMapping[j].1 != FieldMapping[i].1
    ensures LabelFrom(FieldMapping[i].1, from) == Some(FieldMapping[i].0)
    decreases i - from
  {
    if from < i {
      LabelFromHit(i, from + 1);
    }
  }

  /** A target no entry from `from` on has gets no label. */
  lemma {:induction false} LabelFromMiss(target: string, from: nat)
    requires forall j :: from <= j < |FieldMapping| ==> FieldMapping[j].1 != target
    ensures LabelFrom(target, from).None?
    decreases |FieldMapping| - from
  {
    if from < |FieldMapping| {
      LabelFromMiss(target, from + 1);
    }
  }

  /** The value bid field `k` has after the merge. */
  function MergedValue(info: Record, details: map<string, string>, k: string): string {
    match LabelOf(k)
    case Some(caption) => if caption in details then details[caption] else Get(info, k)
    case None => Get(info, k)
  }

  /** `bid_details` after the mapping loop: the bid's own fields, and every
      column either taken from the page, kept, or defaulted to "". */
  function Merged(info: Record, details: map<string, string>): Record {
    map k | k in info.Keys + (set c | c in Columns) :: MergedValue(info, details, k)
  }

  /** What the merge promises, field by field: all eight columns exist; a
      column takes the page's value when its label is on the page, else
      keeps the bid's own value, else is ""; every other field is kept. */
  lemma MergedFields(info: Record, details: map<string, string>)
    ensures Merged(info, details).Keys == info.Keys + (set c | c in Columns)
    ensures forall i :: 0 <= i < |Columns| ==>
              Merged(info, details)[Columns[i]] ==
                (if FieldMapping[i].0 in details then details[FieldMapping[i].0]
                 else if Columns[i] in info then info[Columns[i]] else "")
    ensures forall k :: k in info && k !in Columns ==> Merged(info, details)[k] == info[k]
  {
    MappingColumns();
  }

  /** Merging the same page twice changes nothing more. */
  lemma MergedIdempotent(info: Record, details: map<string, string>)
    ensures Merged(Merged(info, details), details) == Merged(info, details)
  {
    var once := Merged(info, details);
    MappingColumns();
    forall k | k in once ensures MergedValue(once, details, k) == once[k] {
    }
  }

  /** `merged` is the bid after the first `i` entries of the mapping. */
  ghost predicate MergedUpTo(info: Record, details: map<string, string>, merged: Record, i: nat)
    requires i <= |Columns|
  {
    forall k :: (k in merged <==> k in info || k in Columns[..i])
                && (k in merged ==>
                      merged[k] == (if k in Columns[..i] then MergedValue(info, details, k) else info[k]))
  }

  /** One entry of the mapping loop keeps `MergedUpTo`. */
  lemma MergeStep(info: Record, details: map<string, string>, merged: Record, i: nat)
    requires i < |Columns| && MergedUpTo(info, details, merged, i)
    ensures var (caption, field) := FieldMapping[i];
            MergedUpTo(info, details,
                       if caption in details then merged[field := details[caption]]
                       else if field !in merged then merged[field := ""]
                       else merged,
                       i + 1)
  {
    var (caption, field) := FieldMapping[i];
    assert field == Columns[i] && LabelOf(field) == Some(caption) && field !in Columns[..i] by {
      MappingColumns();
      ColumnsDistinct();
    }
    assert Columns[..i + 1] == Columns[..i] + [field];
    var next := if caption in details then merged[field := details[caption]]
                else if field !in merged then merged[field := ""]
                else merged;
    forall k
      ensures (k in next <==> k in info || k in Columns[..i + 1])
              && (k in next ==>
                    next[k] == (if k in Columns[..i + 1] then MergedValue(info, details, k) else info[k]))
    {
      if k != field {
        assert k in Columns[..i + 1] <==> k in Columns[..i];
      }
    }
  }

  /** The mapping loop of `get_bid_details_with_requests`, updating a copy
      of the bid in place. */
  method MergeDetails(info: Record, details: map<string, string>) returns (merged: Record)
    ensures merged == Merged(info, details)
  {
    merged := info;
    var i := 0;
    assert |FieldMapping| == |Columns|;
    assert MergedUpTo(info, details, merged, 0);
    while i < |FieldMapping|
      invariant 0 <= i <= |FieldMapping|
      invariant MergedUpTo(info, details, merged, i)
    {
      MergeStep(info, details, merged, i);
      var (caption, field) := FieldMapping[i];
      if caption in details {
        merged := merged[field := details[caption]];
      } else if field !in merged {
        merged := merged[field := ""];
      }
      i := i + 1;
    }
    MergeDone(info, details, merged);
  }

  /** After all eight entries, the loop has built `Merged`. */
  lemma MergeDone(info: Record, details: map<string, string>, merged: Record)
    requires MergedUpTo(info, details, merged, |Columns|)
    ensures merged == Merged(info, details)
  {
    assert Columns[..|Columns|] == Columns;
    forall k | k in merged ensures merged[k] == MergedValue(info, details, k) {
      if k !in Columns {
        MergeDoneOther(info, details, k);
      }
    }
    MergedExactly(info, details, merged);
  }

  /** A record with the keys and values `Merged` describes is `Merged`. */
  lemma MergedExactly(info: Record, details: map<string, string>, merged: Record)
    requires forall k :: k in merged <==> k in info || k in Columns
    requires forall k :: k in merged ==> merged[k] == MergedValue(info, details, k)
    ensures merged == Merged(info, details)
  {
    var spec := Merged(info, details);
    assert merged.Keys == spec.Keys;
  }

  /** A field outside the columns keeps the bid's own value. */
  lemma MergeDoneOther(info: Record, details: map<string, string>, k: string)
    requires k in info && k !in Columns
    ensures MergedValue(info, details, k) == info[k]
  {
    MappingColumns();
  }

  /** What fetching one detail page gives: no detail table, or any failure
      on the way, leaves the bid as it was. */
  datatype DetailPage = NoTable | Failed | Table(rows: seq<DetailRow>)

  function Fetched(info: Record, page: DetailPage): Record {
    match page
    case Table(rows) => Merged(info, DetailsOf(rows))
    case _ => info
  }

  /** `get_bid_details_with_requests` / `get_bid_details_with_selenium`
      once the page is in hand. The bid must have a link: reading it is
      the one step outside the error handling. */
  method FetchDetails(info: Record, page: DetailPage) returns (r: Record)
    requires Link in info
    ensures r == Fetched(info, page)
  {
    match page {
      case Table(rows) =>
        var details := BuildDetails(rows);
        r := MergeDetails(info, details);
      case _ =>
        r := info;
    }
  }

  /** Without a detail table, or on any failure, the bid comes back
      unchanged; with a table every column is present. */
  lemma FetchedColumns(info: Record, page: DetailPage)
    ensures page.Table? ==> forall c :: c in Columns ==> c in Fetched(info, page)
    ensures !page.Table? ==> Fetched(info, page) == info
  {
    if page.Table? {
      MergedFields(info, DetailsOf(page.rows));
    }
  }

  /** A required field is missing when it is absent or empty. */
  predicate Absent(r: Record, field: string) {
    field !in r || r[field] == ""
  }

  /** `missing_fields`, over a list of required fields. */
  function MissingAmong(fields: seq<string>, r: Record): seq<string> {
    if fields == [] then []
    else
      var prev := MissingAmong(fields[..|fields| - 1], r);
      var f := fields[|fields| - 1];
      if Absent(r, f) then prev + [f] else prev
  }

  /** `missing_fields` in `main`: the required fields are the eight columns. */
  function Missing(r: Record): seq<string> {
    MissingAmong(Columns, r)
  }

  /** The missing fields are exactly the required ones absent or empty,
      listed in the order they are required. */
  lemma {:induction false} MissingAmongMeaning(fields: seq<string>, r: Record)
    ensures forall f :: f in MissingAmong(fields, r) <==> f in fields && Absent(r, f)
    ensures Subsequence(MissingAmong(fields, r), fields)
  {
    if fields != [] {
      var init := fields[..|fields| - 1];
      MissingAmongMeaning(init, r);
      assert fields == init + [fields[|fields| - 1]];
    }
  }

  lemma MissingMeaning(r: Record)
    ensures forall f :: f in Missing(r) <==> f in Columns && Absent(r, f)
    ensures Subsequence(Missing(r), Columns)
    ensures Missing(r) == [] <==> forall f :: f in Columns ==> f in r && r[f] != ""
  {
    MissingAmongMeaning(Columns, r);
    if Missing(r) != [] {
      assert Missing(r)[0] in Missing(r);
    }
  }

  /** After a detail table was read, every column exists, so only empty
      values can be missing. */
  lemma MissingAfterTable(info: Record, rows: seq<DetailRow>)
    ensures forall f :: f in Missing(Fetched(info, Table(rows))) <==>
              f in Columns && Fetched(info, Table(rows))[f] == ""
  {
    MissingMeaning(Fetched(info, Table(rows)));
    MergedFields(info, DetailsOf(rows));
  }

  /** The detailed bid `main` keeps: the HTTP page first; the browser page,
      fetched for the original bid, only when a required field is missing. */
  function Detailed(bid: Record, viaRequests: DetailPage, viaBrowser: DetailPage): Record {
    var first := Fetched(bid, viaRequests);
    if Missing(first) == [] then first else Fetched(bid, viaBrowser)
  }

  /** The re-fetch happens exactly when some required field is missing, and
      its outcome then does not depend on the first attempt. */
  lemma RefetchWhenMissing(bid: Record, viaRequests: DetailPage, viaBrowser: DetailPage)
    ensures Missing(Fetched(bid, viaRequests)) == [] ==>
              Detailed(bid, viaRequests, viaBrowser) == Fetched(bid, viaRequests)
              && forall f :: f in Columns ==> Get(Detailed(bid, viaRequests, viaBrowser), f) != ""
    ensures (exists f :: f in Columns && Absent(Fetched(bid, viaRequests), f)) ==>
              Detailed(bid, viaRequests, viaBrowser) == Fetched(bid, viaBrowser)
  {
    MissingMeaning(Fetched(bid, viaRequests));
  }

  /** The detail loop of `main`: one detailed bid per bid, in order. The
      pages each fetch would see are inputs. */
  method FetchAllDetails(bids: seq<Record>, viaRequests: seq<DetailPage>, viaBrowser: seq<DetailPage>)
    returns (detailed: seq<Record>)
    requires |viaRequests| == |bids| && |viaBrowser| == |bids|
    requires forall i :: 0 <= i < |bids| ==> Link in bids[i]
    ensures |detailed| == |bids|
    ensures forall i :: 0 <= i < |bids| ==> detailed[i] == Detailed(bids[i], viaRequests[i], viaBrowser[i])
  {
    detailed := [];
    var i := 0;
    while i < |bids|
      invariant 0 <= i <= |bids|
      invariant |detailed| == i
      invariant forall j :: 0 <= j < i ==> detailed[j] == Detailed(bids[j], viaRequests[j], viaBrowser[j])
    {
      var bid := bids[i];
      var detailedBid := FetchDetails(bid, viaRequests[i]);
      var missing := Missing(detailedBid);
      if missing != [] {
        detailedBid := FetchDetails(bid, viaBrowser[i]);
      }
      detailed := detailed + [detailedBid];
      i := i + 1;
    }
  }
}
