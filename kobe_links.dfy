/** The links of the results list in kobe_bid_scraper.py: the URL inside a
    `window.open('…')` handler, relative links made absolute against the
    city's site, and the loops that turn the rows of a results table into
    basic bid records. */
module KobeLinks {
  import opened Base
  import opened BidRecord

  const OpenCall: string := "window.open('"
  const CloseCall: string := "')"
  const SiteRoot: string := "https://nyusatsukekka.city.kobe.lg.jp/"

  /** The first single quote in `s` at or after `from`. */
  function QuoteFrom(s: string, from: nat): (r: Option<nat>)
    requires from <= |s|
    ensures r.Some? ==> from <= r.value < |s| && s[r.value] == '\''
                        && forall k :: from <= k < r.value ==> s[k] != '\''
    ensures r.None? ==> forall k :: from <= k < |s| ==> s[k] != '\''
    decreases |s| - from
  {
    if from == |s| then None
    else if s[from] == '\'' then Some(from)
    else QuoteFrom(s, from + 1)
  }

  /** The regular expression `window\.open\('([^']+)'\)` tried at position
      `i` of `s`: the captured group. `[^']+` is greedy and cannot cross a
      quote, so the group ends at the first quote after the opening one. */
  function MatchAt(s: string, i: nat): (r: Option<string>)
    requires i <= |s|
  {
    if !StartsWith(s[i..], OpenCall) then None
    else
      var start := i + |OpenCall|;
      match QuoteFrom(s, start)
      case None => None
      case Some(q) => if q > start && q + 1 < |s| && s[q + 1] == ')' then Some(s[start..q]) else None
  }

  /** What the pattern means: it matches at `i` with group `u` exactly when
      `s` reads `window.open('u')` from `i` on, `u` being non-empty and
      free of single quotes. */
  lemma MatchAtMeaning(s: string, i: nat, u: string)
    requires i <= |s|
    ensures MatchAt(s, i) == Some(u) <==>
              u != [] && '\'' !in u && StartsWith(s[i..], OpenCall + u + CloseCall)
  {
    var start := i + |OpenCall|;
    if MatchAt(s, i) == Some(u) {
      var q := QuoteFrom(s, start).value;
      assert s[i..][..|OpenCall + u + CloseCall|] == OpenCall + u + CloseCall;
    }
    if u != [] && '\'' !in u && StartsWith(s[i..], OpenCall + u + CloseCall) {
      var text := OpenCall + u + CloseCall;
      assert s[i..][..|OpenCall|] == text[..|OpenCall|] == OpenCall;
      forall k | start <= k < start + |u| ensures s[k] != '\'' {
        assert s[k] == text[k - i] == u[k - start];
      }
      assert s[start + |u|] == text[|OpenCall| + |u|];
      assert QuoteFrom(s, start) == Some(start + |u|);
      assert s[start + |u| + 1] == text[|OpenCall| + |u| + 1] == ')';
      forall k | 0 <= k < |u| ensures s[start..start + |u|][k] == u[k] {
        assert s[start + k] == text[|OpenCall| + k];
      }
      assert s[start..start + |u|] == u;
    }
  }

  /** `re.search`: the match that starts leftmost, trying positions from `i`. */
  function SearchFrom(s: string, i: nat): (r: Option<string>)
    requires i <= |s|
    decreases |s| - i
  {
    match MatchAt(s, i)
    case Some(u) => Some(u)
    case None => if i == |s| then None else SearchFrom(s, i + 1)
  }

  /** `get_onclick_url`. */
  function OnclickUrl(onclick: string): (r: Option<string>)
  {
    SearchFrom(onclick, 0)
  }

  /** The URL returned is the group of the leftmost match: the position
      `p` it was found at, with no match before it. */
  lemma {:induction false} SearchFromFound(s: string, i: nat) returns (p: nat)
    requires i <= |s| && SearchFrom(s, i).Some?
    ensures i <= p <= |s| && MatchAt(s, p) == SearchFrom(s, i)
    ensures forall k :: i <= k < p ==> MatchAt(s, k).None?
    decreases |s| - i
  {
    if MatchAt(s, i).Some? {
      p := i;
    } else {
      assert SearchFrom(s, i) == SearchFrom(s, i + 1);
      p := SearchFromFound(s, i + 1);
    }
  }

  /** There is no URL only when the pattern matches nowhere. */
  lemma {:induction false} SearchFromNone(s: string, i: nat)
    requires i <= |s| && SearchFrom(s, i).None?
    ensures forall k :: i <= k <= |s| ==> MatchAt(s, k).None?
    decreases |s| - i
  {
    if i < |s| {
      SearchFromNone(s, i + 1);
    }
  }

  /** `get_onclick_url` gives a non-empty URL without quotes, written as
      `window.open('URL')` in the handler, or None when no such call is in it. */
  lemma OnclickUrlMeaning(onclick: string)
    ensures OnclickUrl(onclick).Some? ==>
              var u := OnclickUrl(onclick).value;
              u != [] && '\'' !in u
              && exists p :: 0 <= p <= |onclick| && StartsWith(onclick[p..], OpenCall + u + CloseCall)
    ensures OnclickUrl(onclick).None? <==>
              forall p, u :: 0 <= p <= |onclick| && u != [] && '\'' !in u
                 ==> !StartsWith(onclick[p..], OpenCall + u + CloseCall)
  {
    if OnclickUrl(onclick).Some? {
      var u := OnclickUrl(onclick).value;
      var p := SearchFromFound(onclick, 0);
      MatchAtMeaning(onclick, p, u);
      assert u != [] && '\'' !in u;
      assert StartsWith(onclick[p..], OpenCall + u + CloseCall);
    } else {
      SearchFromNone(onclick, 0);
      forall p, u | 0 <= p <= |onclick| && u != [] && '\'' !in u
        ensures !StartsWith(onclick[p..], OpenCall + u + CloseCall)
      {
        MatchAtMeaning(onclick, p, u);
      }
    }
  }

  lemma OnclickUrlExample()
    ensures OnclickUrl("window.open('resultk.php?xxx')") == Some("resultk.php?xxx")
  {
    ExampleMatch();
  }

  lemma ExampleMatch()
    ensures MatchAt("window.open('resultk.php?xxx')", 0) == Some("resultk.php?xxx")
  {
    var s := "window.open('resultk.php?xxx')";
    var u := "resultk.php?xxx";
    assert s == OpenCall + u + CloseCall;
    assert s[0..] == s && s[..|s|] == s;
    MatchAtMeaning(s, 0, u);
  }

  /** Link absolutisation (both search paths): a link not starting with
      "http" is taken relative to the site root. */
  function Absolute(link: string): (r: string)
    ensures StartsWith(r, "http")
    ensures |r| >= |link| && r[|r| - |link|..] == link
  {
    if StartsWith(link, "http") then link
    else
      assert (SiteRoot + link)[|SiteRoot|..] == link;
      assert SiteRoot[0] == 'h' && SiteRoot[1] == 't' && SiteRoot[2] == 't' && SiteRoot[3] == 'p';
      assert (SiteRoot + link)[..4] == "http";
      SiteRoot + link
  }

  /** Absolute links are left alone, so making a link absolute twice is the
      same as once; a relative link gets exactly the site root in front. */
  lemma AbsoluteIdempotent(link: string)
    ensures Absolute(Absolute(link)) == Absolute(link)
    ensures StartsWith(link, "http") <==> Absolute(link) == link
    ensures !StartsWith(link, "http") ==> Absolute(link) == SiteRoot + link
  {
    var r := Absolute(link);
    assert r[..4] == "http";
  }

  /** A row of a results table: the text of each cell and the link found in
      the first cell (the `href` of its anchor, or whatever
      `extract_link_from_cell` found), if any. Through the browser, the
      program as written never finds one (see `NoLinks`). */
  datatype ResultRow = ResultRow(cells: seq<string>, link: Option<string>)

  /** The basic record built from a row's first four cells and its link. */
  function BasicRecord(cells: seq<string>, link: string): (r: Record)
    requires |cells| >= 4
    ensures r.Keys == {Name, OpenedAt, BidMethod, CaseNumber, Link}
  {
    map[Name := Strip(cells[0]), OpenedAt := Strip(cells[1]), BidMethod := Strip(cells[2]),
        CaseNumber := Strip(cells[3]), Link := link]
  }

  /** `all(v.strip() for v in bid_info.values())`. */
  predicate AllFilled(r: Record) {
    forall k :: k in r ==> !AllSpace(r[k])
  }

  /** The record one row yields. Through plain HTTP (289-319) a row needs
      five cells and a non-empty link; through the browser (429-458) four
      cells, a non-empty link and no blank field. */
  function RowRecord(row: ResultRow, viaBrowser: bool): (r: Option<Record>)
  {
    if |row.cells| < (if viaBrowser then 4 else 5) then None
    else
      match row.link
      case None => None
      case Some(l) =>
        if l == "" then None
        else
          var rec := BasicRecord(row.cells, Absolute(l));
          if viaBrowser && !AllFilled(rec) then None else Some(rec)
  }

  /** The records a sequence of rows yields, in row order. */
  function Collected(rows: seq<ResultRow>, viaBrowser: bool): (rs: seq<Record>)
    ensures |rs| <= |rows|
  {
    if rows == [] then []
    else Collected(rows[..|rows| - 1], viaBrowser) + Yield(RowRecord(rows[|rows| - 1], viaBrowser))
  }

  /** The records one row adds: its record, if it yields one. */
  function Yield(r: Option<Record>): (rs: seq<Record>)
    ensures |rs| <= 1
  {
    match r
    case Some(rec) => [rec]
    case None => []
  }

  /** What every collected record looks like: the five basic fields, an
      absolute link, and through the browser no blank field. */
  predicate WellFormedBasic(r: Record, viaBrowser: bool) {
    && r.Keys == {Name, OpenedAt, BidMethod, CaseNumber, Link}
    && StartsWith(r[Link], "http")
    && (viaBrowser ==> AllFilled(r))
  }

  lemma {:induction false} CollectedWellFormed(rows: seq<ResultRow>, viaBrowser: bool)
    ensures forall i :: 0 <= i < |Collected(rows, viaBrowser)| ==>
              WellFormedBasic(Collected(rows, viaBrowser)[i], viaBrowser)
  {
    if rows != [] {
      CollectedWellFormed(rows[..|rows| - 1], viaBrowser);
    }
  }

  /** A record of the five basic fields is filled exactly when none of
      its values is blank. */
  lemma FiveFilled(c0: string, c1: string, c2: string, c3: string, link: string)
    ensures AllFilled(map[Name := c0, OpenedAt := c1, BidMethod := c2, CaseNumber := c3, Link := link]) <==>
              !AllSpace(c0) && !AllSpace(c1) && !AllSpace(c2) && !AllSpace(c3) && !AllSpace(link)
  {
    var rec := map[Name := c0, OpenedAt := c1, BidMethod := c2, CaseNumber := c3, Link := link];
    assert rec[Name] == c0 && rec[OpenedAt] == c1 && rec[BidMethod] == c2;
    assert rec[CaseNumber] == c3 && rec[Link] == link;
  }

  /** Through the browser, a row with four cells and a link is kept exactly
      when none of its first four cells is blank. */
  lemma BrowserRowKept(row: ResultRow)
    requires |row.cells| >= 4 && row.link.Some? && row.link.value != ""
    ensures RowRecord(row, true).Some? <==>
              !AllSpace(row.cells[0]) && !AllSpace(row.cells[1])
              && !AllSpace(row.cells[2]) && !AllSpace(row.cells[3])
  {
    var link := Absolute(row.link.value);
    assert link[..4] == "http";
    assert !IsSpace(link[0]);
    FiveFilled(Strip(row.cells[0]), Strip(row.cells[1]), Strip(row.cells[2]), Strip(row.cells[3]), link);
    StripEmpty(row.cells[0]);
    StripEmpty(row.cells[1]);
    StripEmpty(row.cells[2]);
    StripEmpty(row.cells[3]);
  }

  /** The row loop of `search_bids_with_requests`: the header row is
      skipped, then each row that yields a record appends it to `results`. */
  method CollectResults(rows: seq<ResultRow>, viaBrowser: bool) returns (results: seq<Record>)
    ensures results == if rows == [] then [] else Collected(rows[1..], viaBrowser)
  {
    results := [];
    if rows == [] {
      return;
    }
    var i := 1;
    while i < |rows|
      invariant 1 <= i <= |rows|
      invariant results == Collected(rows[1..i], viaBrowser)
    {
      var rec := RowRecord(rows[i], viaBrowser);
      CollectedStep(rows, i, viaBrowser, results);
      if rec.Some? {
        results := results + [rec.value];
      }
      i := i + 1;
    }
    assert rows[1..i] == rows[1..];
  }

  /** One more row adds its record, if it yields one, at the end. */
  lemma CollectedStep(rows: seq<ResultRow>, i: nat, viaBrowser: bool, results: seq<Record>)
    requires 1 <= i < |rows| && results == Collected(rows[1..i], viaBrowser)
    ensures var rec := RowRecord(rows[i], viaBrowser);
            Collected(rows[1..i + 1], viaBrowser) == if rec.Some? then results + [rec.value] else results
  {
    var xs := rows[1..i + 1];
    assert xs[..|xs| - 1] == rows[1..i];
    assert xs[|xs| - 1] == rows[i];
    var rec := RowRecord(rows[i], viaBrowser);
    assert Collected(xs, viaBrowser) == results + Yield(rec);
    if rec.Some? {
      assert Yield(rec) == [rec.value];
    } else {
      assert results + Yield(rec) == results;
    }
  }

  /** `search_bids_with_requests` after the HTTP request: no results table,
      or a link to a further page, means "use the browser instead" (None). */
  method SearchWithRequests(table: Option<seq<ResultRow>>, hasNextPage: bool) returns (r: Option<seq<Record>>)
    ensures table.None? || hasNextPage ==> r.None?
    ensures table.Some? && !hasNextPage ==>
              r == Some(if table.value == [] then [] else Collected(table.value[1..], false))
  {
    if table.None? {
      return None;
    }
    var results := CollectResults(table.value, false);
    if hasNextPage {
      return None;
    }
    return Some(results);
  }

  /** `search_bids_with_selenium`: every results page in turn, header row
      skipped, rows appended to one `results` list. */
  method SearchWithBrowser(pages: seq<seq<ResultRow>>) returns (results: seq<Record>)
    ensures results == BrowserResults(pages)
    ensures NoLinks(pages) ==> results == []
  {
    results := [];
    var p := 0;
    while p < |pages|
      invariant 0 <= p <= |pages|
      invariant results == BrowserResults(pages[..p])
    {
      assert pages[..p + 1][..p] == pages[..p];
      var pageResults := CollectResults(pages[p], true);
      results := results + pageResults;
      p := p + 1;
    }
    assert pages[..p] == pages;
    if NoLinks(pages) {
      BrowserResultsWithoutLinks(pages);
    }
  }

  /** Every bid the browser search returns has the five basic fields, an
      absolute link and no blank value. */
  lemma {:induction false} BrowserResultsWellFormed(pages: seq<seq<ResultRow>>)
    ensures forall i :: 0 <= i < |BrowserResults(pages)| ==> WellFormedBasic(BrowserResults(pages)[i], true)
  {
    if pages != [] {
      var init := pages[..|pages| - 1];
      var last := pages[|pages| - 1];
      BrowserResultsWellFormed(init);
      if last != [] {
        CollectedWellFormed(last[1..], true);
      }
    }
  }

  /** No row of any page carries a link. This is every input of
      `search_bids_with_selenium` as written: `extract_link_from_cell`
      names `By`, which is bound only as a local of `setup_selenium` and of
      `search_bids_with_selenium`, so its first line raises NameError and
      its bare `except` returns None for every cell. */
  predicate NoLinks(pages: seq<seq<ResultRow>>) {
    forall p, i :: 0 <= p < |pages| && 0 <= i < |pages[p]| ==> pages[p][i].link.None?
  }

  /** Rows without links yield no bids. */
  lemma {:induction false} CollectedWithoutLinks(rows: seq<ResultRow>, viaBrowser: bool)
    requires forall i :: 0 <= i < |rows| ==> rows[i].link.None?
    ensures Collected(rows, viaBrowser) == []
  {
    if rows != [] {
      CollectedWithoutLinks(rows[..|rows| - 1], viaBrowser);
    }
  }

  /** As written, the browser search returns no bids at all, whatever the
      pages hold. */
  lemma {:induction false} BrowserResultsWithoutLinks(pages: seq<seq<ResultRow>>)
    requires NoLinks(pages)
    ensures BrowserResults(pages) == []
  {
    if pages != [] {
      var init := pages[..|pages| - 1];
      var last := pages[|pages| - 1];
      assert NoLinks(init) by {
        forall p, i | 0 <= p < |init| && 0 <= i < |init[p]| ensures init[p][i].link.None? {
          assert init[p] == pages[p];
        }
      }
      BrowserResultsWithoutLinks(init);
      if last != [] {
        forall i | 0 <= i < |last[1..]| ensures last[1..][i].link.None? {
          assert last[1..][i] == pages[|pages| - 1][i + 1];
        }
        CollectedWithoutLinks(last[1..], true);
      }
    }
  }

  function BrowserResults(pages: seq<seq<ResultRow>>): seq<Record> {
    if pages == [] then []
    else
      var last := pages[|pages| - 1];
      BrowserResults(pages[..|pages| - 1]) + (if last == [] then [] else Collected(last[1..], true))
  }
}
