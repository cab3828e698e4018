/** A bid record of kobe_bid_scraper.py: the Python `dict` from field name
    to text that the scraper builds, enriches and saves. */
module BidRecord {

  type Record = map<string, string>

  const Name: string := "工事名"
  const OpenedAt: string := "開札日時"
  const BidMethod: string := "入札方法"
  const CaseNumber: string := "案件番号"
  const Bidders: string := "参加数"
  const AwardedPrice: string := "決定金額"
  const PlannedPrice: string := "予定価格"
  const FloorPrice: string := "最低制限価格"
  const Contractor: string := "契約相手"
  const Link: string := "link"

  /** The eight output columns, in file order; `main` requires the same
      eight fields, in the same order, after fetching the details. */
  const Columns: seq<string> :=
    [Name, OpenedAt, BidMethod, Bidders, AwardedPrice, PlannedPrice, FloorPrice, Contractor]

  /** `row.get(key, "")`. */
  function Get(r: Record, key: string): string {
    if key in r then r[key] else ""
  }

  lemma ColumnsDistinct()
    ensures forall i, j :: 0 <= i < j < |Columns| ==> Columns[i] != Columns[j]
  {
  }
}
