/** The numbering loop of `process_urls` (main.py): one lookup per query,
    in input order, each record stamped with its 1-based position as "SNO"
    and appended to the result list. */
module Batch {
  import opened Scraper

  /** A result row: the lookup record with the "SNO" key added. */
  datatype Row = Row(sno: int, url: string, category: string, subCategory: string)

  /** `result['SNO'] = index`: the record's fields, plus its number. */
  function Stamp(r: Record, index: int): (row: Row)
    ensures row.sno == index
    ensures row.url == r.url && row.category == r.category && row.subCategory == r.subCategory
  {
    Row(index, r.url, r.category, r.subCategory)
  }

  /** The loop over `enumerate(urls, 1)`. `lookup` stands for the browser:
      what the page shows when a query is submitted. The result has one row
      per query, in input order; row `i` (counting from 0) carries number
      `i + 1`, the query `urls[i]` and the lookup's record for it, so the
      numbers increase strictly from 1. */
  method ProcessUrls(urls: seq<string>, lookup: string -> Observation) returns (results: seq<Row>)
    ensures |results| == |urls|
    ensures forall i | 0 <= i < |urls| ::
              results[i] == Stamp(RecordFor(urls[i], lookup(urls[i])), i + 1)
    ensures forall i | 0 <= i < |results| :: results[i].sno == i + 1 && results[i].url == urls[i]
    ensures forall i, j | 0 <= i < j < |results| :: results[i].sno < results[j].sno
  {
    results := [];
    var index := 1;
    while index <= |urls|
      invariant 1 <= index <= |urls| + 1
      invariant |results| == index - 1
      invariant forall i | 0 <= i < |results| ::
                  results[i] == Stamp(RecordFor(urls[i], lookup(urls[i])), i + 1)
    {
      var url := urls[index - 1];
      var result := SearchAndExtract(url, lookup(url));
      results := results + [Stamp(result, index)];
      index := index + 1;
    }
  }
}
