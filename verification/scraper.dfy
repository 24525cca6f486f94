/**
 The quote scraper (`NikkeiScraper`). A fetched page is reduced to what the
 scraper's XPath queries see of it: for each query, the texts of the nodes it
 matches, in document order. Each field is read through an ordered list of
 queries; the first query that matches any node decides the field, from its
 first node only. The live quote supplies the price and its change; the
 first row of the historical-data table, when it passes a plausibility band,
 supplies the day's open, high, low and close.
 */
module Scraper {

  import opened Wrappers
  import opened PhpText
  import opened Numbers

  /** The queries run against the live quote page. */
  datatype Query =
    | PriceByDataTest        // elements with data-test="instrument-price-last"
    | PriceByClass           // spans whose class mentions text-2xl or instrument-price_last
    | PriceByLastValueClass  // spans whose class mentions last-price-value
    | ChangeNode             // class instrument-price_change or data-test="instrument-price-change"
    | ChangePercentNode      // class instrument-price_change-percent or data-test="instrument-price-change-percent"

  /** The queries for the first body row of the historical-data table. */
  datatype TableQuery =
    | HistoricalDataTable    // table with data-test="historical-data-table"
    | FreezeColumnTable      // table whose class mentions freeze-column-w-1
    | HistoricalTbl          // table whose class mentions historicalTbl

  /** The live page as the queries see it. */
  type Page = Query -> seq<string>

  /** The texts of a table row's cells: date, close, open, high, low, then volume and change. */
  type Row = seq<string>

  /** The historical page as the table queries see it: the first body row of every matching table. */
  type HistoryPage = TableQuery -> seq<Row>

  /** The outcome of fetching a page: its parsed content, or a failure (a status other than 200, or an empty body). */
  datatype Fetched<D> = Fetched(doc: D) | FetchFailed

  /** The live quote, with the price spread into all four price fields until the historical row replaces them. */
  datatype PriceData = PriceData(
    close: real, open: real, high: real, low: real,
    change: Option<real>, changePercent: Option<real>)

  /** The day's prices read from the historical-data table. */
  datatype Ohlc = Ohlc(close: real, open: real, high: real, low: real)

  const PriceQueries: seq<Query> := [PriceByDataTest, PriceByClass, PriceByLastValueClass]
  const ChangeQueries: seq<Query> := [ChangeNode]
  const ChangePercentQueries: seq<Query> := [ChangePercentNode]
  const HistoryTableQueries: seq<TableQuery> := [HistoricalDataTable, FreezeColumnTable, HistoricalTbl]

  /** The plausibility band for a historical close: strictly between 1000 and 100000. */
  const BandLow: real := 1000.0
  const BandHigh: real := 100000.0

  predicate Plausible(close: real)
  {
    BandLow < close < BandHigh
  }

  /** The index of the first query in `qs` that matches at least one node. */
  function FirstHit<Q, N>(doc: Q -> seq<N>, qs: seq<Q>): (r: Option<nat>)
    ensures r.None? <==> forall j :: 0 <= j < |qs| ==> |doc(qs[j])| == 0
    ensures r.Some? ==> r.value < |qs| && |doc(qs[r.value])| > 0
                        && forall j :: 0 <= j < r.value ==> |doc(qs[j])| == 0
  {
    if |qs| == 0 then None
    else if |doc(qs[0])| > 0 then Some(0)
    else
      match FirstHit(doc, qs[1..])
      case None => None
      case Some(k) => Some(k + 1)
  }

  /** The first node matched by the first query in `qs` that matches anything. */
  function FirstNode<Q, N>(doc: Q -> seq<N>, qs: seq<Q>): (r: Option<N>)
    ensures r.None? <==> forall j :: 0 <= j < |qs| ==> |doc(qs[j])| == 0
    ensures forall k :: 0 <= k < |qs| && |doc(qs[k])| > 0 && (forall j :: 0 <= j < k ==> |doc(qs[j])| == 0)
                        ==> r == Some(doc(qs[k])[0])
  {
    match FirstHit(doc, qs)
    case None => None
    case Some(k) =>
      assert forall k' :: 0 <= k' < |qs| && |doc(qs[k'])| > 0 && (forall j :: 0 <= j < k' ==> |doc(qs[j])| == 0)
                          ==> k' == k;
      Some(doc(qs[k])[0])
  }

  /**
   A numeric field read through an ordered query list: the first query that
   matches any node decides, and only its first node is parsed. The result is
   that parse even when it fails; later queries are not consulted.
   */
  function ExtractField(page: Page, qs: seq<Query>): (r: Option<real>)
    ensures (forall j :: 0 <= j < |qs| ==> |page(qs[j])| == 0) ==> r.None?
    ensures FirstHit(page, qs).Some? ==> r == ParseNumber(Trim(page(qs[FirstHit(page, qs).value])[0]))
  {
    match FirstNode(page, qs)
    case None => None
    case Some(text) => ParseNumber(Trim(text))
  }

  function ExtractPrice(page: Page): Option<real>
  {
    ExtractField(page, PriceQueries)
  }

  function ExtractChange(page: Page): Option<real>
  {
    ExtractField(page, ChangeQueries)
  }

  function ExtractChangePercent(page: Page): Option<real>
  {
    ExtractField(page, ChangePercentQueries)
  }

  /**
   `parsePrice`: fails when no price can be extracted; otherwise the price
   fills close, open, high and low, and change and change percent are read
   independently (each may be absent).
   */
  function ParsePrice(page: Page): (r: Option<PriceData>)
    ensures r.None? <==> ExtractPrice(page).None?
    ensures r.Some? ==> var p := ExtractPrice(page).value;
                        r.value.close == p && r.value.open == p && r.value.high == p && r.value.low == p
    ensures r.Some? ==> r.value.change == ExtractChange(page)
                        && r.value.changePercent == ExtractChangePercent(page)
  {
    match ExtractPrice(page)
    case None => None
    case Some(p) => Some(PriceData(p, p, p, p, ExtractChange(page), ExtractChangePercent(page)))
  }

  /** The first body row of the first table query that finds one. */
  function LatestRow(hp: HistoryPage): Option<Row>
  {
    FirstNode(hp, HistoryTableQueries)
  }

  /**
   `parseHistoricalData`: the first row must have at least five cells and a
   close (cell 1) that parses inside the plausibility band; open, high and
   low (cells 2 to 4) fall back to the close when they do not parse.
   */
  function ParseHistoricalData(hp: HistoryPage): (r: Option<Ohlc>)
    ensures r.Some? <==>
              && LatestRow(hp).Some?
              && |LatestRow(hp).value| >= 5
              && ParseNumber(LatestRow(hp).value[1]).Some?
              && Plausible(ParseNumber(LatestRow(hp).value[1]).value)
    ensures r.Some? ==> Plausible(r.value.close)
    ensures r.Some? ==> var row := LatestRow(hp).value;
                        && Some(r.value.close) == ParseNumber(row[1])
                        && r.value.open == ParseNumber(row[2]).GetOr(r.value.close)
                        && r.value.high == ParseNumber(row[3]).GetOr(r.value.close)
                        && r.value.low == ParseNumber(row[4]).GetOr(r.value.close)
  {
    match LatestRow(hp)
    case None => None
    case Some(row) =>
      if |row| < 5 then None
      else
        match ParseNumber(row[1])
        case None => None
        case Some(close) =>
          if Plausible(close) then
            Some(Ohlc(close,
                      ParseNumber(row[2]).GetOr(close),
                      ParseNumber(row[3]).GetOr(close),
                      ParseNumber(row[4]).GetOr(close)))
          else None
  }

  /**
   `getCurrentPrice`: nothing when the live page cannot be fetched or holds no
   price. Otherwise the live quote, with close, open, high and low replaced by
   the historical row when that page was fetched and its row accepted; the
   change and change percent always come from the live page.
   */
  function GetCurrentPrice(live: Fetched<Page>, hist: Fetched<HistoryPage>): (r: Option<PriceData>)
    ensures r.None? <==> live.FetchFailed? || ParsePrice(live.doc).None?
    ensures r.Some? ==> r.value.change == ExtractChange(live.doc)
                        && r.value.changePercent == ExtractChangePercent(live.doc)
    ensures r.Some? && hist.Fetched? && ParseHistoricalData(hist.doc).Some? ==>
              var o := ParseHistoricalData(hist.doc).value;
              r.value.close == o.close && r.value.open == o.open
              && r.value.high == o.high && r.value.low == o.low
    ensures r.Some? && (hist.FetchFailed? || ParseHistoricalData(hist.doc).None?) ==>
              r == ParsePrice(live.doc)
  {
    match live
    case FetchFailed => None
    case Fetched(page) =>
      match ParsePrice(page)
      case None => None
      case Some(current) =>
        if hist.Fetched? && ParseHistoricalData(hist.doc).Some? then
          var o := ParseHistoricalData(hist.doc).value;
          Some(current.(close := o.close, open := o.open, high := o.high, low := o.low))
        else
          Some(current)
  }

  /**
   A parsed quote is determined by the three extracted fields, and by nothing
   else: two pages give the same quote exactly when they agree on the price
   and, when there is one, on the change and change percent.
   */
  lemma ParsePriceDependsOnExtractedFields(p1: Page, p2: Page)
    ensures ParsePrice(p1) == ParsePrice(p2) <==>
              && ExtractPrice(p1) == ExtractPrice(p2)
              && (ExtractPrice(p1).Some? ==>
                    ExtractChange(p1) == ExtractChange(p2) && ExtractChangePercent(p1) == ExtractChangePercent(p2))
  {
  }

  /**
   Where a merged quote's prices come from: each of close, open, high and low
   is either the live price or was read from a fetched historical page whose
   close lies in the plausibility band; an implausible close is always the
   live price.
   */
  lemma CurrentPriceSources(live: Fetched<Page>, hist: Fetched<HistoryPage>)
    requires GetCurrentPrice(live, hist).Some?
    ensures var r := GetCurrentPrice(live, hist).value;
            var p := ExtractPrice(live.doc).value;
            && (r.close == p || (hist.Fetched? && Plausible(r.close)))
            && (r.open == p || hist.Fetched?)
            && (r.high == p || hist.Fetched?)
            && (r.low == p || hist.Fetched?)
            && (!Plausible(r.close) ==> r.close == p && r.open == p && r.high == p && r.low == p)
  {
  }

  /**
   The historical page never affects whether there is a quote, nor its change
   and change percent.
   */
  lemma CurrentChangeIgnoresHistory(live: Fetched<Page>, h1: Fetched<HistoryPage>, h2: Fetched<HistoryPage>)
    ensures GetCurrentPrice(live, h1).Some? <==> GetCurrentPrice(live, h2).Some?
    ensures GetCurrentPrice(live, h1).Some? ==>
              && GetCurrentPrice(live, h1).value.change == GetCurrentPrice(live, h2).value.change
              && GetCurrentPrice(live, h1).value.changePercent == GetCurrentPrice(live, h2).value.changePercent
  {
  }

  /**
   Only the queries up to and including the first one that matches are
   consulted: two pages that agree on those give the same field.
   */
  lemma ExtractFieldReadsOnlyUpToFirstHit(p1: Page, p2: Page, qs: seq<Query>, k: nat)
    requires k < |qs| && |p1(qs[k])| > 0
    requires forall j :: 0 <= j < k ==> |p1(qs[j])| == 0
    requires forall j :: 0 <= j <= k ==> p1(qs[j]) == p2(qs[j])
    ensures ExtractField(p1, qs) == ExtractField(p2, qs)
  {
    assert forall j :: 0 <= j < k ==> |p2(qs[j])| == 0 by {
      forall j | 0 <= j < k
        ensures |p2(qs[j])| == 0
      {
        assert p1(qs[j]) == p2(qs[j]);
      }
    }
  }

  /**
   A selector that matches decides the price even when its text does not
   parse: a first selector matching "N/A" hides a second one matching "39500".
   */
  lemma MatchedSelectorDecidesEvenWhenUnparsable(page: Page)
    requires page(PriceByDataTest) == ["N/A"]
    requires page(PriceByClass) == ["39500"]
    ensures ExtractPrice(page) == None
    ensures ParsePrice(page) == None
  {
    NotAvailablePrice(page, page(PriceByDataTest)[0]);
  }

  lemma NotAvailablePrice(page: Page, t: string)
    requires page(PriceByDataTest) == [t] && t == "N/A"
    ensures ExtractPrice(page) == None
  {
    FirstSelectorPrice(page, t);
    TrimOfNotAvailable(t);
    ParseNumberNotAvailableExample(t);
  }

  lemma TrimOfNotAvailable(t: string)
    requires t == "N/A"
    ensures Trim(t) == t
  {
    TrimCharsOfTrimmed(t, Whitespace);
  }

  /** When the first price selector matches nothing, the second one supplies the price. */
  lemma PriceFallsBackToSecondSelector(page: Page, text: string)
    requires page(PriceByDataTest) == []
    requires page(PriceByClass) == [text]
    ensures ExtractPrice(page) == ParseNumber(Trim(text))
  {
    assert PriceQueries[0] == PriceByDataTest && PriceQueries[1] == PriceByClass;
  }

  /** The historical tables are tried in order: the data-test table, then freeze-column-w-1, then historicalTbl. */
  lemma HistoryTableOrder(hp: HistoryPage)
    ensures |hp(HistoricalDataTable)| > 0 ==> LatestRow(hp) == Some(hp(HistoricalDataTable)[0])
    ensures |hp(HistoricalDataTable)| == 0 && |hp(FreezeColumnTable)| > 0 ==>
              LatestRow(hp) == Some(hp(FreezeColumnTable)[0])
    ensures |hp(HistoricalDataTable)| == 0 && |hp(FreezeColumnTable)| == 0 && |hp(HistoricalTbl)| > 0 ==>
              LatestRow(hp) == Some(hp(HistoricalTbl)[0])
    ensures |hp(HistoricalDataTable)| == 0 && |hp(FreezeColumnTable)| == 0 && |hp(HistoricalTbl)| == 0 ==>
              LatestRow(hp) == None
  {
    var qs := HistoryTableQueries;
    assert qs[0] == HistoricalDataTable && qs[1] == FreezeColumnTable && qs[2] == HistoricalTbl;
  }

  /** A historical close of 500 is outside the band, so the row is rejected. */
  lemma ImplausibleHistoricalCloseRejected(hp: HistoryPage, row: Row)
    requires hp(HistoricalDataTable) == [row]
    requires |row| >= 5 && row[1] == "500"
    ensures ParseHistoricalData(hp) == None
  {
    HistoryTableOrder(hp);
    ParseNumberOfDigits("500");
    assert DigitsValue("500") == 500 by {
      assert "500"[..2] == "50";
      assert "50"[..1] == "5";
    }
  }

  /** A historical close of 39500 is inside the band and becomes the day's close. */
  lemma PlausibleHistoricalCloseAccepted(hp: HistoryPage, row: Row)
    requires hp(HistoricalDataTable) == [row]
    requires |row| >= 5 && row[1] == "39500"
    ensures ParseHistoricalData(hp).Some? && ParseHistoricalData(hp).value.close == 39500.0
  {
    HistoryTableOrder(hp);
    ParseNumberOfDigits("39500");
    assert DigitsValue("39500") == 39500 by {
      DigitsValueSnoc("3", '9');
      assert "3" + ['9'] == "39";
      DigitsValueSnoc("39", '5');
      assert "39" + ['5'] == "395";
      DigitsValueSnoc("395", '0');
      assert "395" + ['0'] == "3950";
      DigitsValueSnoc("3950", '0');
      assert "3950" + ['0'] == "39500";
    }
  }

  /**
   The live price is never banded: with the historical page unavailable, a
   live price of 500 is returned as the close.
   */
  lemma LivePriceIsNotBanded(page: Page)
    requires page(PriceByDataTest) == ["500"]
    ensures GetCurrentPrice(Fetched(page), FetchFailed).Some?
    ensures GetCurrentPrice(Fetched(page), FetchFailed).value.close == 500.0
  {
    PriceOfFiveHundred(page, page(PriceByDataTest)[0]);
  }

  lemma PriceOfFiveHundred(page: Page, t: string)
    requires page(PriceByDataTest) == [t] && t == "500"
    ensures ExtractPrice(page) == Some(500.0)
  {
    FirstSelectorPrice(page, t);
    TrimOfFiveHundred(t);
    FiveHundred(t);
  }

  lemma TrimOfFiveHundred(t: string)
    requires t == "500"
    ensures Trim(t) == t
  {
    TrimCharsOfTrimmed(t, Whitespace);
  }

  lemma FiveHundred(t: string)
    requires t == "500"
    ensures ParseNumber(t) == Some(500.0)
  {
    ParseNumberOfDigits("500");
    assert DigitsValue("500") == 500 by {
      assert "500"[..2] == "50";
      assert "50"[..1] == "5";
    }
  }

  lemma FirstSelectorPrice(page: Page, text: string)
    requires page(PriceByDataTest) == [text]
    ensures ExtractPrice(page) == ParseNumber(Trim(text))
  {
    assert PriceQueries[0] == PriceByDataTest;
  }
}
