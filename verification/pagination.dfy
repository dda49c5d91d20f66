/**
 Harvesting every page of one search's results (`scrape_all_pages` and `navigate_next_page`
 in ABQ/property_id.py).

 The browser is replaced by the finite list of result views one search offers: the view
 shown after the search, then the views reached by following "Next". Following "Next"
 succeeds exactly while a further view remains.
 */
module Pagination {
  import opened Parcels

  /** The result views of one search: the one shown first and those behind "Next". */
  datatype Pages = Pages(first: Table, following: seq<Table>)

  /** What the harvest does to the page, in order: extract the rows on screen, or try
      "Next" and note whether it succeeded. */
  datatype Step = Extract | NextPage(ok: bool)

  /** All views of a search, in the order "Next" reaches them. */
  function Views(pages: Pages): (v: seq<Table>)
    ensures |v| == |pages.following| + 1
  {
    [pages.first] + pages.following
  }

  /** `navigate_next_page` while view `shown` is on screen. */
  function NavigateNextPage(pages: Pages, shown: nat): bool
  {
    shown < |pages.following|
  }

  /** Reference harvest: every view's rows merged into the dictionary, view after view. */
  function HarvestAll(views: seq<Table>, data: Dataset): Dataset
  {
    if views == [] then data
    else ExtractParcelData(views[|views| - 1], HarvestAll(views[..|views| - 1], data))
  }

  /** Harvesting the views up to and including view i is harvesting those before it, then
      extracting view i. */
  lemma HarvestAllStep(views: seq<Table>, i: nat, data: Dataset)
    requires i < |views|
    ensures HarvestAll(views[..i + 1], data) == ExtractParcelData(views[i], HarvestAll(views[..i], data))
  {
    assert views[..i + 1][..i] == views[..i];
  }

  /** Harvesting never removes a parcel already in the dictionary. */
  lemma {:induction false} HarvestAllKeepsKeys(views: seq<Table>, data: Dataset)
    ensures data.Keys <= HarvestAll(views, data).Keys
  {
    if views != [] {
      HarvestAllKeepsKeys(views[..|views| - 1], data);
    }
  }

  /** The ids of the complete rows on any of the views. */
  function SeenIds(views: seq<Table>): set<string>
  {
    if views == [] then {}
    else
      var last := views[|views| - 1];
      SeenIds(views[..|views| - 1]) + (if last.Body? then Ids(last.rows) else {})
  }

  /** A harvest adds no parcel that is not the id of a complete row on one of the views, so
      from an empty dictionary it holds at most as many parcels as distinct ids were seen. */
  lemma {:induction false} HarvestAllIds(views: seq<Table>, data: Dataset)
    ensures HarvestAll(views, data).Keys <= data.Keys + SeenIds(views)
    ensures |HarvestAll(views, map[])| <= |SeenIds(views)|
  {
    if views != [] {
      var init := views[..|views| - 1];
      HarvestAllIds(init, data);
      HarvestAllIds(init, map[]);
      var last := views[|views| - 1];
      if last.Body? {
        WrittenAreIds(last.rows);
      }
    }
    SubsetSize(HarvestAll(views, map[]).Keys, SeenIds(views));
  }

  /** The log of `rounds` extract-then-"Next" rounds. "Next" succeeds in every round, except
      in the last one when the log is `finished`. */
  function RoundsLog(rounds: nat, finished: bool): seq<Step>
  {
    if rounds == 0 then []
    else RoundsLog(rounds - 1, false) + [Extract, NextPage(!finished)]
  }

  /** Positions in a rounds log: extraction at even positions, "Next" at odd ones, and it
      fails only at the very end of a finished log. */
  lemma {:induction false} RoundsLogShape(rounds: nat, finished: bool)
    ensures |RoundsLog(rounds, finished)| == 2 * rounds
    ensures forall i :: 0 <= i < 2 * rounds ==> (RoundsLog(rounds, finished)[i] == Extract <==> i % 2 == 0)
    ensures forall i :: 0 <= i < 2 * rounds ==>
      (RoundsLog(rounds, finished)[i] == NextPage(false) <==> finished && i == 2 * rounds - 1)
  {
    if rounds > 0 {
      RoundsLogShape(rounds - 1, false);
      var init := RoundsLog(rounds - 1, false);
      var log := RoundsLog(rounds, finished);
      forall i | 0 <= i < 2 * rounds
        ensures (log[i] == Extract <==> i % 2 == 0)
        ensures (log[i] == NextPage(false) <==> finished && i == 2 * rounds - 1)
      {
        if i < |init| {
          assert log[i] == init[i];
        }
      }
    }
  }

  /** The counts a rounds log implies: one extraction per round, and one successful "Next"
      per round except a finished log's last. */
  lemma {:induction false} RoundsLogCounts(rounds: nat, finished: bool)
    ensures multiset(RoundsLog(rounds, finished))[Extract] == rounds
    ensures multiset(RoundsLog(rounds, finished))[NextPage(true)] ==
      (if finished && rounds > 0 then rounds - 1 else rounds)
    ensures multiset(RoundsLog(rounds, finished))[NextPage(false)] ==
      (if finished && rounds > 0 then 1 else 0)
  {
    if rounds > 0 {
      RoundsLogCounts(rounds - 1, false);
      var init := RoundsLog(rounds - 1, false);
      assert multiset(RoundsLog(rounds, finished)) == multiset(init) + multiset{Extract, NextPage(!finished)};
    }
  }

  /** The loop of `scrape_all_pages`: extract the page on screen, then try "Next"; stop the
      first time navigation fails. The log records extractions and navigation attempts. */
  method ScrapeAllPages(pages: Pages, data: Dataset) returns (r: Dataset, log: seq<Step>)
    ensures r == HarvestAll(Views(pages), data)
    ensures log == RoundsLog(|Views(pages)|, true)
    ensures log[0] == Extract && log[|log| - 1] == NextPage(false)
    ensures multiset(log)[Extract] == multiset(log)[NextPage(true)] + 1
    ensures multiset(log)[NextPage(false)] == 1
  {
    var views := Views(pages);
    r := data;
    log := [];
    var shown := 0;
    while true
      invariant 0 <= shown < |views|
      invariant r == HarvestAll(views[..shown], data)
      invariant log == RoundsLog(shown, false)
      decreases |views| - shown
    {
      HarvestAllStep(views, shown, data);
      r := ExtractParcelData(views[shown], r);
      var moved := NavigateNextPage(pages, shown);
      log := log + [Extract, NextPage(moved)];
      assert log == RoundsLog(shown + 1, !moved);
      if !moved {
        assert views[..shown + 1] == views;
        RoundsLogShape(shown + 1, true);
        RoundsLogCounts(shown + 1, true);
        return;
      }
      shown := shown + 1;
    }
  }
}
