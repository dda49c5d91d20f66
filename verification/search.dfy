/**
 One wildcard search for a prefix and the value `perform_search` returns for it
 (ABQ/property_id.py, lines 79-118).

 What the browser does is given as a `Response`:
 - `Failed`: something raised while opening the search page, accepting the disclaimer,
   finding, clearing or typing into the search box, choosing the page size, or submitting
   the search (lines 83-101); the outer handler returns False and no page was harvested;
 - `Answered(pages, message)`: the search ran, every page is harvested, and only then is
   the "no results" message looked up.
 The function's Python result is one of True, False or None; the enumeration only asks
 whether it is truthy.
 */
module Search {
  import opened Parcels
  import opened Pagination

  /** The text the site shows when a search matches nothing. */
  const NoResultsText := "No results found"

  /** The "no results" element after harvesting: its lookup raises, or it shows a text. */
  datatype Message = Absent | Shown(text: string)

  /** How one search went, as seen through the browser. */
  datatype Response = Failed | Answered(pages: Pages, message: Message)

  /** The value `perform_search` returns. */
  datatype Returned = ReturnedTrue | ReturnedFalse | ReturnedNone

  /** Python truthiness of the returned value. */
  predicate Truthy(v: Returned) {
    v == ReturnedTrue
  }

  /** The return value of `perform_search`. The lookup raising means results were shown,
      the message text means none were; any other text falls off the end of the function. */
  function Outcome(resp: Response): (v: Returned)
    ensures Truthy(v) <==> resp.Answered? && resp.message.Absent?
    ensures v == ReturnedFalse <==> resp.Failed? || resp.message == Shown(NoResultsText)
  {
    match resp
    case Failed => ReturnedFalse
    case Answered(_, Absent) => ReturnedTrue
    case Answered(_, Shown(text)) => if text == NoResultsText then ReturnedFalse else ReturnedNone
  }

  /** The dictionary after one search: a failed search harvests nothing. */
  function Searched(resp: Response, data: Dataset): Dataset
  {
    match resp
    case Failed => data
    case Answered(pages, _) => HarvestAll(Views(pages), data)
  }

  /** What `perform_search` does after the search has run: a step of the harvest, or the
      look for the "no results" message. */
  datatype Action = Scrape(step: Step) | CheckMessage

  /** A harvest log as actions of the search. */
  function AsActions(steps: seq<Step>): (a: seq<Action>)
    ensures |a| == |steps| && forall i :: 0 <= i < |a| ==> a[i] == Scrape(steps[i])
  {
    seq(|steps|, i requires 0 <= i < |steps| => Scrape(steps[i]))
  }

  /** `perform_search` on a given response: harvest all pages, then classify. The log of an
      answered search is the whole harvest of `scrape_all_pages` (every view extracted, with
      "Next" tried after each and failing only after the last), and only then the message
      check. */
  method PerformSearch(resp: Response, data: Dataset) returns (r: Dataset, v: Returned, log: seq<Action>)
    ensures r == Searched(resp, data) && v == Outcome(resp)
    ensures resp.Failed? ==> log == []
    ensures resp.Answered? ==> log == AsActions(RoundsLog(|Views(resp.pages)|, true)) + [CheckMessage]
    ensures resp.Answered? ==> log[0] == Scrape(Extract) && log[|log| - 1] == CheckMessage
    ensures forall i :: 0 <= i < |log| - 1 ==> log[i] != CheckMessage
  {
    match resp
    case Failed =>
      r, v, log := data, ReturnedFalse, [];
    case Answered(pages, message) =>
      var harvest;
      r, harvest := ScrapeAllPages(pages, data);
      log := AsActions(harvest) + [CheckMessage];
      match message
      case Absent =>
        v := ReturnedTrue;
      case Shown(text) =>
        v := if text == NoResultsText then ReturnedFalse else ReturnedNone;
  }
}
