# Parcel-prefix scraper: a Dafny model

This project models the logic of `ABQ/property_id.py`, a scraper for a county assessor's
property search. The scraper enumerates parcel-id prefixes and runs a wildcard search for
each one. It harvests every page of results into one dictionary keyed by parcel id. A prefix
is expanded to its ten one-digit extensions when its search reports results.

Everything the browser does is replaced by data:

- A search is a `Response`. It is either `Failed`, meaning an exception while opening the
  page, accepting the disclaimer, finding, clearing or typing into the search box, choosing
  the page size, or submitting the search; or
  `Answered(pages, message)`.
- The pages of one search are the view shown first plus the views reached by "Next".
  Following "Next" succeeds exactly while another view remains.
- A view's table body is either `Missing` (its lookup raises) or a list of rows. A row is
  the list of its cells' texts.
- The "no results" element after harvesting is either `Absent` (its lookup raises) or
  `Shown(text)`.
- The enumeration takes the driver as a function from prefix to `Response`. The real
  session carries state (the accepted disclaimer, cookies), but no prefix is searched twice
  in one run (`Prefixes.VisitDistinct`). So whatever a stateful driver answers during a run
  is some function of the prefix, and nothing is lost.

Modules:

- `Parcels` (`parcels.dfy`): the row loop of `extract_parcel_data`.
  - A row with no cells is skipped.
  - A row with five or more cells stores cells 1-4 under cell 0. Last write wins.
  - A row with one to four cells raises before storing anything. The handler outside the
    loop then drops the rest of that page. Rows stored before it stay stored.
- `Pagination` (`pagination.dfy`): the extract-then-"Next" loop of `scrape_all_pages`, and
  a reference harvest `HarvestAll`.
- `Search` (`search.dfy`): `perform_search`. It harvests first and reads the message second.
  Its Python return value is `True`, `False` or `None`.
- `Prefixes` (`prefixes.dfy`): `Visit`, the trace of prefixes `brute_force_search` searches,
  given a truthiness oracle. The lemmas characterise the trace without the recursion:
  - which prefixes it holds (an if-and-only-if);
  - that it is strictly increasing in lexicographic order, so the walk is pre-order with
    ascending digits and no prefix repeats;
  - pruning, the depth bound, and the count bound.
- `Enumeration` (`enumeration.dfy`): the recursive `brute_force_search`. It calls
  `PerformSearch` and threads the shared dictionary. It is proved to search exactly the
  trace `Visit` describes and to leave the dictionary as those searches' harvests applied
  in order.

Two behaviours of the code are easy to misread, and the model follows the code in each:

- Outcome of a search. A search is expanded only when the lookup of the "no results"
  element raises. If the element exists but shows a text other than `No results found`,
  `perform_search` falls off its end and returns `None`. That is falsy, so the branch is
  pruned. It is not treated as "results found".
- Short rows. A row with one to four cells is not merely skipped. It ends processing of its
  page, because the index error is caught outside the row loop.

The count bound is stated as `10^0 + 10^1 + ... + 10^(maxDepth - |base|)`, the number of
nodes of a full tree of that depth.

## Model

| member | source | states |
|---|---|---|
| `Parcels.Processed` | ABQ/property_id.py:33-40 | the row loop looks at rows up to the first row with one to four cells: every row before it is blank or complete, and the row it stops at is truncated |
| `Parcels.StoreRows` | ABQ/property_id.py:33-48 | after one page the dictionary's ids are the old ids plus the ids of the complete rows before the first truncated row, and no others |
| `Parcels.ExtractParcelData` | ABQ/property_id.py:27-50 | a page whose results table cannot be found stores nothing and leaves the dictionary as it was; otherwise the ids of the row loop's processed complete rows are added and nothing is removed |
| `Parcels.StoreRowsLastWriteWins` | ABQ/property_id.py:36-48 | a parcel id maps to the fields (cells 1-4) of the last processed complete row that carries it, whatever was stored before |
| `Parcels.StoreRowsKeepsOthers` | ABQ/property_id.py:43-48 | an id no processed complete row carries keeps its previous entry |
| `Parcels.StoreRowsIdempotent` | ABQ/property_id.py:33-48 | merging the same page a second time changes nothing |
| `Parcels.StoreRowsStopped` | ABQ/property_id.py:37-50 | once the first part of a split page has hit a row with one to four cells, the second part is ignored: the handler outside the loop ends the page |
| `Parcels.StoreRowsConcat` | ABQ/property_id.py:33-48 | a page split after a first part with no truncated row is the first part merged, then the second part merged from there |
| `Parcels.BlankRowSkipped` | ABQ/property_id.py:34-35 | inserting a row with no cells anywhere in a page changes nothing |
| `Parcels.TruncatedRowEndsPage` | ABQ/property_id.py:37-50 | a row with one to four cells stores nothing and drops every later row of its page, while the rows merged before it stay |
| `Parcels.WrittenAreIds` | ABQ/property_id.py:35-43 | every id a page writes is the first cell of one of its complete rows (definitional: a helper for the size bounds) |
| `Parcels.StoreRowsSize` | ABQ/property_id.py:42-48 | from an empty dictionary, a page leaves only ids of its complete rows, so at most as many entries as distinct such ids |
| `Pagination.HarvestAllKeepsKeys` | ABQ/property_id.py:66-74 | harvesting pages never removes a parcel already in the dictionary |
| `Pagination.HarvestAllIds` | ABQ/property_id.py:66-74 | a harvest adds only ids of complete rows seen on its pages; from empty, the dictionary size is at most the number of distinct ids seen |
| `Pagination.ScrapeAllPages` | ABQ/property_id.py:52-77 | every view is extracted in order; the log is one extract-then-"Next" round per view, starting with an extraction and ending on the first failed "Next"; extractions equal successful navigations plus one |
| `Pagination.RoundsLogShape` | ABQ/property_id.py:68-74 | in the loop's log extraction sits at even positions and "Next" at odd ones, and "Next" fails only at the very end of a finished log |
| `Pagination.RoundsLogCounts` | ABQ/property_id.py:68-74 | a log of n rounds has n extractions and n successful "Next" steps, or n - 1 and exactly one failed one when the loop finished |
| `Search.Outcome` | ABQ/property_id.py:104-118 | the return value is truthy exactly when the search ran and the "no results" lookup raised; it is False exactly when the search failed or the message reads `No results found`; any other text gives None |
| `Search.PerformSearch` | ABQ/property_id.py:79-118 | a failed search stores nothing, harvests nothing and returns False; for an answered one the log is the complete harvest of `scrape_all_pages` (one extract-then-"Next" round per view, "Next" failing only in the last) followed by the message check as its single last step, and the dictionary is that harvest whatever the message says |
| `Prefixes.Digit` | ABQ/property_id.py:131-132 | the character appended for a loop index is a decimal digit |
| `Prefixes.ChildrenMembership` | ABQ/property_id.py:131-133 | the digit loop from index i searches exactly what the searches of the prefixes extended by i..9 search |
| `Prefixes.VisitMembership` | ABQ/property_id.py:120-133 | a prefix is searched if and only if it extends the start by decimal digits and every prefix from the start up to it was found and shorter than the maximum depth |
| `Prefixes.VisitShape` | ABQ/property_id.py:120-133 | the first search is for the start itself; every later one is for the start extended by one or more digits |
| `Prefixes.VisitSorted` | ABQ/property_id.py:120-133 | the searched prefixes are strictly increasing in lexicographic order, i.e. a pre-order walk with children in ascending digit order |
| `Prefixes.ChildrenSorted` | ABQ/property_id.py:131-133 | the searches of the digit loop from any index are strictly increasing in lexicographic order |
| `Prefixes.VisitDistinct` | ABQ/property_id.py:131-133 | no prefix is searched twice |
| `Prefixes.Pruning` | ABQ/property_id.py:123-124 | once a searched prefix is not found, no prefix strictly extending it is searched |
| `Prefixes.DepthBound` | ABQ/property_id.py:126-128 | starting no longer than the maximum depth, no searched prefix is longer than it; starting at or past it, exactly one search happens |
| `Prefixes.VisitCount` | ABQ/property_id.py:120-133 | starting no longer than the maximum depth, the number of searches is at most 10^0 + ... + 10^(maxDepth - length of the start) |
| `Prefixes.ChildrenCount` | ABQ/property_id.py:131-133 | the digit loop from index i makes at most (10 - i) times the bound of one child subtree searches |
| `Prefixes.OneLevel` | ABQ/property_id.py:126-133 | a found start one digit short of the depth bound is followed by exactly its ten children in digit order and nothing else |
| `Prefixes.OneLevelExample` | ABQ/property_id.py:143-146 | starting from "1" with depth 2, when only "1" is found, the searches are "1", "10", ..., "19" |
| `Enumeration.ApplySearchesConcat` | ABQ/property_id.py:22-23 | the shared dictionary after two runs of searches in sequence is the second run applied to what the first left |
| `Enumeration.ApplySearchesKeepsKeys` | ABQ/property_id.py:43-48 | no search ever removes a parcel from the shared dictionary |
| `Enumeration.ApplySearchesIds` | ABQ/property_id.py:23-48 | the shared dictionary of a whole run gains only ids of complete rows seen on some view of some answered search |
| `Enumeration.ApplySearchesSize` | ABQ/property_id.py:23-48 | from an empty dictionary a whole run holds at most as many parcels as distinct complete-row ids were seen in the run |
| `Enumeration.BruteForceSearch` | ABQ/property_id.py:120-133 | the recursive search makes exactly the searches of the trace `Visit` characterises, with the truthiness of each search's return as oracle, and leaves the dictionary as those searches' harvests applied in trace order |

## Left out

- Browser control: creating the headless Chrome session, `driver.get`, waits, clicks,
  XPath lookups, typing, the page-size dropdown and the return key (lines 14-20, 56-59,
  83-101, 108). Each becomes data: a `Response`, the views of a search, a table that is
  `Missing` or a list of rows, and a message that is `Absent` or shown.
- Navigation failing with views left (a timeout on "Next", say). It is indistinguishable
  from the last view in the code. The view list is simply taken to end there.
- A "Next" that never fails. The views of a search are a finite list, so the model's
  pagination always ends. If "Next" stayed clickable on the last view, the loop of
  `scrape_all_pages` (lines 68-77) would never end; that run cannot be represented.
- The half-second pause between pages (line 77): it affects only timing.
- The CSV export through pandas and the output path (lines 135-140): a foreign library and
  file I/O.
- The module-level run with `base_prefix = "1"` and `max_depth = 7`, and `driver.quit()`
  (lines 143-152). The example lemma covers the same starting prefix at depth 2 instead.
- All `print` logging.
- Exceptions outside Python's `Exception` hierarchy, such as a keyboard interrupt or
  `SystemExit`. They end the run, except when raised at lines 108-111: the bare `except:`
  of line 112 catches them and `perform_search` returns True. Not modelled.
- Python's recursion limit. The script's depth of 7 is far below it, but
  `Enumeration.BruteForceSearch` accepts any `maxDepth`. Near a depth of 1000, a chain of
  found prefixes makes Python raise `RecursionError`, an ordinary `Exception`. Where it is
  raised decides what happens:
  - at lines 83-101, or by the calls at lines 104, 70 and 73 before their own handlers are
    entered, the outer handler (line 116) turns it into False and the branch is pruned;
  - inside `extract_parcel_data` or `navigate_next_page`, it is absorbed by their handlers
    (line 49 or 62): that page is cut short, or pagination ends;
  - at lines 108-110, the bare `except:` of line 112 turns it into True and the branch is
    expanded;
  - at the call on line 133, or in a handler's `print` (line 117), it ends the run.

  The model recurses without such a limit.
- ABQ/test_config.py is not part of this model. It only opens a browser and prints a page.
