/**
 `brute_force_search` (ABQ/property_id.py, lines 120-133) driving real searches: each prefix
 is searched through a driver, every page of its results is merged into the one parcel
 dictionary shared by the whole run, and the prefix is expanded when the search's return
 value is truthy and the prefix is shorter than the maximum depth.

 The driver is a function from the typed prefix to how the search went; the dictionary
 after the run is the searches' harvests applied in trace order.
 */
module Enumeration {
  import opened Parcels
  import opened Pagination
  import opened Search
  import opened Prefixes

  /** The oracle the enumeration consults: is the search's return value truthy? */
  function FoundBy(driver: string -> Response): string -> bool
  {
    p => Truthy(Outcome(driver(p)))
  }

  /** The dictionary after searching `prefixes` one after the other. */
  function ApplySearches(driver: string -> Response, prefixes: seq<string>, data: Dataset): Dataset
  {
    if prefixes == [] then data
    else Searched(driver(prefixes[|prefixes| - 1]), ApplySearches(driver, prefixes[..|prefixes| - 1], data))
  }

  /** Searching a then b is searching a, then searching b from where a left the dictionary. */
  lemma {:induction false} ApplySearchesConcat(driver: string -> Response, a: seq<string>, b: seq<string>, data: Dataset)
    ensures ApplySearches(driver, a + b, data) == ApplySearches(driver, b, ApplySearches(driver, a, data))
  {
    if b == [] {
      assert a + b == a;
    } else {
      var b' := b[..|b| - 1];
      assert (a + b)[..|a + b| - 1] == a + b';
      ApplySearchesConcat(driver, a, b', data);
    }
  }

  /** The run never loses a parcel: every id in the dictionary before is there after. */
  lemma {:induction false} ApplySearchesKeepsKeys(driver: string -> Response, prefixes: seq<string>, data: Dataset)
    ensures data.Keys <= ApplySearches(driver, prefixes, data).Keys
  {
    if prefixes != [] {
      var before := ApplySearches(driver, prefixes[..|prefixes| - 1], data);
      ApplySearchesKeepsKeys(driver, prefixes[..|prefixes| - 1], data);
      match driver(prefixes[|prefixes| - 1])
      case Failed =>
      case Answered(pages, _) =>
        HarvestAllKeepsKeys(Views(pages), before);
    }
  }

  /** The ids of the complete rows on every view of every answered search among `prefixes`. */
  function RunIds(driver: string -> Response, prefixes: seq<string>): set<string>
  {
    if prefixes == [] then {}
    else
      var resp := driver(prefixes[|prefixes| - 1]);
      RunIds(driver, prefixes[..|prefixes| - 1]) + (if resp.Answered? then SeenIds(Views(resp.pages)) else {})
  }

  /** The run adds no parcel that is not the id of a complete row seen on some view of some
      answered search. */
  lemma {:induction false} ApplySearchesIds(driver: string -> Response, prefixes: seq<string>, data: Dataset)
    ensures ApplySearches(driver, prefixes, data).Keys <= data.Keys + RunIds(driver, prefixes)
  {
    if prefixes != [] {
      var init := prefixes[..|prefixes| - 1];
      ApplySearchesIds(driver, init, data);
      match driver(prefixes[|prefixes| - 1])
      case Failed =>
      case Answered(pages, _) =>
        HarvestAllIds(Views(pages), ApplySearches(driver, init, data));
    }
  }

  /** From an empty dictionary, a run holds at most as many parcels as distinct ids were seen
      in the whole run. */
  lemma ApplySearchesSize(driver: string -> Response, prefixes: seq<string>)
    ensures |ApplySearches(driver, prefixes, map[])| <= |RunIds(driver, prefixes)|
  {
    ApplySearchesIds(driver, prefixes, map[]);
    SubsetSize(ApplySearches(driver, prefixes, map[]).Keys, RunIds(driver, prefixes));
  }

  /** `brute_force_search(prefix, maxDepth)` with the shared dictionary passed in and out.
      Returns the prefixes searched, in order, and the dictionary afterwards. */
  method BruteForceSearch(driver: string -> Response, prefix: string, maxDepth: int, data: Dataset)
    returns (trace: seq<string>, r: Dataset)
    ensures trace == Visit(FoundBy(driver), prefix, maxDepth)
    ensures r == ApplySearches(driver, trace, data)
    decreases Room(prefix, maxDepth)
  {
    var found := FoundBy(driver);
    var returned, log;
    r, returned, log := PerformSearch(driver(prefix), data);
    trace := [prefix];
    assert trace[..0] == [];
    assert found(prefix) == Truthy(returned);
    if !Truthy(returned) || |prefix| >= maxDepth {
      return;
    }
    assert Visit(found, prefix, maxDepth) == [prefix] + Children(found, prefix, maxDepth, 0);
    for i := 0 to 10
      invariant trace + Children(found, prefix, maxDepth, i) == Visit(found, prefix, maxDepth)
      invariant r == ApplySearches(driver, trace, data)
    {
      var sub, r';
      sub, r' := BruteForceSearch(driver, prefix + [Digit(i)], maxDepth, r);
      ApplySearchesConcat(driver, trace, sub, data);
      assert Children(found, prefix, maxDepth, i) == sub + Children(found, prefix, maxDepth, i + 1);
      trace, r := trace + sub, r';
    }
  }
}
