/**
 The memoising package lookup of src/extension.ts (`Cache` and
 `fetchPackageData`). The HTTP request is not performed here: each lookup is
 given the outcome the request would have had, and that outcome is only
 consulted when the name is not yet cached.
 */
module PackageCache {
  import opened Options
  import opened Pypi

  /** What the request for `https://pypi.org/pypi/<name>/json` would give. */
  datatype Outcome = Ok(data: PypiResult) | NotFound404 | OtherError

  /** A cached `null` is `None`: the index said the package does not exist. */
  type Entries = map<string, Option<PypiResult>>

  /** Every entry of `before` is still in `after`, with the same value. */
  ghost predicate Extends(before: Entries, after: Entries)
  {
    forall k :: k in before ==> k in after && after[k] == before[k]
  }

  /** The cache after one lookup, its result, and whether the request was made. */
  datatype Step = Step(entries: Entries, result: Option<PypiResult>, requested: bool)

  /** One call of `fetchPackageData(name)` when the request would give `outcome`. */
  function FetchStep(entries: Entries, name: string, outcome: Outcome): (s: Step)
    // nothing is ever removed or overwritten, and at most `name` is added
    ensures Extends(entries, s.entries)
    ensures s.entries.Keys <= entries.Keys + {name}
    // the request is made exactly on a miss
    ensures s.requested <==> name !in entries
    // a hit returns the stored value, whatever the index would say now
    ensures name in entries ==> s.result == entries[name] && s.entries == entries
    // whenever the name ends up cached, the result is what is cached
    ensures name in s.entries ==> s.entries[name] == s.result
    // the name stays uncached exactly after a transient failure, which returns null
    ensures name !in s.entries <==> name !in entries && outcome.OtherError?
    ensures name !in s.entries ==> s.result == None && s.entries == entries
    // a miss with a successful request stores and returns its data
    ensures name !in entries && outcome.Ok? ==> s.result == Some(outcome.data)
    // data comes back only from the cache or from a successful request
    ensures s.result.Some? && name !in entries ==> outcome == Ok(s.result.value)
    ensures outcome.NotFound404? ==> s.result == (if name in entries then entries[name] else None)
  {
    if name in entries then Step(entries, entries[name], false)
    else
      match outcome
      case Ok(data) => Step(entries[name := Some(data)], Some(data), true)
      case NotFound404 => Step(entries[name := None], None, true)
      case OtherError => Step(entries, None, true)
  }

  /** Looking a name up again right after a lookup that cached it changes nothing and gives the same result. */
  lemma FetchTwice(entries: Entries, name: string, first: Outcome, second: Outcome)
    requires name in entries || !first.OtherError?
    ensures var s1 := FetchStep(entries, name, first);
            var s2 := FetchStep(s1.entries, name, second);
            s2.result == s1.result && s2.entries == s1.entries && !s2.requested
  {
  }

  /** A lookup: the package name and the outcome its request would have. */
  datatype Request = Request(name: string, outcome: Outcome)

  /** The cache after a sequence of lookups, each lookup's result and whether it made a request. */
  datatype Run = Run(entries: Entries, results: seq<Option<PypiResult>>, requested: seq<bool>)

  /** A process lifetime: the lookups of `requests`, one after another, starting from `entries`. */
  function FetchAll(entries: Entries, requests: seq<Request>): (r: Run)
    ensures |r.results| == |requests| && |r.requested| == |requests|
    ensures Extends(entries, r.entries)
    decreases |requests|
  {
    if requests == [] then Run(entries, [], [])
    else
      var s := FetchStep(entries, requests[0].name, requests[0].outcome);
      var rest := FetchAll(s.entries, requests[1..]);
      Run(rest.entries, [s.result] + rest.results, [s.requested] + rest.requested)
  }

  /**
   Permanence: once a name is cached (data or "not found"), every later lookup
   of it returns the cached value without a request, and the entry stays.
   */
  lemma {:induction false} Permanence(entries: Entries, requests: seq<Request>, name: string)
    requires name in entries
    ensures var r := FetchAll(entries, requests);
            && name in r.entries && r.entries[name] == entries[name]
            && forall i :: 0 <= i < |requests| && requests[i].name == name ==>
                 r.results[i] == entries[name] && !r.requested[i]
    decreases |requests|
  {
    if requests != [] {
      var s := FetchStep(entries, requests[0].name, requests[0].outcome);
      Permanence(s.entries, requests[1..], name);
      var r := FetchAll(entries, requests);
      var rest := FetchAll(s.entries, requests[1..]);
      forall i | 0 <= i < |requests| && requests[i].name == name
        ensures r.results[i] == entries[name] && !r.requested[i]
      {
        if i > 0 {
          assert requests[1..][i - 1] == requests[i];
        }
      }
    }
  }

  /**
   At most one request per name settles it: after a request for a name that
   succeeded or was answered with 404, no later lookup of that name makes a
   request. Only transient failures are retried.
   */
  lemma {:induction false} AtMostOneSettlingRequest(entries: Entries, requests: seq<Request>)
    ensures var r := FetchAll(entries, requests);
            forall i, j :: (0 <= i < j < |requests| && requests[i].name == requests[j].name
                            && r.requested[i] && !requests[i].outcome.OtherError?) ==> !r.requested[j]
    decreases |requests|
  {
    if requests != [] {
      var s := FetchStep(entries, requests[0].name, requests[0].outcome);
      var r := FetchAll(entries, requests);
      AtMostOneSettlingRequest(s.entries, requests[1..]);
      if requests[0].name in s.entries {
        Permanence(s.entries, requests[1..], requests[0].name);
      }
      forall i, j | 0 <= i < j < |requests| && requests[i].name == requests[j].name
                    && r.requested[i] && !requests[i].outcome.OtherError?
        ensures !r.requested[j]
      {
        assert requests[1..][j - 1] == requests[j];
        if i > 0 {
          assert requests[1..][i - 1] == requests[i];
        }
      }
    }
  }

  /**
   The module-wide `Cache` map of the extension, with `fetchPackageData` as
   its method. `requests` records, in order, the names whose index entry was
   requested over the network.
   */
  class Cache {
    var entries: Entries
    ghost var requests: seq<string>

    /** `new Map()`: empty at activation, and nothing requested yet. */
    constructor ()
      ensures entries == map[] && requests == []
    {
      entries := map[];
      requests := [];
    }

    /** `fetchPackageData(name)`, the network's answer given as `outcome`. */
    method Fetch(name: string, outcome: Outcome) returns (r: Option<PypiResult>)
      modifies this
      ensures name in old(entries) ==> r == old(entries)[name] && entries == old(entries)
      ensures name !in old(entries) && outcome.Ok? ==>
                r == Some(outcome.data) && entries == old(entries)[name := Some(outcome.data)]
      ensures name !in old(entries) && outcome.NotFound404? ==>
                r == None && entries == old(entries)[name := None]
      ensures name !in old(entries) && outcome.OtherError? ==>
                r == None && entries == old(entries)
      // a request for `name` is made exactly on a miss
      ensures requests == old(requests) + (if name in old(entries) then [] else [name])
      ensures entries == FetchStep(old(entries), name, outcome).entries
      ensures r == FetchStep(old(entries), name, outcome).result
    {
      if name in entries {
        r := entries[name];
      } else {
        requests := requests + [name];
        match outcome
        case Ok(data) =>
          entries := entries[name := Some(data)];
          r := Some(data);
        case NotFound404 =>
          entries := entries[name := None];
          r := None;
        case OtherError =>
          r := None;
      }
    }
  }
}
