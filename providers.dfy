/**
 The two handlers the extension registers for requirements files:
 `provideCompletionItems`, which offers the versions of the package named
 before `==`, and `provideHover`, which shows the package's description.
 The editor's objects are plain values here, and the network answer for a
 lookup is a parameter.
 */
module Providers {
  import opened JsStrings
  import opened PackageCache
  import opened RequirementsLine
  import opened VersionList

  /** The fields of `vscode.CompletionItem` the handler sets (`labelText` is its `label`). */
  datatype CompletionItem = CompletionItem(labelText: string, sortText: string, detail: string)

  /** `versions.map((e, i) => ...)`: item `i` is ranked by `i` and shows the entry's time. */
  function ToItems(entries: seq<Entry>): (items: seq<CompletionItem>)
    ensures |items| == |entries|
  {
    seq(|entries|, i requires 0 <= i < |entries| =>
      CompletionItem(entries[i].version, SortText(i), Time(entries[i])))
  }

  /**
   The host orders items by `sortText`; for fewer than 10^8 items every rank
   string has eight characters and their string order is the list order.
   */
  lemma ItemsRankedInListOrder(entries: seq<Entry>)
    requires |entries| <= Pow10(8)
    ensures var items := ToItems(entries);
            forall i, j :: 0 <= i < |items| && 0 <= j < |items| ==>
              |items[i].sortText| == 8 && (Less(items[i].sortText, items[j].sortText) <==> i < j)
  {
    var items := ToItems(entries);
    forall i, j | 0 <= i < |items| && 0 <= j < |items|
      ensures |items[i].sortText| == 8 && (Less(items[i].sortText, items[j].sortText) <==> i < j)
    {
      SortTextOrder(i, j);
    }
  }

  /**
   `provideCompletionItems`: the items for the line `text` with the cursor at
   `column`, when a lookup of the package would get `outcome` from the index.
   The ghost `ranked` is the sorted version list the items are made from.
   */
  method ProvideCompletionItems(cache: Cache, text: string, column: nat, outcome: Outcome)
    returns (items: seq<CompletionItem>, ghost ranked: seq<Entry>)
    modifies cache
    // no `name==` before the cursor: no lookup, so no request, and no items
    ensures CompletionName(LinePrefix(text, column)).None? ==>
              items == [] && cache.entries == old(cache.entries) && cache.requests == old(cache.requests)
    // otherwise exactly one lookup of that name, which requests it at most once
    ensures CompletionName(LinePrefix(text, column)).Some? ==>
              var name := CompletionName(LinePrefix(text, column)).value;
              var step := FetchStep(old(cache.entries), name, outcome);
              && cache.entries == step.entries
              && cache.requests == old(cache.requests) + (if step.requested then [name] else [])
              && (step.result.None? ==> items == [])
              && (step.result.Some? ==>
                    var entries := EntriesOf(step.result.value.releases);
                    && items == ToItems(ranked)
                    && multiset(ranked) == multiset(entries)
                    && (Consistent(entries) ==> Ordered(ranked))
                    && (Uniform(entries, true) && DistinctKeys(entries, true) ==> Descending(ranked, true)))
  {
    ranked := [];
    var m := CompletionName(LinePrefix(text, column));
    if m.None? {
      items := [];
      return;
    }
    var result := cache.Fetch(m.value, outcome);
    if result.None? {
      items := [];
      return;
    }
    var versions := BuildVersionList(result.value.releases);
    ranked := versions;
    items := ToItems(versions);
  }

  /** `provideHover`: the hover contents for the line `line`. */
  method ProvideHover(cache: Cache, line: string, outcome: Outcome) returns (contents: seq<string>)
    modifies cache
    // no name at the start of the line: no lookup, so no request, and nothing shown
    ensures HoverName(line).None? ==>
              contents == [] && cache.entries == old(cache.entries) && cache.requests == old(cache.requests)
    // otherwise exactly one lookup of that name, which requests it at most once
    ensures HoverName(line).Some? ==>
              var name := HoverName(line).value;
              var step := FetchStep(old(cache.entries), name, outcome);
              && cache.entries == step.entries
              && cache.requests == old(cache.requests) + (if step.requested then [name] else [])
              && contents == (if step.result.Some? then [step.result.value.info.description] else [])
  {
    var m := HoverName(line);
    if m.None? {
      contents := [];
      return;
    }
    var result := cache.Fetch(m.value, outcome);
    if result.None? {
      contents := [];
    } else {
      contents := [result.value.info.description];
    }
  }
}
