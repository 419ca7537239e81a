# vscode-pypi-utility in Dafny

A Dafny model of the logic inside the VS Code extension for pip requirements
files (`src/extension.ts`):

- **Package lookup with a permanent memo cache** (`fetchPackageData` and the
  module-wide `Cache` map). This is the `PackageCache` module. The class
  `Cache` holds the map, and its method `Fetch` is the lookup. Instead of
  making the HTTP request, `Fetch` takes the outcome the request would have
  (`Ok(data)`, `NotFound404` or `OtherError`), and a ghost log `requests`
  records each name it requests. The pure function `FetchStep`
  specifies one lookup, and `FetchAll` specifies a whole process lifetime of
  lookups. The lemmas about permanence and retries are stated over these two.
- **Package-name extraction** (the regular expressions
  `^([0-9a-zA-Z-_]+)(?:==)` of the completion handler and
  `^([0-9a-zA-Z-_]+)` of the hover handler). This is the `RequirementsLine`
  module. A scanner takes the longest leading run of name characters, and
  lemmas prove it equal, in both directions, to the patterns as written.
- **Version-list builder** of the completion handler: one entry per release
  with its first non-empty upload time, sorted in place with the handler's
  comparator, then mapped to items ranked by `padStart`. This is the
  `VersionList` module, with the item step in `Providers`. The JavaScript
  string operations it depends on are in `JsStrings`: string `<`, `split`,
  `join` (how an array becomes a string under `>`), `toString` and
  `padStart`.
- **The two handlers** `provideCompletionItems` and `provideHover`, as
  methods over a `Cache` (`Providers`).

The comparator is not a strict order in general. It compares upload times
when both entries have one and version keys otherwise (the version with
each `.` read as `,`, the string `v.split('.')` becomes), so it can form a
cycle (`ComparatorCycle`), and it never returns 0, so it also treats equal
entries inconsistently. The model calls the comparator consistent on a list
when it answers each pair of entries one way round only and is transitive
on them (`Consistent`). It proves three things about the sort:

- it always permutes the entries;
- it leaves neighbours in comparator order whenever the comparator is
  consistent on the input;
- when every release has a distinct upload time, the list is strictly
  descending by upload time. When no release has an upload time and the
  version keys are distinct, it is strictly descending by version key. This
  is not the order of the version texts: the untimed `2.0-rc1` comes before
  `2.0.1` although `2.0-rc1` is the smaller text, because `-` lies between
  `,` and `.` (`KeyOrderIsNotTextOrder`).

Take three releases: `1.0` (uploaded 2020-01-01), `2.0` (uploaded
2021-06-01) and `1.5` (no uploads). One might expect the list
`2.0, 1.0, 1.5`, newest upload first and the untimed release last. The
comparator, however, places the untimed `1.5` against both other releases by
version key, which puts it ahead of `1.0`. The comparator is consistent on
these three entries, and the only list of them in comparator order is
`2.0, 1.5, 1.0` (`MixedReleasesOrder`).

## Model

| member | source | states |
|---|---|---|
| PackageCache.FetchStep | src/extension.ts:22-38 | one lookup: a hit returns the stored value (a stored `null` too) and leaves the cache as it was; a request is made exactly on a miss; a success stores and returns the data, a 404 stores and returns `null`, any other failure returns `null` and leaves the cache unchanged; no entry is ever removed or overwritten and only the looked-up name can be added |
| PackageCache.Cache.constructor | src/extension.ts:20 | the cache starts empty, and no request has been made |
| PackageCache.Cache.Fetch | src/extension.ts:22-38 | the in-place lookup: the result and the new map in each of the four cases (hit, success, 404, other failure), agreement with `FetchStep`, and the request log grows by the name exactly on a miss |
| PackageCache.FetchTwice | src/extension.ts:24-35 | a second lookup right after one that cached the name (a hit, a success or a 404) returns the same result, makes no request and changes nothing |
| PackageCache.FetchAll | src/extension.ts:20-38 | over any sequence of lookups, every entry present at the start is still present with the same value |
| PackageCache.Permanence | src/extension.ts:24-35 | once a name is cached, every later lookup of it returns that value without a request, whatever the index would answer, and the entry stays |
| PackageCache.AtMostOneSettlingRequest | src/extension.ts:24-35 | after a request for a name that succeeded or got a 404, no later lookup of that name makes a request; only transient failures are retried |
| RequirementsLine.NameRunLength | src/extension.ts:49 | the greedy `[0-9a-zA-Z-_]+` run: every character it takes is a name character, and the character after it is not one |
| RequirementsLine.LinePrefix | src/extension.ts:48 | `substring(0, column)` is a prefix of the line, of length `column` clipped to the line |
| RequirementsLine.CompletionName | src/extension.ts:49 | the scan for `^([0-9a-zA-Z-_]+)(?:==)`: a name found is a name and the text starts with it followed by `==`; nothing is found when the text does not start with a name character (`CompletionNameCorrect` gives both directions) |
| RequirementsLine.HoverName | src/extension.ts:84 | the scan for `^([0-9a-zA-Z-_]+)`: a name is found exactly when the line starts with a name character, and it is a name the line starts with (`HoverNameCorrect` gives the exact capture) |
| RequirementsLine.CompletionNameCorrect | src/extension.ts:48-51 | the completion name is `n` exactly when the text before the cursor starts with `n` (non-empty, only name characters) followed by `==` |
| RequirementsLine.HoverNameCorrect | src/extension.ts:84-86 | the hover name is `n` exactly when the line starts with the non-empty name `n` and the next character, if any, is not a name character |
| RequirementsLine.CompletionIgnoresRest | src/extension.ts:49 | whatever follows `name==` (a partly typed version) does not change the name found |
| RequirementsLine.NoCompletionWithoutEquals | src/extension.ts:49-50 | the text triggers no completion exactly when it does not start with `name==` for any name |
| RequirementsLine.CompletionStableAsCursorMoves | src/extension.ts:48-49 | once the cursor is past `name==`, moving it right keeps the same name |
| RequirementsLine.CompletionNameIsHoverName | src/extension.ts:84 | a line that triggers completion for `n` shows `n` on hover too |
| JsStrings.Less | src/extension.ts:63-64 | JavaScript string `<`: a proper prefix comes first and nothing comes before the empty string; `LessIrreflexive`, `LessTrichotomy` and `LessTransitive` make it a strict total order |
| JsStrings.LessIrreflexive | src/extension.ts:64 | no string is less than itself |
| JsStrings.LessTrichotomy | src/extension.ts:64 | string `<` is total and asymmetric: exactly one of `a == b`, `a < b`, `b < a` |
| JsStrings.LessTransitive | src/extension.ts:64 | string `<` is transitive |
| JsStrings.LessAppend | src/extension.ts:68 | on equal-length strings with one character appended, the common part decides unless it is equal, and then the appended characters decide |
| JsStrings.Split | src/extension.ts:63 | `split` never returns an empty array, and no piece contains the separator |
| JsStrings.JoinSplit | src/extension.ts:63 | splitting on `.` and joining with `,` (array-to-string) replaces every `.` by `,` |
| JsStrings.JoinSplitRoundTrip | src/extension.ts:63 | joining the pieces with the separator they were split on gives the string back |
| JsStrings.DecimalString | src/extension.ts:68 | `i.toString()` is a non-empty run of decimal digits without a leading zero |
| JsStrings.PadStartShape | src/extension.ts:68 | `padStart(n, c)`: the result has `n` characters, or the input's length when that is longer (no truncation); the input is at its end and the pad character fills the rest |
| JsStrings.PadStartIsFixedDigits | src/extension.ts:68 | padding the decimal form of `i < 10^n` with `'0'` to `n` characters gives the `n` last digits of `i` |
| JsStrings.FixedDigitsOrder | src/extension.ts:68 | below `10^n`, the string order of `n`-digit forms is numeric order |
| JsStrings.SortText | src/extension.ts:68 | `i.toString().padStart(8, '0')`: at least 8 characters, all decimal digits, and for `i < 10^8` exactly the 8 last digits of `i` |
| JsStrings.SortTextOrder | src/extension.ts:68 | for ranks below `10^8` the rank string has exactly 8 characters, and the string order of two rank strings is the order of the ranks |
| VersionList.Time | src/extension.ts:69 | the item detail (the upload time, or `''` when it is falsy) is empty exactly when the upload time is absent or empty, and is the time otherwise |
| VersionList.FirstTimedIndex | src/extension.ts:58 | `find` stops at the first record with a non-empty `upload_time`: all earlier ones are empty |
| VersionList.UploadTimeOf | src/extension.ts:58 | a non-array release has no time; an array release has the time of its first record with a non-empty `upload_time`, and none exactly when all its records are empty |
| VersionList.EntryOf | src/extension.ts:56-59 | the entry pushed for one release keeps its version, and has an upload time exactly when the release is an array with a record whose `upload_time` is non-empty; that time is truthy |
| VersionList.EntriesOf | src/extension.ts:54-60 | exactly one entry per release key, in release order, keeping the version |
| VersionList.CollectEntries | src/extension.ts:54-60 | the push loop builds exactly that list of entries |
| VersionList.VersionKey | src/extension.ts:63 | `String(v.split('.'))`, the value `>` compares: as long as the version and without any `.` (`VersionKeyIsReplace` pins it down exactly) |
| VersionList.VersionKeyIsReplace | src/extension.ts:63 | comparing `v.split('.')` arrays compares the versions with each `.` read as `,`, of the same length |
| VersionList.Compare | src/extension.ts:61-65 | the comparator answers only -1 or 1, never 0 |
| VersionList.BeforeIrreflexive | src/extension.ts:61-65 | the comparator never puts an entry before itself |
| VersionList.ComparatorCycle | src/extension.ts:61-65 | three entries, one of them without an upload time, on which the comparator goes round in a circle, so it is not consistent on them |
| VersionList.BeforeByKey | src/extension.ts:61-65 | between two timed entries the comparator is descending upload-time order, and between two untimed ones descending version-key order |
| VersionList.UniformDistinctIsConsistent | src/extension.ts:61-65 | when all entries have an upload time (or none has) and their keys are distinct, the comparator answers each pair one way round only and is transitive, so it is consistent |
| VersionList.LaterIsSmaller | src/extension.ts:61-65 | in a list of one kind in comparator order, every later entry has a smaller key than every earlier one |
| VersionList.OrderedIsDescending | src/extension.ts:61-65 | for entries of one kind, neighbours in comparator order make the whole list strictly descending by key |
| VersionList.OneWaySwap | src/extension.ts:61 | swapping two entries keeps the comparator answering each pair one way round |
| VersionList.SwapKeepsRuns | src/extension.ts:61 | swapping an entry with a left neighbour that must follow it leaves the prefix before them sorted and the run from the moved entry on sorted |
| VersionList.InsertionSwap | src/extension.ts:61 | one swap of the insertion keeps its invariant: the comparator still answers each pair one way round, the entries before the moving one and from it up to `i` stay in comparator order |
| VersionList.InsertionDone | src/extension.ts:61 | when the insertion stops, the first `i + 1` entries are in comparator order |
| VersionList.InsertLast | src/extension.ts:61 | one pass of the insertion sort permutes the array and, when the comparator answers one way round and the first `i` entries are in comparator order, leaves the first `i + 1` in comparator order |
| VersionList.SortEntries | src/extension.ts:61-65 | the in-place sort permutes the array, and leaves neighbours in comparator order whenever the comparator is consistent on the input |
| VersionList.BuildVersionList | src/extension.ts:54-65 | the sorted list is a permutation of one entry per release; it is in comparator order when the comparator is consistent; with distinct upload times on every release it is strictly descending by upload time, and when no release has an upload time and the version keys are distinct it is strictly descending by version key |
| VersionList.MixedReleasesEntries | src/extension.ts:54-60 | the entries built for releases `1.0` and `2.0` with one upload each and `1.5` without uploads |
| VersionList.DottedKey | src/extension.ts:63 | the key of a version `d.e` is `d,e` |
| VersionList.MixedReleasesTimed | src/extension.ts:61-64 | `2.0` goes before `1.0` because its upload time is later |
| VersionList.MixedReleasesUntimed | src/extension.ts:61-63 | the untimed `1.5` is compared with both by version key: after `2.0` and before `1.0` |
| VersionList.KeyOrderIsNotTextOrder | src/extension.ts:62-63 | two untimed releases are ordered by version key, not by version text: `2.0-rc1` goes before `2.0.1` although it is the smaller text, and `1.0` and `1,0` have the same key |
| VersionList.PermutationOfThree | src/extension.ts:61 | a permutation of three entries has three entries, each one of the originals |
| VersionList.ChainOfThreeConsistent | src/extension.ts:61-65 | three entries the comparator ranks in one chain, each pair one way round, are a consistent input |
| VersionList.ChainOfThreeOrder | src/extension.ts:61-65 | such three entries have only one arrangement in comparator order, the chain |
| VersionList.MixedReleasesConsistent | src/extension.ts:54-65 | the comparator is consistent on the entries of the three releases above |
| VersionList.MixedReleasesOrder | src/extension.ts:54-65 | for those three releases the comparator is consistent, and the only list in comparator order is `2.0, 1.5, 1.0` |
| Providers.ToItems | src/extension.ts:66-71 | one item per entry |
| Providers.ItemsRankedInListOrder | src/extension.ts:66-71 | for up to `10^8` items every `sortText` has 8 characters, and the string order of the `sortText`s is the list order |
| Providers.ProvideCompletionItems | src/extension.ts:47-74 | without `name==` before the cursor: no items, and neither the cache nor the request log changes; otherwise one lookup of that name (the cache ends as `FetchStep` leaves it, and the request log grows by the name exactly when that lookup makes a request), no items when it yields `null`, and otherwise items made from a permutation of the release entries, in comparator order when the comparator is consistent, newest first when all upload times are present and distinct |
| Providers.ProvideHover | src/extension.ts:80-97 | without a leading name: empty contents, and neither the cache nor the request log changes; otherwise one lookup (the cache ends as `FetchStep` leaves it, and the request log grows by the name exactly when that lookup makes a request), and contents `[description]` exactly when it yields data, `[]` otherwise |

## Left out

- The HTTP request (`axios`) and `axios.isAxiosError`: network I/O. Each lookup takes the request's outcome as a parameter, and that outcome is used only on a miss.
- JSON parsing and validation of the index's response: a successful response is taken to be a well-formed `PypiResult`. A 2xx response whose body is not a package document (JSON `null`, say) is not modelled.
- The key order of `Object.entries` (integer-like keys first) and the uniqueness of object keys: the releases are a given sequence of `(version, value)` pairs, taken in that order.
- `null` and `undefined` upload times are both `None`. Every use of the field only tests its truthiness.
- RequirementsLine.LinePrefix counts `column` in characters, while VS Code's `position.character` counts UTF-16 code units. The name found is the same either way, because a name and `==` are ASCII at the start of the line.
- JavaScript compares strings by UTF-16 code units, and the model compares `char`s by code point. The two orders differ only between characters above U+FFFF and characters from U+E000 to U+FFFF, which do not appear in version strings or upload times.
- VersionList.SortEntries: an insertion sort, not V8's TimSort. On an input where the comparator is not a strict order (mixed timed and untimed entries that form a cycle, or equal keys), the model does not fix the order V8 would produce. It proves only that the result is a permutation.
- Providers.ItemsRankedInListOrder: ranking is proved only for up to `10^8` items. `padStart` does not truncate, so beyond that the rank strings are longer than 8 characters and their string order no longer follows the list.
- VS Code registration (`registerCompletionItemProvider`, `registerHoverProvider`, the `'='` trigger character), `activate`, `deactivate`, `context.subscriptions` and `console.log`: host-editor glue. Completion items and hover contents are plain values.
- Asynchronous interleaving of handlers, including two concurrent first lookups of one name that both miss the cache: each lookup is one atomic step.
