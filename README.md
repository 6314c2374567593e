# RegistrySearcher — a Dafny model of the search engine

RegistrySearcher scans the Windows registry for every value whose name, or
whose string payload, contains a search term (compared in lower case). It
walks the sub-keys of the hives `HKEY_CURRENT_USER`, `HKEY_LOCAL_MACHINE` and
`HKEY_USERS` recursively. Only keys with no sub-keys have their values
scanned. An exception on one sub-key is counted and skipped. At the end,
matches whose key path contains a blacklist entry are dropped, the search is
marked finished, and one report is appended to a process-wide history.

This project models that engine, `RegistrySearcher.cs`, and proves what it does.

- `text.dfy` (`Text`): `ToLower` as ASCII lower-casing, and ordinal
  `Contains`, proved equal to "occurs at some index".
- `registry.dfy` (`Registry`): the registry as a finite tree. A `Key` holds
  the answer of each API call the searcher makes on it: `Name`,
  `GetValueNames` (with each name's `GetValue` answer), `SubKeyCount` and
  `GetSubKeyNames` (with each name's `OpenSubKey` answer). Every call may
  instead throw (`Throws`, `ListThrows`, `OpenThrows`). `OpenSubKey` may also
  return null (`NullKey`).
- `matching.dfy` (`Matching`): the match test of line 79, the `WorkResult`
  record, and the value loop of `GetValue` as the function `ScanFrom`.
- `walk.dfy` (`Walk`): `FindMatches` as functions (`Find`, `WalkFrom`,
  `Visit`). Each returns what the call adds to the match list and to the
  failed-key counter. Lemmas cover soundness, completeness, failure
  isolation and the early return on a null sub-key.
- `hives.dfy` (`Hives`): the hive walks, one after another.
- `filter.dfy` (`Filtering`): the blacklist filter and its properties.
- `searcher.dfy` (`Search`): the `RegistrySearcher` class, with the fields
  `_failedKeyAccess`, `_foundMatches` and `Finished`, and methods `GetValue`,
  `FindMatches`, `Filter`, `ConstructJson` and `StartSearch`. Each method
  updates those fields in place. Each is proved against the functions above:
  its `ensures` gives the new field values as the old ones plus what the
  walk adds. The static `History` list is a `History` object that is passed in.

Exceptions become results. `GetValue` returns whether a `GetValue` call
threw. `FindMatches` returns whether `GetSubKeyNames` threw out of it.
`StartSearch` returns `None` when an exception escaped a hive walk. In the
source, `Task.WhenAll` rethrows that exception after every hive task has
ended, and `ConstructJson` is never reached.

Two behaviours of the code are modelled as written:
- A sub-key whose `OpenSubKey` returns null makes `FindMatches` return. Later
  siblings are skipped, and no failure is counted (line 62).
- When a `GetValue` call throws, the records appended for earlier values of
  that key stay in the list, and one failure is counted (lines 76-80 with 59-69).

## Model

| member | source | states |
|---|---|---|
| `Text.ToLower` | RegistrySearcher.cs:79 | `ToLower` keeps the length, lowers each character, and leaves no upper-case letter |
| `Text.ContainsIff` | RegistrySearcher.cs:79 | ordinal `Contains(s, t)` holds exactly when `t` occurs in `s` at some index |
| `Text.UpperNeverInLowered` | Program.cs:21-22 | a string with an upper-case letter is never contained in a lower-cased string |
| `Matching.UpperTargetNeverMatches` | Program.cs:21-23 | a target with an upper-case letter matches no value, which is why the caller lower-cases the target |
| `Matching.ScanFrom` | RegistrySearcher.cs:74-82 | every record the value loop appends has the key's full path, and the name and payload, as written, of a readable value of that key that matches |
| `Matching.ScanComplete` | RegistrySearcher.cs:76-81 | when every value reads, the loop does not throw and records every matching value (with `ScanFrom`, a record is appended iff the value matches) |
| `Matching.ScanStopsAtThrow` | RegistrySearcher.cs:76-80 | a `GetValue` call that throws ends the loop with an exception; records of the values before it stay, and nothing after it is recorded |
| `Walk.VisitSound` | RegistrySearcher.cs:59-69 | any record one sub-key's `try` block adds comes from that sub-key if it has no sub-keys, or from a key below it with no sub-keys |
| `Walk.WalkFromSound` | RegistrySearcher.cs:57-71 | every record the sibling loop adds comes from a matching value of a key below, with `SubKeyCount` 0 |
| `Walk.FindSound` | RegistrySearcher.cs:55-72 | every record `FindMatches` adds comes from a matching value of a key below the start key with `SubKeyCount` 0, so keys with sub-keys are never value-scanned |
| `Walk.VisitComplete` | RegistrySearcher.cs:59-66 | on a tree where nothing fails, one sub-key's pass counts no failure and records every value the sub-key or a key below it would emit |
| `Walk.WalkFromComplete` | RegistrySearcher.cs:57-71 | when nothing below the key fails, the sibling loop counts no failure and records every emitted value of every later sibling's subtree |
| `Walk.FindExact` | RegistrySearcher.cs:55-81 | when the start key's sub-keys list and nothing below it fails, `FindMatches` completes, counts no failure, and appends a record iff a key below with no sub-keys holds a matching value it describes |
| `Walk.SameSuffixSameWalk` | RegistrySearcher.cs:57-71 | what the sibling loop adds from index `i` on depends only on the sub-keys from `i` on |
| `Walk.WalkSplits` | RegistrySearcher.cs:57-71 | when no sub-key from `l` to `i` opens to null, the loop from `l` adds the siblings before `i`, then sub-key `i`'s pass, then the siblings after it |
| `Walk.SameSpan` | RegistrySearcher.cs:57-70 | two keys whose sub-keys agree from `l` up to `i` add the same over that span |
| `Walk.FailureIsolated` | RegistrySearcher.cs:57-70 | the sibling loop splits around any non-null sub-key: replacing it by any other non-null outcome changes only its own pass, so the siblings before and after it add the same; a sub-key whose `OpenSubKey` throws adds exactly one failure and no record |
| `Walk.NullHidesLaterSiblings` | RegistrySearcher.cs:61-62 | a sub-key that opens to null adds nothing and ends the loop; two keys whose sub-keys agree up to it walk alike, whatever follows it |
| `Hives.RunHivesStep` | RegistrySearcher.cs:34-41 | one more hive walk adds its records after the earlier ones, adds its failures, and escapes if it or an earlier walk escaped |
| `Hives.RunHivesAppend` | RegistrySearcher.cs:34-41 | walking two lists of hives one after the other equals walking their concatenation |
| `Hives.HiveOrderIrrelevant` | RegistrySearcher.cs:34-41 | any order of the hive walks gives the same records with the same multiplicities, the same failure count and the same escape verdict |
| `Filtering.Filtered` | RegistrySearcher.cs:95-102 | every kept record is an input record whose lower-cased key path contains no blacklist entry |
| `Filtering.FilterCounts` | RegistrySearcher.cs:97-101 | a record with a blacklisted path is removed entirely; any other record is kept as often as it occurs |
| `Filtering.FilterKeepsOrder` | RegistrySearcher.cs:97-101 | the kept records stay in their relative order |
| `Filtering.FilterIdempotent` | RegistrySearcher.cs:95-102 | filtering an already filtered list changes nothing |
| `Filtering.UpperEntryNeverApplies` | RegistrySearcher.cs:99-100 | a blacklist entry with an upper-case letter removes nothing, which is why the entries at Program.cs:9 are lower case |
| `Search.History.constructor` | RegistrySearcher.cs:14 | the history starts empty |
| `Search.RegistrySearcher.constructor` | RegistrySearcher.cs:22-27 | keeps the target and blacklist; the list starts empty, the counter at 0, `Finished` false |
| `Search.RegistrySearcher.GetValue` | RegistrySearcher.cs:74-82 | appends exactly what `ScanFrom` gives to the match list and reports whether a read threw; nothing else changes |
| `Search.RegistrySearcher.FindMatches` | RegistrySearcher.cs:55-72 | appends exactly what `Find` gives to the list and adds its failures to the counter; both only grow; an escaping `GetSubKeyNames` exception changes nothing |
| `Search.RegistrySearcher.Filter` | RegistrySearcher.cs:95-103 | replaces the match list by `Filtered` of it |
| `Search.RegistrySearcher.ConstructJson` | RegistrySearcher.cs:84-93 | filters, then sets `Finished`, with no blacklisted record left; appends exactly one report to the history, whose count equals the filtered list's length |
| `Search.RegistrySearcher.StartSearch` | RegistrySearcher.cs:31-52 | walks every hive; if a walk escaped it fails without filtering, finishing or reporting; otherwise the list is the filtered old list plus all records, and one report is added |

## Left out

- Concurrency: the hive tasks (`Task.Run`, `Task.WhenAll`) run one after another here. The match list is a plain `List` (RegistrySearcher.cs:18) and the counter an `int`; the unsynchronised `Add` (line 80) and `_failedKeyAccess++` (line 69) across threads, and the interleaving of records between hives, are not modelled. `Hives.HiveOrderIrrelevant` covers reordering whole hive walks only.
- The Windows registry API: `OpenBaseKey`, `OpenSubKey`, `GetSubKeyNames`, `GetValueNames`, `SubKeyCount` and `GetValue` are answers stored in the tree. These are foreign OS calls. A hive whose `OpenBaseKey` throws is represented by a root whose `GetSubKeyNames` throws; the effect is the same.
- Registry changes during the search: each call has one fixed answer per key. Any mix of answers, including a `SubKeyCount` that disagrees with `GetSubKeyNames`, can be expressed, but not a change between two calls on one key.
- Handle disposal (`using`): there is nothing to release in the model.
- JSON rendering (`JsonConvert`, the `[JsonProperty]` names): library serialisation. A history entry is the structured `Report` (records, their count, the counter), not the rendered text, and the `_json` field is not kept.
- Elapsed time (`startTime`, `_searchTime`, the seconds formatting): clock and floating-point values.
- `SaveResult`: file I/O and culture-dependent date formatting.
- `ToLower` culture rules: lower-casing covers ASCII letters only.
- `WorkResult` setters: the model's records are immutable values, and the source never uses the setters.
- Search.RegistrySearcher.FindMatches: does not model 32-bit wrap-around of `_failedKeyAccess`, which would need more than 2^31 - 1 failed keys.
- Program.cs: the console UI, prompts, the `Timer` polling of `Finished`, and the restart recursion. It also calls `DoWork` and `SaveResultIntoFile`, which `RegistrySearcher.cs` does not define. Its lower-casing of the target and its lower-case blacklist show up only in `Matching.UpperTargetNeverMatches` and `Filtering.UpperEntryNeverApplies`.
