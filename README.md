# Repository query layer and response helper, modelled in Dafny

This project models two parts of a Laravel CRUD backend.

**The base repository** (`app/Repositories/Src/BaseRepository.php`) is the shared data-access class of every entity. It has two halves:

- **A request-driven search interpreter.** It turns the flat bag of request parameters into calls on an Eloquent query builder. It runs four stages, in this order:
  - `applySorts`: the `sort` list of `field:dir` entries, or the configured default order;
  - `includeCounts`: the `count`/`with_count` list of aggregates;
  - `includeContains`: the `contain` list of relations to eager-load;
  - `buildSearchParams`: exact filters on allow-listed keys, plus a suffix grammar (`_not`, `_gt`, `_lt`, `_gte`, `_lte`, `_like`, `_in`, `_notIn`, `_isNull`, `_isNotNull`) checked against the same allow-list.
- **A clause accumulator.** The fields `wheres`, `whereIns`, `orderBys`, `take` and `with` are filled fluently. `setClauses` replays them onto a fresh builder and `unsetClauses` clears some of them. Each terminal operation decides whether to apply the accumulated state, whether to clear it, and in which order.

**The response helper** (`app/Utils/Responsible.php`) is a trait used by the controllers. It is a small state machine over `statusCode`, `data` and `error`. Each response kind sets a status and sometimes a message, then responds with the first payload that is not null. The status persists from one call to the next.

## How the model is built

- **The builder** (module `Builder`) is the log of calls made on it, a `seq<Call>`. A terminal operation returns an `Execution`: the log plus the terminal call (`get`, `firstOrFail`, `findOrFail`, `paginate`, `delete`, …). Writes made through the model (`create`, `update`, `delete`, `destroy`) are `Write` values.
- **The search stages** (module `Search`) are pure functions from the request to the calls each stage emits: `SortCalls`, `CountCalls`, `ContainCalls`, `FilterCalls`, and their composition `SearchCalls`.
  - Independent reference readings sit beside them. `SuffixClause` is the grammar as "the one suffix that applies". `SortEntries`/`SortText` are the inverse of sort parsing. `LoadsFrom` says which relation an eager load came from.
  - Lemmas connect the stage functions to those readings.
- **The accumulator** (module `Clauses`) is a value. `ClauseCalls` is what `setClauses` replays; `LoadCalls` is what `eagerLoad` replays.
- **`Repository.Repository`** is a class holding the repository's configuration, its builder log `query`, and the accumulator fields.
  - Every loop of the source is a `while` loop here: `eagerLoad`, the three loops of `setClauses`, the entries of `applySorts`/`includeCounts`/`includeContains`, and both loops of `buildSearchParams`.
  - Each method is proved to append exactly the calls the matching function of `Search` or `Clauses` describes.
  - Each method states the new value of every field it may change; its `modifies` clause names only those fields.
  - The methods at the end of `repository.dfy` follow one repository through several calls: the `is_active` clause applying only once, orders and loads surviving a clear, `first` not clearing when nothing is found, `find` and `all` not applying the wheres, `search` keeping them.
- **`Responsible.Responder`** is a class with the three trait fields. `respond` is a function that reads the state and returns the payload and status. PHP values and `array_merge` (which `appendData` uses) are modelled so that the merge can be stated.
  - String keys take the value from the second array, overwriting in place.
  - Integer keys are renumbered from zero in order.
- **Helpers** (module `Strings`): the PHP string functions the repository uses — `trim`, `strtolower`, `explode`, `Str::endsWith`, `Str::replaceLast` and integer-to-string conversion — with their own properties. Examples: `explode` and `implode` are inverse, and trimming is idempotent.
- **Request truthiness:** a request value is truthy when it is present and is neither `""` nor `"0"`.
- **Parameters of the model:**
  - `method_exists` on the model and on the repository becomes a test against a set of declared method names. The test ignores case on both sides, as PHP does (`HasMethodIgnoresCase`, `ContainExampleCase`).
  - `Str::camel` becomes a function parameter.
  - Whether `firstOrFail`/`findOrFail` find a row is a `found` parameter.

## Behaviour worth knowing

- **Malformed sort.** A truthy sort whose entries are all malformed, such as `"bogus"`, emits no order at all (`SortAllMalformed`, `SortExampleBogus`). The default order applies only when `sort` is absent, `""` or `"0"` (`SortCalls`, `SortExampleDefault`). In a mixed list, a malformed entry is dropped in place and the other entries order by their trimmed halves in input order (`SortEntryRaw`, `SortEntriesAt`, `SortMixed`).
- **Unknown contain.** A contain entry that is neither dotted nor a relation, in camel form or as written, is dropped (`ContainEntryShape`, `ContainExample`). An entry whose camel form and raw name are both relations loads the camel form (`ContainEntryShape`, `ContainCamelFirst`).
- **Dotted contain.** The camel-cased dotted path, segment by segment, is computed and then never read. The eager load of a dotted entry is `Str::camel` of the whole trimmed entry (`IncludeContain`, `DottedPath`, `CamelPathSegments`, `ContainEntryShape`).
- **Clearing.** `unsetClauses` empties `wheres` and `whereIns` and drops the limit, but keeps `orderBys` and `with` (`UnsetClauses`, `OrdersAndLoadsSurvive`). Four terminal operations leave the accumulator in place:
  - `first` when `firstOrFail` throws (`FirstNotFoundKeepsClauses`);
  - `search`, which neither applies nor clears it (`SearchKeepsClauses`);
  - `createMultiple` with no records (`CreateNoneKeepsClauses`);
  - `deleteMultipleById`, which calls the model's `destroy` and touches neither the builder nor the accumulator (`DeleteMultipleById`).
- **Is-active clause.** The constructor's `is_active` where is cleared by the first clearing call and never comes back (`IsActiveOnlyOnce`).
- **Stage order.** A search emits sorts, then counts, then eager loads, then filters (`SearchCallsStaged`).
- **Reserved keys.** Only `contain` is read for eager loads. `sort`, `count`, `with_count` and `contain` also pass through the filter stage like any other key, and give a filter only when allow-listed (`ExampleSortKey`).

## Model

| member | source | states |
|---|---|---|
| Repository.Repository.constructor | app/Repositories/Src/BaseRepository.php:104-115 | configuration as declared, empty builder and accumulator, and exactly one `is_active = defaultIsActive` where when the repository declares one |
| Repository.IsActiveOnlyOnce | app/Repositories/Src/BaseRepository.php:113-114 | the constructor's `is_active` clause is applied by the first `get` and gone from the second |
| Repository.Repository.Where | app/Repositories/Src/BaseRepository.php:386-391 | the where is appended after the earlier ones, nothing else changes |
| Repository.Repository.WhereIn | app/Repositories/Src/BaseRepository.php:401-408 | an array of values is appended as one whereIn clause |
| Repository.Repository.WhereInValue | app/Repositories/Src/BaseRepository.php:401-405 | a single value is wrapped into a one-element list |
| Repository.Repository.OrderBy | app/Repositories/Src/BaseRepository.php:370-375 | the order is appended after the earlier ones |
| Repository.Repository.Limit | app/Repositories/Src/BaseRepository.php:356-361 | `take` is set to the limit |
| Repository.Repository.With | app/Repositories/Src/BaseRepository.php:417-426 | an array replaces the list of eager loads |
| Repository.Repository.WithNames | app/Repositories/Src/BaseRepository.php:419-421 | string arguments all become the list |
| Repository.Repository.HasIsActive | app/Repositories/Src/BaseRepository.php:438-443 | only the flag changes |
| Repository.Repository.SetDefaultIsActive | app/Repositories/Src/BaseRepository.php:449-454 | only the default changes |
| Repository.Repository.SetDefaultPrimaryKey | app/Repositories/Src/BaseRepository.php:460-465 | only the primary key changes |
| Repository.Repository.SetFilterField | app/Repositories/Src/BaseRepository.php:471-476 | only the filter fields change |
| Repository.Repository.NewQuery | app/Repositories/Src/BaseRepository.php:483-488 | the builder is fresh (an empty log) |
| Repository.Repository.EagerLoad | app/Repositories/Src/BaseRepository.php:495-502 | one `with` call per listed relation, in order, after what the builder held |
| Clauses.LoadCallsAt | app/Repositories/Src/BaseRepository.php:497-499 | the eager-load calls are exactly the relations, position by position |
| Repository.Repository.SetClauses | app/Repositories/Src/BaseRepository.php:509-528 | appends the replay of the accumulator as `ClauseCalls` describes |
| Clauses.ClauseCallsLayout | app/Repositories/Src/BaseRepository.php:509-528 | every where (as column, operator, value), then every whereIn, then every orderBy, each at its position, then `take` exactly when a limit is set; the length is the sum |
| Repository.SingleWhere | app/Repositories/Src/BaseRepository.php:511-513 | one accumulated where replays as one where call with its arguments reordered |
| Repository.Repository.UnsetClauses | app/Repositories/Src/BaseRepository.php:535-542 | wheres and whereIns empty and no limit; orderBys and eager loads unchanged |
| Clauses.ClearedReplay | app/Repositories/Src/BaseRepository.php:535-542 | after a clear only order calls are replayed |
| Repository.OrdersAndLoadsSurvive | app/Repositories/Src/BaseRepository.php:535-542 | a where, an order and a load: the first `get` applies all three, the second only the load and the order |
| Repository.Repository.ApplySort | app/Repositories/Src/BaseRepository.php:619-624 | one sort entry appends what `SortEntryCalls` gives |
| Repository.Repository.ApplySorts | app/Repositories/Src/BaseRepository.php:611-627 | appends exactly `SortCalls` of the request's `sort` |
| Search.SortCalls | app/Repositories/Src/BaseRepository.php:613-617 | no, empty or `"0"` sort gives exactly the default order |
| Search.SortExampleDefault | app/Repositories/Src/BaseRepository.php:613-617 | `id desc` for an absent, empty or `"0"` sort |
| Search.SortEntryWellFormed | app/Repositories/Src/BaseRepository.php:620-623 | an entry gives one order iff it has exactly one colon, otherwise none |
| Search.SortEntryRaw | app/Repositories/Src/BaseRepository.php:620-622 | any entry `a:b` with one colon, whitespace included, gives `orderBy(trim(a), trim(b))` |
| Search.SortEntryOfPair | app/Repositories/Src/BaseRepository.php:620-622 | `c:d` with clean names gives `orderBy(c, d)` |
| Search.SortEntryShape | app/Repositories/Src/BaseRepository.php:619-623 | an entry yields only orders whose column and direction are trimmed and free of `,` and `:` |
| Search.SortEntriesShape | app/Repositories/Src/BaseRepository.php:619-624 | at most one order per entry, all of that clean shape |
| Search.SortCallsShape | app/Repositories/Src/BaseRepository.php:611-627 | for a truthy sort: at most one order per comma entry, all trimmed and clean |
| Search.SortEntriesMalformed | app/Repositories/Src/BaseRepository.php:619-626 | entries that do not have exactly one colon give no order |
| Search.SortAllMalformed | app/Repositories/Src/BaseRepository.php:619-626 | a truthy sort of only malformed entries gives no order at all, not the default |
| Search.SortOneWord | app/Repositories/Src/BaseRepository.php:619-626 | a truthy sort without comma or colon gives no order |
| Search.SortExampleBogus | app/Repositories/Src/BaseRepository.php:619-626 | `"bogus"` gives no order |
| Search.SortEntriesAppend | app/Repositories/Src/BaseRepository.php:619-624 | the orders of a list of entries are the orders of its first part followed by those of the rest |
| Search.SortEntriesAt | app/Repositories/Src/BaseRepository.php:619-624 | each entry, well-formed or not, contributes exactly its own orders at its own place, so the orders follow input order and a malformed entry is dropped in place |
| Search.SortEntriesMixed | app/Repositories/Src/BaseRepository.php:619-624 | entries `a:b`, a colon-free `w`, `c:d` give `orderBy(trim(a), trim(b))` then `orderBy(trim(c), trim(d))` |
| Search.SortMixed | app/Repositories/Src/BaseRepository.php:611-627 | the sort text `a:b,w,c:d` with a colon-free `w` gives the orders of the first and third entries, trimmed, in that order |
| Search.SortEntriesOfPairs | app/Repositories/Src/BaseRepository.php:619-624 | rendering pairs as `c:d` entries and parsing them gives back their orders, in order |
| Search.SortEntriesNoComma | app/Repositories/Src/BaseRepository.php:613 | rendered entries contain no comma |
| Search.SortTextTruthy | app/Repositories/Src/BaseRepository.php:613-615 | a rendered non-empty sort list is truthy, so it is parsed rather than defaulted |
| Search.SortRoundTrip | app/Repositories/Src/BaseRepository.php:611-627 | parsing the text rendered from clean pairs gives exactly their orders, in order |
| Search.SortTwoPairs | app/Repositories/Src/BaseRepository.php:619-624 | `c1:d1,c2:d2` gives the two orders in input order |
| Search.SortExampleTwoPairs | app/Repositories/Src/BaseRepository.php:611-627 | `"name:asc,age:desc"` gives `name asc` then `age desc` |
| Search.ExampleSort | app/Repositories/Src/BaseRepository.php:619-623 | `"id:desc"` gives `id desc` |
| Repository.Repository.IncludeCount | app/Repositories/Src/BaseRepository.php:591-601 | a counter appends what `CounterCalls` gives: raw name if a repository method, else its camel form if one |
| Repository.Repository.IncludeCounts | app/Repositories/Src/BaseRepository.php:581-605 | appends exactly `CountCalls` of `count ?? with_count` |
| Search.CountCalls | app/Repositories/Src/BaseRepository.php:583-587 | a falsy count directive gives no call |
| Search.CounterShape | app/Repositories/Src/BaseRepository.php:592-601 | a counter yields at most one count: itself when it names a repository method, else its camel form when that does, else nothing exactly when neither does |
| Search.CountersAppend | app/Repositories/Src/BaseRepository.php:591-602 | the counts of a list are the counts of its parts, one after the other |
| Search.CountersAt | app/Repositories/Src/BaseRepository.php:591-602 | each counter contributes exactly its own counts, after those of the counters before it and before those after it |
| Search.CountersSound | app/Repositories/Src/BaseRepository.php:591-602 | every call is a `withCount` of a repository method, and there are no more calls than counters |
| Search.CountCallsSound | app/Repositories/Src/BaseRepository.php:581-605 | every emitted call is a `withCount` of a repository method, and there are no more calls than comma entries |
| Search.CountPrecedence | app/Repositories/Src/BaseRepository.php:583 | a present `count` wins over `with_count`, even an empty one, which then gives nothing |
| Repository.Repository.IncludeContain | app/Repositories/Src/BaseRepository.php:552-570 | one contain entry appends what `ContainEntryCalls` gives |
| Repository.Repository.DottedPath | app/Repositories/Src/BaseRepository.php:555-561 | the camel-cased dotted path, which the code never reads: when no camel form contains a dot, splitting it at its dots gives one segment per segment of the entry, each the camel form of that segment (through `CamelPathSegments`) |
| Search.CamelEachAt | app/Repositories/Src/BaseRepository.php:557-559 | `array_map` of `Str::camel` keeps the number of segments and converts segment `i` to `camel` of segment `i` |
| Search.CamelPathSegments | app/Repositories/Src/BaseRepository.php:556-560 | `explode` of the rejoined path gives back the camel-cased segments, one per segment of the entry, when no camel form contains a dot |
| Repository.Repository.IncludeContains | app/Repositories/Src/BaseRepository.php:548-575 | appends exactly `ContainCalls` of the request's `contain` |
| Search.ContainCalls | app/Repositories/Src/BaseRepository.php:550 | a falsy contain gives no call |
| Search.ContainEntryShape | app/Repositories/Src/BaseRepository.php:552-570 | at most one load per entry; a dotted entry loads the camel form of the whole trimmed entry; an entry whose camel form is a relation loads that camel form, even when the raw name is a relation too; an undotted entry whose camel form is not a relation but whose raw name is loads the trimmed raw name; nothing exactly when undotted, camel form unknown and raw name unknown |
| Search.ContainCamelFirst | app/Repositories/Src/BaseRepository.php:553-564 | with both `createdBy` and `created_by` declared, `contain=created_by` loads `createdBy` |
| Search.ContainEntryLoads | app/Repositories/Src/BaseRepository.php:553-569 | an entry's load is its camel form when that is a relation or it is dotted, and its trimmed raw name only when it is undotted, its camel form is not a relation and its raw name is |
| Search.ContainEntriesSound | app/Repositories/Src/BaseRepository.php:552-571 | every load of a list is one that some entry of the list produces by those rules |
| Search.ContainCallsSound | app/Repositories/Src/BaseRepository.php:548-575 | every load comes from some comma entry by those rules, and there are no more loads than entries |
| Search.ContainEntriesAppend | app/Repositories/Src/BaseRepository.php:552-571 | the loads of a list are the loads of its parts, one after the other |
| Search.ContainEntriesAt | app/Repositories/Src/BaseRepository.php:552-571 | each entry contributes exactly its own loads, after those of the entries before it and before those after it |
| Search.HasMethodIgnoresCase | app/Repositories/Src/BaseRepository.php:554 | two names that agree after lower-casing are both methods or both not |
| Search.ContainExampleCase | app/Repositories/Src/BaseRepository.php:554 | `createdbyuser` loads when the declared relation is `createdByUser` |
| Search.ContainThree | app/Repositories/Src/BaseRepository.php:551-552 | a three-entry list gives the entries' loads concatenated in order |
| Search.ContainExample | app/Repositories/Src/BaseRepository.php:553-570 | with relation `author`: `author` loads, `comments.user` loads its camel form, unknown `ghost` is dropped |
| Repository.Repository.ApplyOperator | app/Repositories/Src/BaseRepository.php:676-701 | one round of the operator loop appends what `RuleCalls` gives |
| Repository.Repository.ApplyOperators | app/Repositories/Src/BaseRepository.php:675-702 | every rule of the table in order on the lower-cased key |
| Repository.Repository.BuildSearchParams | app/Repositories/Src/BaseRepository.php:646-706 | appends exactly `FilterCalls` of the request over `filterField ++ [primary key, created-at, updated-at]` |
| Search.Lookup | app/Repositories/Src/BaseRepository.php:613 | a value is found iff the key is in the request, and it is that key's value |
| Search.SuffixesAreLowered | app/Repositories/Src/BaseRepository.php:676-677 | the lower-cased table suffixes are `_not … _isnotnull`, in table order |
| Search.SuffixesDistinct | app/Repositories/Src/BaseRepository.php:648-659 | no two suffixes are equal |
| Search.UnderscoreSuffixesEqual | app/Repositories/Src/BaseRepository.php:679 | two suffixes that are `_` followed by letters and both end a key are equal |
| Search.SuffixesExclusive | app/Repositories/Src/BaseRepository.php:675-702 | a key ends with at most one suffix of the table, so at most one rule fires |
| Search.SpecialSuffixesHandled | app/Repositories/Src/BaseRepository.php:689-700 | the entries marked `true` are exactly `_in`, `_notIn`, `_isNull`, `_isNotNull`, so the fallback comparison never gets `true` |
| Search.RuleCallsAt | app/Repositories/Src/BaseRepository.php:676-701 | rule j emits the clause of suffix j on the key without that suffix iff the key ends with it and that column is allow-listed |
| Search.RulesCallsAreSuffixClause | app/Repositories/Src/BaseRepository.php:675-702 | the whole operator loop emits the same as the reference grammar `SuffixClause` |
| Search.RulesCallsApplies | app/Repositories/Src/BaseRepository.php:675-702 | when suffix j applies, the loop emits exactly its clause |
| Search.RulesCallsNoneApplies | app/Repositories/Src/BaseRepository.php:679-687 | when no suffix applies, the loop emits nothing |
| Search.KeyCallsSpec | app/Repositories/Src/BaseRepository.php:665-702 | a key emits its exact-match where first, then the clause of its suffix on the lower-cased key; at most two calls |
| Search.SuffixedKey | app/Repositories/Src/BaseRepository.php:683-701 | `column + suffix` with an allow-listed lower-case column emits the suffix's clause on that column |
| Search.SuffixGrammar | app/Repositories/Src/BaseRepository.php:689-700 | `_not/_gt/_lt/_gte/_lte` map to `!= > < >= <=`, `_like` wraps the value in `%`, `_in/_notIn` split on commas, `_isNull/_isNotNull` ignore the value |
| Search.UnlistedKeyIgnored | app/Repositories/Src/BaseRepository.php:660-687 | a key neither allow-listed nor with an allow-listed suffix-stripped name emits nothing |
| Search.FilterCallsAllowed | app/Repositories/Src/BaseRepository.php:660-687 | every emitted filter names an allow-listed column |
| Search.FilterCallsAppend | app/Repositories/Src/BaseRepository.php:665-703 | the filters of a request are the filters of its parts in request order |
| Search.ExampleStatusNot | app/Repositories/Src/BaseRepository.php:699-700 | `status_not=draft` gives `status != draft` |
| Search.ExampleNameLike | app/Repositories/Src/BaseRepository.php:697-698 | `name_like=Jo` gives `name LIKE %Jo%` |
| Search.ExampleSortKey | app/Repositories/Src/BaseRepository.php:665-687 | the reserved `sort` key gives no filter when it is not allow-listed |
| Search.ExampleFilters | app/Repositories/Src/BaseRepository.php:665-702 | the sample request gives its two filters in request order |
| Repository.Repository.SearchBuilder | app/Repositories/Src/BaseRepository.php:633-640 | appends `SearchCalls`: sorts, counts, loads, filters in that order |
| Search.SortCallsStage | app/Repositories/Src/BaseRepository.php:638 | the sort stage emits only orders |
| Search.CountCallsStage | app/Repositories/Src/BaseRepository.php:637 | the count stage emits only `withCount` |
| Search.ContainCallsStage | app/Repositories/Src/BaseRepository.php:636 | the contain stage emits only `with` |
| Search.FilterCallsStage | app/Repositories/Src/BaseRepository.php:635 | the filter stage emits only filters |
| Search.SearchCallsStaged | app/Repositories/Src/BaseRepository.php:633-640 | the search is ordered sort < count < contain < filter, every filter is allow-listed, and without a sort the first call is the default order |
| Search.FilterColumnsAllowed | app/Repositories/Src/BaseRepository.php:633-640 | after non-filter stages, every filter of the log names an allow-listed column |
| Search.SearchCallsQuiet | app/Repositories/Src/BaseRepository.php:633-640 | without count and contain keys the search is the sorts followed by the filters |
| Search.SearchExample | app/Repositories/Src/BaseRepository.php:633-640 | `{status_not: draft, name_like: Jo, sort: id:desc}` over `{id, name, status}` gives `id desc`, `status != draft`, `name LIKE %Jo%` |
| Repository.SearchLimit | app/Repositories/Src/BaseRepository.php:431 | the request's `limit` as sent, or 25 exactly when it is absent |
| Repository.Repository.All | app/Repositories/Src/BaseRepository.php:145-154 | fresh builder with eager loads and the request search, accumulated clauses not applied, then cleared |
| Repository.AllDropsClauses | app/Repositories/Src/BaseRepository.php:145-154 | an accumulated where is neither applied by `all` nor by the `get` after it |
| Repository.Repository.Get | app/Repositories/Src/BaseRepository.php:266-275 | eager loads then the accumulated clauses on a fresh builder, then cleared |
| Repository.Repository.Count | app/Repositories/Src/BaseRepository.php:161-164 | the query of `get` with all columns |
| Repository.Repository.First | app/Repositories/Src/BaseRepository.php:248-257 | as `get` with `firstOrFail`; cleared only when a row is found |
| Repository.FirstNotFoundKeepsClauses | app/Repositories/Src/BaseRepository.php:248-257 | after a `first` that finds nothing, the next `get` applies the same where again |
| Repository.Repository.Find | app/Repositories/Src/BaseRepository.php:285-292 | clears first, then `findOrFail` with the eager loads only |
| Repository.FindDropsClauses | app/Repositories/Src/BaseRepository.php:285-292 | an accumulated where is neither applied by `find` nor by the `get` after it |
| Repository.Repository.GetByColumn | app/Repositories/Src/BaseRepository.php:301-308 | clears first, then eager loads and one `column = item` where, `first` |
| Repository.Repository.Paginate | app/Repositories/Src/BaseRepository.php:318-327 | eager loads and accumulated clauses, paginated with the given arguments, then cleared |
| Repository.Repository.Delete | app/Repositories/Src/BaseRepository.php:203-212 | accumulated clauses without eager loads, `delete`, then cleared |
| Repository.Repository.Create | app/Repositories/Src/BaseRepository.php:173-178 | clears, then inserts the data |
| Repository.Repository.CreateMultiple | app/Repositories/Src/BaseRepository.php:187-196 | one insert per record in order; cleared iff there was at least one record |
| Repository.CreateNoneKeepsClauses | app/Repositories/Src/BaseRepository.php:187-196 | with no records nothing is inserted and the where still applies to the next `get` |
| Repository.Repository.UpdateById | app/Repositories/Src/BaseRepository.php:338-347 | clears, looks the id up as `find` does, updates that model only when found |
| Repository.Repository.DeleteById | app/Repositories/Src/BaseRepository.php:222-227 | clears, looks the id up as `find` does, deletes that model only when found |
| Repository.Repository.DeleteMultipleById | app/Repositories/Src/BaseRepository.php:236-239 | a destroy of the ids; builder and accumulator untouched |
| Repository.Repository.Search | app/Repositories/Src/BaseRepository.php:428-432 | the request search alone on a fresh builder, paginated by the request limit; accumulator untouched |
| Repository.SearchKeepsClauses | app/Repositories/Src/BaseRepository.php:428-432 | `search` ignores an accumulated where, which still applies to the next `get` |
| Strings.Trim | app/Repositories/Src/BaseRepository.php:553 | the result has no leading or trailing whitespace |
| Strings.TrimSlice | app/Repositories/Src/BaseRepository.php:553 | the result is a slice of the input with only whitespace cut on both sides |
| Strings.TrimIdempotent | app/Repositories/Src/BaseRepository.php:553 | a general property of PHP `trim`, as applied to contain entries here and at line 568: trimming twice is trimming once |
| Strings.TrimKeeps | app/Repositories/Src/BaseRepository.php:622 | every character of the result occurs in the input |
| Strings.Lower | app/Repositories/Src/BaseRepository.php:676 | same length, each character lower-cased (`A`–`Z` shifted, others kept) |
| Strings.LowerIdempotent | app/Repositories/Src/BaseRepository.php:676 | lower-casing the already lower-cased key changes nothing |
| Strings.LowerConcat | app/Repositories/Src/BaseRepository.php:676 | lower-casing distributes over concatenation |
| Strings.LastIndexOf | app/Repositories/Src/BaseRepository.php:683 | the last position where the search string occurs, or none when it never does |
| Strings.ReplaceLastOfSuffix | app/Repositories/Src/BaseRepository.php:683 | removing the last occurrence of a suffix the key ends with leaves the key without that suffix |
| Strings.SplitPieces | app/Repositories/Src/BaseRepository.php:551 | the pieces contain no separator and joined by it give back the string |
| Strings.SplitCount | app/Repositories/Src/BaseRepository.php:589 | one more piece than separators |
| Strings.SplitNoSeparator | app/Repositories/Src/BaseRepository.php:620 | without the separator the string is its only piece |
| Strings.SplitAfterPiece | app/Repositories/Src/BaseRepository.php:551 | a piece then a separator splits off that piece first |
| Strings.SplitJoin | app/Repositories/Src/BaseRepository.php:690 | splitting the join of separator-free pieces gives them back |
| Strings.NatText | app/Repositories/Src/BaseRepository.php:114 | decimal digits whose value is the number, with no leading zero (and `0` for zero) |
| Strings.IntText | app/Repositories/Src/BaseRepository.php:114 | the decimal text of a non-negative number; for a negative one `-` followed by the decimal text of its magnitude |
| Strings.IntTextInjective | app/Repositories/Src/BaseRepository.php:114 | different integers get different texts |
| Responsible.Responder.constructor | app/Utils/Responsible.php:22-32 | status 200, no data, no error |
| Responsible.FreshResponse | app/Utils/Responsible.php:22-42 | a fresh responder answers 200 with the payload given |
| Responsible.Responder.Respond | app/Utils/Responsible.php:39-42 | the current status with the first non-null of the argument, the data and the error; changes nothing |
| Responsible.ErrorIsFallback | app/Utils/Responsible.php:41 | the error is sent only while there is no data; data set later takes over |
| Responsible.Responder.SetData | app/Utils/Responsible.php:49-54 | only `data` changes, to the value |
| Responsible.Responder.AppendData | app/Utils/Responsible.php:61-66 | `data` becomes `array_merge((array) data, d)`, nothing else changes |
| Responsible.AsArray | app/Utils/Responsible.php:63 | null casts to the empty array, an array to itself, anything else to `[0 => value]` |
| Responsible.LastIndex | app/Utils/Responsible.php:63 | the last position of a key, or none when it is absent |
| Responsible.MergeStrKey | app/Utils/Responsible.php:63 | in a merge a string key reads from the second array when set there, else from the first |
| Responsible.MergeInts | app/Utils/Responsible.php:63 | the integer-keyed values of a merge are those of the first then the second array, renumbered from zero |
| Responsible.PutAllStrKey | app/Utils/Responsible.php:63 | merging keeps, under each string key, the last value given for it |
| Responsible.PutAllInts | app/Utils/Responsible.php:63 | merging keeps the integer-keyed values in order, renumbered from zero |
| Responsible.ValueAtUpdate | app/Utils/Responsible.php:63 | overwriting a key in place changes what that key reads and nothing else |
| Responsible.AppendToNothing | app/Utils/Responsible.php:61-66 | appending to a fresh responder gives the merge of nothing with the entries, status 200 |
| Responsible.Responder.SetError | app/Utils/Responsible.php:73-78 | only `error` changes, to the value |
| Responsible.Responder.SetStatusCode | app/Utils/Responsible.php:84-89 | only the status changes, to the code |
| Responsible.Responder.SetMessage | app/Utils/Responsible.php:92-96 | only `data` changes, to `["message" => m]` |
| Responsible.Responder.Created | app/Utils/Responsible.php:103-107 | status becomes 201, then the response to the payload |
| Responsible.CreatedThenUpdated | app/Utils/Responsible.php:103-117 | 201 stays for the next `updated` |
| Responsible.Responder.Updated | app/Utils/Responsible.php:114-117 | the response to the payload with the current status; nothing changes |
| Responsible.Responder.Deleted | app/Utils/Responsible.php:123-126 | the data, or the error when there is no data, with the current status |
| Responsible.StatusCarriesOver | app/Utils/Responsible.php:114-126 | a status once set is the status of `updated` and `deleted` |
| Responsible.Responder.BadRequest | app/Utils/Responsible.php:132-138 | status 400; the message replaces the data only when it was falsy; the data is sent |
| Responsible.BadRequestKeepsData | app/Utils/Responsible.php:132-138 | truthy data is sent as it is with 400 |
| Responsible.BadRequestReplacesFalsy | app/Utils/Responsible.php:134-135 | falsy data is replaced by `bad request!` |
| Responsible.Responder.NotFound | app/Utils/Responsible.php:144-149 | status 404 and the `not found!` message, always |
| Responsible.NotFoundOverwrites | app/Utils/Responsible.php:144-149 | whatever data there was, the response is the `not found!` message with 404 |
| Responsible.Responder.InternalError | app/Utils/Responsible.php:156-164 | status 500 and the `internal error!` message, always |
| Responsible.Responder.ValidationError | app/Utils/Responsible.php:172-175 | a validation failure carrying the messages given |
| Responsible.Responder.UnauthorizedError | app/Utils/Responsible.php:181-186 | status 401 and the `unauthorized error!` message, always |
| Responsible.Responder.ToManyRequest | app/Utils/Responsible.php:192-198 | status 429; the message replaces the data only when it was falsy; the data is sent |
| Responsible.MessageOutlivesResponse | app/Utils/Responsible.php:181-198 | after `unauthorizedError` the message is the data, so `toManyRequest` sends it with 429 |

## Left out

- **Database execution.** `get`, `first`, `firstOrFail`, `findOrFail`, `paginate`, `delete`, `destroy`, and the model's `create` and `update` are not executed. A terminal operation returns the builder log and the terminal call. Whether a row exists is the `found` parameter: not found means the exception path, where nothing after the call runs.
- **`makeModel` and the debug query log.** This is container resolution, an `instanceof` check and `DB::enableQueryLog` (app/Repositories/Src/BaseRepository.php:106-111). The model's relations and timestamp columns are given to the constructor instead.
- **Ambient request.** `\request()` is replaced by the request passed to the constructor. Request values are strings; arrays and numbers sent as request values are not modelled.
- **`Str::camel`** is a function parameter. `method_exists` is a case-insensitive test against the declared method names of the model or the repository, taken as written (`HasMethod`).
- **Loose `in_array`** is modelled as exact string membership. PHP 8 compares two numeric strings as numbers, so `"01"` matches `"1"` and `"1e1"` matches `"10"`; numeric-string keys and columns are not modelled.
- **`Log::error`** in `internalError` is left out. The exception only reaches the log.
- **The framework's response functions.** `response($payload, $status)` becomes the returned `Response` value. The `ValidationException` thrown by `validationError` becomes the returned `ValidationFailure`.
- **PHP values.** Floats and objects are not modelled in payloads; `Value` has null, booleans, integers, strings and arrays. A `statusCode` set to null is not modelled either: the status is an integer.
- **Repository.Repository.IncludeContain:** the dotted path is computed through `DottedPath` and then discarded, as in the source. Nothing depends on it; its contract states the segment-by-segment form of the path (`CamelPathSegments`).
- **Helper methods.** `ApplySort`, `IncludeCount`, `IncludeContain`, `ApplyOperator` and `ApplyOperators` are the bodies of the source's loops, written as methods of their own. They change the same builder the loop changes and nothing else.
- **Default arguments.** PHP's default arguments are not modelled; every caller passes the value. This covers:
  - `where(…, $operator = '=')` and `orderBy(…, $direction = 'asc')`;
  - the `$columns = ['*']` of `all`, `get`, `first`, `find`, `getByColumn` and `paginate`, and paginate's `25`, `'page'` and `null`;
  - `hasIsActive(false)`, `setDefaultIsActive(1)` and `setDefaultPrimaryKey('id')`;
  - the `$data = null` of `respond`, `created` and `updated`.
- **Unique keys.** A request is a sequence of key/value pairs, and so is a PHP array value in the response helper. Neither is checked to have unique keys, and a numeric string is not turned into an integer key as PHP does. By convention a key occurs at most once. `Lookup` reads the first pair with the key; `FilterCalls` treats every pair, which for unique keys is once per key.
- CountersSound: states where each count comes from and a bound on the total, not which counter produces which count. That is `CounterShape` with `CountersAt`.
- CountCallsSound: the same; per entry, `CountCalls` of a truthy directive is `CountersCalls` of its comma entries, described by `CounterShape` with `CountersAt`.
- ContainEntriesSound: membership only: a load comes from some entry. Order and one load per entry are `ContainEntryShape` with `ContainEntriesAt`.
- ContainCallsSound: the same; per entry, see `ContainEntryShape` with `ContainEntriesAt`.
- **Files not modelled.** The repository interface, the concrete Post and User repositories (each a one-line `model()`), the models, the controllers, the facade, the console command and the seeder are not part of this model.
