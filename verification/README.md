# Expose filter-execution engine, in Dafny

This project models the filter-execution core of Expose's `Manager` class
(`src/Expose/Manager.php`). `run` walks a nested request-data array depth-first
and keeps the dotted path of the keys above the current position. It skips every
key whose path matches an exception pattern. When restrictions are configured, it
inspects a scalar only if the scalar's path is one of them. It applies every
filter to every inspected scalar. Each filter that matches appends one report and
adds the filter's impact to a running total.

The model is functional. A `Manager` is an immutable record, and every operation
returns an updated copy:

- `types.dfy` (module `Types`): scalars, the data `Tree`, filters as opaque
  predicates with an id and a weight, reports, and the result of `preg_match`.
- `paths.dfy` (module `Paths`): `implode('.', $path)` and the per-iteration path
  truncation of `runFilters`.
- `pathmatcher.dfy` (module `PathMatcher`): `isException`. This covers dot
  escaping, anchoring, and the `!== 0` test on the regex engine's answer.
- `engine.dfy` (module `Engine`): the `Manager` state and its setters, the inner
  filter loop, the recursive `runFilters` with the path threaded through the loop
  exactly as the code does it, and `run`.
- `reference.dfy` (module `Reference`): a description of a run that threads no
  path. It lists all leaves depth-first, keeps the inspectable ones, and gives
  each one's matches and reports. It also holds the proof that `runFilters`
  produces exactly that.
- `properties.dfy` (module `Properties`): what follows for a whole `run`.
- `scenarios.dfy` (module `Scenarios`): worked examples with a digit-matching
  filter.

The regular-expression engine is a parameter `preg: (pattern, subject) -> PregResult`.
Its answer is `Matched` (1), `NoMatch` (0) or `PregError` (`false`). Filters carry
their own `execute` predicate.

Points where the code's behaviour is easy to misread:

- `run` never resets `reports` or `impact`, so repeated runs accumulate
  (`RunTwiceAccumulates`).
- The key of each report is the matching filter's position in the filter
  collection, not the data key. The inner `foreach` reuses `$index`, and the
  report stores the value but not the path.
- A pattern that the regex engine cannot compile makes `preg_match` return
  `false`, and `false !== 0` holds. Such a pattern therefore counts as a hit on
  every path, and one malformed exception switches off all inspection
  (`MalformedExceptionSilencesRun`). The code does not fail closed.
- The code escapes the dots of an exception pattern itself. The worked example
  therefore configures the plain pattern `POST.id`, which becomes `/^POST\.id$/`.
  A pattern written with escaped dots is escaped a second time, so `POST\.id`
  becomes `/^POST\\.id$/` and never excepts the path `POST.id`
  (`EscapedPatternIsEscapedAgain`).

## Model

| member | source | states |
|---|---|---|
| `Paths.Join` | src/Expose/Manager.php:106 | the dotted rendering of the empty path is the empty string, and a one-key path renders as the key itself |
| `Paths.JoinSnoc` | src/Expose/Manager.php:103-106 | pushing a key onto a non-empty path appends a dot and the key to its dotted rendering |
| `Paths.JoinConflatesDottedKeys` | src/Expose/Manager.php:106 | a top-level key `a.b` and a key `b` nested under `a` get the same dotted path, so exceptions and restrictions cannot tell them apart |
| `Paths.StepPath` | src/Expose/Manager.php:100-103 | the path used for a key has at most `lvl` inherited keys followed by that key; when at least `lvl` keys are present it is the first `lvl` of them plus the key |
| `Paths.StepPathForgetsSiblings` | src/Expose/Manager.php:99-103 | whatever deeper keys an earlier sibling left behind, the path for the next key is the entry path followed by that key |
| `PathMatcher.EscapeDots` | src/Expose/Manager.php:273 | every dot in the escaped pattern is preceded by a backslash, the pattern never gets shorter, and a pattern without dots is unchanged |
| `PathMatcher.EscapeRoundTrip` | src/Expose/Manager.php:273 | un-escaping the escaped pattern gives back the original, so escaping changes the dots and nothing else |
| `PathMatcher.EscapeDotsAppend` | src/Expose/Manager.php:273 | escaping works character by character: the escape of a concatenation is the concatenation of the escapes |
| `PathMatcher.EscapedDotIsEscapedAgain` | src/Expose/Manager.php:273 | escaping is not idempotent: a `\.` already in a pattern becomes `\\.` |
| `PathMatcher.ExceptionRegexRecoversPattern` | src/Expose/Manager.php:274 | the regex built for a pattern is `/^`, the escaped pattern and `$/`, and the configured pattern can be read back from it |
| `PathMatcher.ExceptionRegex` | src/Expose/Manager.php:273-274 | the regex handed to the engine starts with `/^`, ends with `$/`, and is at least four characters longer than the configured pattern |
| `PathMatcher.Hit` | src/Expose/Manager.php:274 | a pattern hits a path iff the engine answers "matched" or fails on the pattern; only "no match" is a miss |
| `PathMatcher.IsException` | src/Expose/Manager.php:269-280 | the path is an exception iff some configured pattern's anchored, dot-escaped regex does not return 0 from the engine; an engine error counts as a hit; no patterns means no exception |
| `PathMatcher.IsExceptionOrderIrrelevant` | src/Expose/Manager.php:272-277 | two pattern lists holding the same patterns, in any order and with any repetitions, give the same answer |
| `Engine.New` | src/Expose/Manager.php:60-67 | a new instance has the given filters, zero impact and no reports, exceptions, restrictions or data |
| `Engine.ApplyFilters` | src/Expose/Manager.php:130-144 | the filter loop changes only reports and impact; it keeps earlier matches and reports as prefixes, appends one report per new match holding exactly that filter, and adds exactly the new matches' weights |
| `Engine.RunFiltersFrom` | src/Expose/Manager.php:99-146 | the data loop, including the recursion into nested arrays, keeps the same link between matches, reports and impact, and leaves the configuration untouched |
| `Engine.RunFilters` | src/Expose/Manager.php:94-148 | the number of reports appended equals the number of returned matches, report k holds exactly match k, earlier reports are kept, and impact grows by the sum of the returned filters' weights |
| `Engine.SetData` | src/Expose/Manager.php:185-188 | setData stores the data and changes nothing else |
| `Engine.GetDataReadsBack` | src/Expose/Manager.php:195-198 | `getData` returns what `setData` stored, and after a run it returns the data that run was given |
| `Engine.SetFilters` | src/Expose/Manager.php:205-208 | setFilters replaces the filters and changes nothing else |
| `Engine.GetFiltersReadsBack` | src/Expose/Manager.php:215-218 | `getFilters` returns what `setFilters` stored, and a run leaves the filters unchanged |
| `Engine.Run` | src/Expose/Manager.php:74-84 | run stores the data, changes no configuration, keeps every earlier report as a prefix, and raises impact by exactly the weights of the filters in the new reports |
| `Engine.NewIsConsistent` | src/Expose/Manager.php:60-67 | a new instance satisfies the bookkeeping invariant: its impact equals the total weight of its (no) reported filters |
| `Engine.RunKeepsConsistent` | src/Expose/Manager.php:140-142 | if impact equals the total weight of the reported filters before a run, it still does after the run |
| `Engine.SetImpact` | src/Expose/Manager.php:175-178 | setImpact overwrites the impact and changes nothing else |
| `Engine.SetImpactCanBreakConsistent` | src/Expose/Manager.php:175-178 | overwriting the impact of a consistent instance with a different value leaves it inconsistent, because the reports are not touched |
| `Engine.GetReportsAfterRun` | src/Expose/Manager.php:155-158 | after a run, `getReports` returns the earlier reports followed by the new ones, and `getImpact` has grown by the weights of the filters in the new ones |
| `Engine.GetImpactReadsBack` | src/Expose/Manager.php:165-168 | `getImpact` returns what `setImpact` stored, and a run never lowers it |
| `Engine.SetException` | src/Expose/Manager.php:225-229 | a single path becomes a one-element list; the list is appended after the existing exceptions, which are kept; nothing else changes |
| `Engine.SetRestriction` | src/Expose/Manager.php:246-250 | a single path becomes a one-element list; the list is appended after the existing restrictions, which are kept; nothing else changes |
| `Engine.GetExceptionsReadsBack` | src/Expose/Manager.php:236-239 | `getExceptions` returns the earlier exceptions followed by the added ones, and a run leaves them unchanged |
| `Engine.GetRestrictionsReadsBack` | src/Expose/Manager.php:257-260 | `getRestrictions` returns the earlier restrictions followed by the added ones, and a run leaves them unchanged |
| `Engine.SetExceptionComposes` | src/Expose/Manager.php:225-229 | two calls equal one call with both lists concatenated, duplicates kept; a single path behaves like a one-element list |
| `Engine.SetRestrictionComposes` | src/Expose/Manager.php:246-250 | two calls equal one call with both lists concatenated, duplicates kept |
| `Reference.ApplyFiltersIsHits` | src/Expose/Manager.php:130-144 | for one value, the filter loop appends exactly the accepting filters in registration order, with one report each keyed by the filter's position, and adds exactly their weights |
| `Reference.RunFiltersFromIsReference` | src/Expose/Manager.php:94-148 | with a path that starts with the keys above the array, the walk yields exactly the reference matches and reports of the inspected leaves below those keys, in the same order |
| `Reference.SkippedKeyCase` | src/Expose/Manager.php:105-109 | an excepted key, or a scalar excluded by the restrictions, contributes nothing, and the walk goes on with the next sibling |
| `Reference.NestedKeyCase` | src/Expose/Manager.php:111-116 | a non-excepted nested array contributes the matches of its own walk, one level deeper, before those of its later siblings |
| `Reference.LeafKeyCase` | src/Expose/Manager.php:117-144 | an inspected scalar contributes its filter hits before those of its later siblings |
| `Reference.RunIsReference` | src/Expose/Manager.php:74-84 | a run appends exactly the reference reports of the inspected leaves, starting from an empty path at level 0, and adds exactly their matches' weights |
| `Reference.RunTwiceAccumulates` | src/Expose/Manager.php:23-29 | a second run's reports follow the first run's, and the impact carries both runs' weights; nothing is reset |
| `Reference.InspectedIsSelectedLeaves` | src/Expose/Manager.php:99-128 | the structural walk, which skips whole subtrees, selects the same leaves in the same depth-first order as filtering the full leaf list by "no excepted path on the way down, own path allowed" |
| `Properties.RunReportsSelectedLeaves` | src/Expose/Manager.php:74-148 | a run's new reports and impact are those of the inspectable leaves of the full depth-first leaf list, in order |
| `Properties.InspectedIff` | src/Expose/Manager.php:99-128 | a leaf is inspected iff it is in the data, none of the paths leading to it is an exception, and either no restrictions are set or its path is one of them |
| `Properties.ExceptedSubtreeIsSkipped` | src/Expose/Manager.php:105-109 | once any path on the way down to a leaf is an exception, that leaf is not inspected, whatever its value |
| `Properties.RestrictionsAreExactPaths` | src/Expose/Manager.php:119-128 | with restrictions set, a leaf under no exception is inspected iff its dotted path equals one of them; the paths of nested arrays are never compared |
| `Properties.NoConfigurationInspectsEveryLeaf` | src/Expose/Manager.php:99-147 | with no exceptions and no restrictions, every leaf is inspected exactly once, in depth-first order |
| `Properties.FlatDataLeaves` | src/Expose/Manager.php:99-103 | for data without nesting, the leaves are the entries themselves, in key order, each under a one-key path |
| `Properties.HitReportsExact` | src/Expose/Manager.php:130-140 | for one value, a report is present iff the filter at its key accepts the value; it holds that filter alone, and there are as many reports as matches |
| `Properties.HitReportsOrdered` | src/Expose/Manager.php:130-140 | for one value, the reports come in filter-registration order |
| `Properties.MalformedExceptionSilencesRun` | src/Expose/Manager.php:272-276 | if the engine rejects one configured pattern, every path is an exception, so the run appends no report and adds no impact |
| `Scenarios.DepthFirstOrder` | src/Expose/Manager.php:99-116 | with nothing configured, the walk over `{"a": {"b": 1, "c": 2}, "d": 3}` inspects `a.b`, `a.c`, `d`, in that order |
| `Scenarios.DigitScenario` | src/Expose/Manager.php:74-84 | with a weight-5 digit filter, `{"POST": {"id": "123", "name": "bob"}}` yields one report for `123` and impact 5 |
| `Scenarios.EscapedPatternIsEscapedAgain` | src/Expose/Manager.php:273-274 | a pattern already written as `POST\.id` is escaped again to `POST\\.id`, so its regex `/^POST\\.id$/` asks for a literal backslash |
| `Scenarios.ExceptionScenarioInspects` | src/Expose/Manager.php:105-109 | the exception `POST.id` becomes `/^POST\.id$/`; with an engine that matches it only against `POST.id`, only `POST.name` is inspected |
| `Scenarios.ExceptionScenario` | src/Expose/Manager.php:225-229 | after `setException("POST.id")`, the same data yields no report and impact 0 |
| `Scenarios.RestrictionScenarioInspects` | src/Expose/Manager.php:121-128 | the restriction `POST.name` lets only that leaf through, although `POST` itself is not listed |
| `Scenarios.RestrictionScenario` | src/Expose/Manager.php:246-250 | after `setRestriction("POST.name")`, the same data yields no report and impact 0 |

## Left out

- Logging is not modelled: `getLogger`, `setLogger`, the MongoDB-backed default logger, the logger argument of the constructor, and the `md5(print_r(...))` audit line in `run`. They are side channels with no effect on reports or impact.
- `setConfig` and `getConfig` are not modelled. They only check the file system and parse an INI file.
- `export` is not modelled. It builds a formatter class name from a string and instantiates it, and those classes are not part of this model.
- `DataCollection`, `FilterCollection`, `Filter` and `Report` are not part of this model. The data is a plain ordered tree of string keys. Integer keys are represented by their decimal spelling. The iteration keys of the filter collection are taken to be positions 0, 1, 2, ….
- `Filter::execute` and PCRE matching are parameters: each filter carries an opaque predicate, and `preg_match` is the `preg` function. Regex semantics are not modelled. Only the escaping, anchoring and delimiting of the pattern, and the `!== 0` test on the answer, are modelled.
- Restrictions use `in_array` with PHP's loose comparison. Two numeric strings such as `"10"` and `"1e1"` compare equal there. The model uses exact string equality instead.
- `setException` and `setRestriction` use `array_merge`, and the model treats it as list append. With string-keyed arrays, `array_merge` overwrites equal keys instead.
- Floating-point and object leaves are not modelled, and neither are PHP's integer overflow into floats and filters whose `execute` returns a non-boolean (`=== true` is read as the boolean itself).
- `RunFiltersFromIsReference`: this lemma covers only calls whose path has at least `lvl` keys. This holds for the call `run` makes and for every recursive call. A direct public call to `runFilters` with a shorter path is still modelled by `RunFiltersFrom`, but it is not characterised by the reference.
