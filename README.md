# Yaga rule registry — a Dafny model

This project models the rule registry of the Yaga forum plugin's `RulesController`.

- **`getRules()`** returns the catalog of the installed badge rules. The catalog is an ordered PHP array from rule class name to display name, sorted by display name. The method follows the cache-aside pattern over a shared cache store:
  - on a hit it decodes the stored value;
  - on a miss it scans the declared classes for `YagaRule` implementations;
  - it lets the `AfterGetRules` handlers change the draft;
  - it sorts the draft with `asort` and stores it, with an empty result stored as `false`.
- **`getInteractionRules()`** derives the rules whose `interacts()` is true. It works the same way under its own cache key, behind a static memo that lasts for the life of the process.
- **`getCriteriaForm()`** checks that a class name is a rule. If so it renders that rule's criteria form; otherwise it renders the "rule not found" exception.

Modules:

- `Wrappers` (wrappers.dfy): Option and Result.
- `Catalogs` (catalogs.dfy): the ordered array with distinct keys (`Catalog`); reading a key (`Lookup`); `$a[$k] = $v` (`Put`); the order `asort` uses on names (`NameLe`); and an insertion sort (`SortByName`).
- `Encoding` (encoding.dfy): the two shapes the controller stores, `dbencode(false)` and `dbencode($array)`, and what `dbdecode` gives back.
- `Rules` (rules.dfy): declared classes (`RuleInfo`); the draft catalog built by the discovery loop (`Draft`, `BuildDraft`); and the interaction filter (`InteractionCatalog`, `FilterInteracting`), which fails on a key that is not a loadable rule.
- `RulesController` (rules_controller.dfy): class `RuleRegistry`.
  - Its fields are the cache store (`cache`), the static memo (`memo`, where None stands for `null`), the declared classes and the `AfterGetRules` handlers.
  - Its methods are `GetRules`, `GetInteractionRules`, `GetCriteriaForm`, and `Expire`, which models time-based eviction.

Where the code and its documentation differ, the model follows the code. When no rule is found, `getRules()` returns PHP `false`, not an empty array. The model keeps that value (`DFalse`), and `Entries(DFalse)` is empty, as `foreach` over `false` visits nothing; the warning PHP raises for that `foreach` (line 94) is not modelled. The memo is set to that `false` too, because `false !== null`.

## Model

| member | source | states |
|---|---|---|
| `Catalogs.Put` | controllers/class.rulescontroller.php:59 | PHP array assignment: the keys become the old keys plus `k` and stay distinct. A new key is appended at the end; an existing key keeps its place and the length is unchanged |
| `Catalogs.PutLookup` | controllers/class.rulescontroller.php:59 | after `$c[$k] = $v`, key `k` reads `v` and every other key reads as before |
| `Catalogs.NameLeTotal` | controllers/class.rulescontroller.php:68 | any two names are comparable in the order `asort` sorts by |
| `Catalogs.NameLeTransitive` | controllers/class.rulescontroller.php:68 | that order is transitive |
| `Catalogs.NameLeAntisymmetric` | controllers/class.rulescontroller.php:68 | names that compare both ways are equal, so the order is a total order |
| `Catalogs.Insert` | controllers/class.rulescontroller.php:68 | inserting one pair into a sorted array keeps it sorted and adds exactly that pair |
| `Catalogs.SortByName` | controllers/class.rulescontroller.php:68 | `asort`: the result is ascending by display name and is a permutation (same multiset) of the input |
| `Catalogs.SortKeepsPairs` | controllers/class.rulescontroller.php:68 | sorting keeps every key and the value each key maps to |
| `Encoding.Encode` | controllers/class.rulescontroller.php:69-73 | the stored value is the `false` sentinel exactly when the catalog is empty |
| `Encoding.Decode` | controllers/class.rulescontroller.php:109 | `dbdecode`: the stored `false` sentinel decodes to `false` and nothing else does; a stored non-empty array decodes to an array that encodes back to the stored value |
| `Encoding.Entries` | controllers/class.rulescontroller.php:94 | `foreach` over a decoded `false` visits nothing; a non-empty array it visits, stored and decoded again, gives the same decoded value |
| `Encoding.Reloaded` | controllers/class.rulescontroller.php:77 | decoding what was stored gives back the same pairs, and gives `false` exactly when the catalog was empty |
| `Rules.FindRule` | controllers/class.rulescontroller.php:121-122 | a rule is found exactly when the name is a declared class implementing `YagaRule`, and the rule found is that class |
| `Rules.DraftIsDeclaredRules` | controllers/class.rulescontroller.php:55-61 | before the hook, the draft has one key per declared class implementing `YagaRule` and no other key, and each maps to its rule's `name()` |
| `Rules.BuildDraft` | controllers/class.rulescontroller.php:55-61 | the discovery loop leaves in `$tempRules` exactly the draft `Draft(declared)` |
| `Rules.InteractsOf` | controllers/class.rulescontroller.php:95-96 | `interacts()` has an answer exactly when the key is a declared rule class, and the answer is that rule's own `interacts()` flag |
| `Rules.InteractionIsFilter` | controllers/class.rulescontroller.php:93-99 | a pair is among the interaction rules exactly when it is in the full catalog and its rule's `interacts()` is true; names are kept |
| `Rules.InteractionKeepsOrder` | controllers/class.rulescontroller.php:93-99 | the interaction rules are a subsequence of the full catalog: the order from `getRules` is kept |
| `Rules.InteractionFailure` | controllers/class.rulescontroller.php:94-96 | the filter fails exactly when some catalog key is not a loadable rule, and the error names such a key |
| `Rules.FailureStops` | controllers/class.rulescontroller.php:94-96 | once the loop has failed on a prefix, the whole filter fails with that same error |
| `Rules.FilterInteracting` | controllers/class.rulescontroller.php:93-99 | the interaction loop returns exactly `InteractionCatalog(declared, all)` |
| `RulesController.RulesBuilt` | controllers/class.rulescontroller.php:55-68 | the catalog built on a miss is ascending by display name and has exactly the hook output's keys, each with the same value |
| `RulesController.RulesBuiltWithoutHandlers` | controllers/class.rulescontroller.php:55-68 | with no handler changing the draft, the stored catalog maps exactly the declared rule classes to their names, ascending by name |
| `RulesController.CacheAside` | controllers/class.rulescontroller.php:47-77 | a hit leaves the cache unchanged. A miss stores the encoded build under the key. The result is the decoding of what the key holds afterwards, and no other key changes |
| `RulesController.SecondLookupHits` | controllers/class.rulescontroller.php:47-54 | a lookup right after a store hits and returns the same value without rebuilding |
| `RulesController.RuleRegistry.constructor` | controllers/class.rulescontroller.php:25 | a new process starts with the memo `null` |
| `RulesController.RuleRegistry.GetRules` | controllers/class.rulescontroller.php:46-78 | the result and the new cache are the cache-aside step over `'Yaga.Badges.Rules'`, with the sorted hook output as the build; the memo is not touched |
| `RulesController.RuleRegistry.GetInteractionRules` | controllers/class.rulescontroller.php:87-113 | a set memo is returned with nothing read or changed. On an interaction-cache hit the decoded value is returned and memoised, and the rules cache is untouched. On a miss, `getRules` runs and its entries are filtered; the result is stored under `'Yaga.Badges.InteractionRules'` and memoised (as `false` too). An error leaves the memo unset and stores nothing for interactions |
| `RulesController.RuleRegistry.Expire` | controllers/class.rulescontroller.php:74 | expiry removes exactly that key from the cache and leaves the memo alone |
| `RulesController.RuleRegistry.GetCriteriaForm` | controllers/class.rulescontroller.php:120-133 | form data is rendered exactly when the class is a declared `YagaRule`. It carries that rule's form, the class name, the rule's name and its description. Otherwise the Rule404 exception is rendered |

## Left out

- Loading the rule files with `glob` and `include_once` (lines 50-52) is file I/O. The classes it declares are the input `declared`.
- PHP reflection (`get_declared_classes`, `class_implements`, `class_exists`, `new $className()`) is replaced by `declared`. Each `RuleInfo` carries the answers that class's instance gives.
  - PHP matches class names without regard to case; the model compares them exactly.
  - Autoloading that `class_exists` may trigger is not modelled.
- A rule constructor that throws during discovery (line 58) is not modelled: every declared rule is assumed to construct.
- InteractsOf: in the interaction loop (lines 95-96) the model treats every catalog key that is not a declared `YagaRule` class as a failure (`RuleNotLoadable`). PHP checks no interface there: it throws when the class cannot be found, cannot be instantiated without arguments, or has no callable `interacts()`, so a declared class outside `YagaRule` that can be instantiated without arguments and has a callable `interacts()` is filtered by PHP but fails in the model. Such a key can only come from a handler or from a stale rules cache.
- The serialised text of `dbencode`/`dbdecode` is not modelled; only its two shapes are.
- The `AfterGetRules` event and the `BadgeModel` container lookup are one opaque total function on catalogs. A handler that stores non-string keys or values is not modelled.
- Expiry times and the `Yaga.Rules.CacheExpire` setting are not modelled: there is no clock. `Expire` may drop any entry at any point.
- Form building (`form()`, `setStyles`) and the rendering of the response are not modelled; each rule's `form()` output is a field of `RuleInfo`. Translation is not modelled either: the exception carries the translation code `Yaga.Error.Rule404`.
- The race between concurrent requests (last writer wins) is not modelled: calls are sequential.
- `views/profile/reactions.php` is HTML templating over framework helpers with no logic of its own.
- SortByName: compares names by character code, as `strcmp` does. PHP 8 compares two numeric strings by numeric value; that case is not modelled. The stability of PHP 8's `asort` for equal names is not stated.
- The static memo is a field of the `RuleRegistry` object, whose lifetime stands for the process.
