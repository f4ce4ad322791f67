/**
 * The rules controller: `getRules` and `getInteractionRules`, two cache-aside
 * getters over a shared cache store, the second behind a memo that lives as
 * long as the process, and `getCriteriaForm`, which checks a class name before
 * rendering that rule's criteria form.
 */
module RulesController {
  import opened Wrappers
  import opened Catalogs
  import opened Encoding
  import opened Rules

  const RulesKey: string := "Yaga.Badges.Rules"
  const InteractionRulesKey: string := "Yaga.Badges.InteractionRules"

  /** The translation code of the "rule not found" message. */
  const Rule404: string := "Yaga.Error.Rule404"

  /** What `getCriteriaForm` renders: the form data, or an exception. */
  datatype Response =
    | RenderData(criteriaForm: string, ruleClass: string, name: string, description: string)
    | RenderException(message: string)

  /**
   * The catalog `getRules` stores on a miss: the draft, as the `AfterGetRules`
   * hook leaves it, sorted by `asort`. It holds exactly the hook's key/value
   * pairs, ascending by display name.
   */
  function RulesBuilt(declared: seq<RuleInfo>, afterGetRules: Catalog -> Catalog): (r: Catalog)
    ensures SortedByName(r)
    ensures Keys(r) == Keys(afterGetRules(Draft(declared)))
    ensures forall k :: Lookup(r, k) == Lookup(afterGetRules(Draft(declared)), k)
  {
    var hooked := afterGetRules(Draft(declared));
    SortKeepsPairs(hooked);
    SortByName(hooked)
  }

  /**
   * When no handler changes the draft, the stored catalog maps every declared
   * rule class, and nothing else, to its rule's name, ascending by name.
   */
  lemma RulesBuiltWithoutHandlers(declared: seq<RuleInfo>)
    requires DistinctClassNames(declared)
    ensures SortedByName(RulesBuilt(declared, c => c))
    ensures Keys(RulesBuilt(declared, c => c)) == RuleClasses(declared)
    ensures forall d :: d in declared && d.implementsRule ==>
                        Lookup(RulesBuilt(declared, c => c), d.className) == Some(d.name)
  {
    DraftIsDeclaredRules(declared);
  }

  /**
   * The cache-aside step both getters take. On a hit the stored value is kept;
   * on a miss `built` is encoded and stored under `key`. Either way the result
   * is the decoding of what the cache holds under `key` afterwards, and no
   * other key changes.
   */
  function CacheAside(cache: map<string, Encoded>, key: string, built: Catalog): (out: (Decoded, map<string, Encoded>))
    ensures key in out.1 && out.0 == Decode(out.1[key])
    ensures key in cache ==> out.1 == cache
    ensures key !in cache ==> out.1[key] == Encode(built) && Entries(out.0) == built
    ensures forall k :: k != key ==> (k in out.1 <==> k in cache)
    ensures forall k :: k != key && k in cache ==> out.1[k] == cache[k]
  {
    if key in cache then (Decode(cache[key]), cache)
    else (Reloaded(built), cache[key := Encode(built)])
  }

  /** A second lookup finds what the first one stored: no rebuild, no store. */
  lemma SecondLookupHits(cache: map<string, Encoded>, key: string, built: Catalog, rebuilt: Catalog)
    ensures CacheAside(CacheAside(cache, key, built).1, key, rebuilt) == CacheAside(cache, key, built)
  {
  }

  /** `RulesController` with its static memo, over the cache store and the declared classes. */
  class RuleRegistry {
    /** The shared cache store, `Gdn::cache()`: key to stored value. */
    var cache: map<string, Encoded>
    /** `self::$interactionRulesCache`; None stands for `null`. */
    var memo: Option<Decoded>
    /** `get_declared_classes()` once the rule files are loaded, with each class's answers. */
    const declared: seq<RuleInfo>
    /** The handlers of the `AfterGetRules` event, taken together. */
    const afterGetRules: Catalog -> Catalog

    /** A new process: the memo is `null`, the cache holds whatever it holds. */
    constructor (declared: seq<RuleInfo>, afterGetRules: Catalog -> Catalog, cache: map<string, Encoded>)
      ensures this.declared == declared && this.afterGetRules == afterGetRules
      ensures this.cache == cache && memo == None
    {
      this.declared := declared;
      this.afterGetRules := afterGetRules;
      this.cache := cache;
      memo := None;
    }

    /** `getRules()`. */
    method GetRules() returns (rules: Decoded)
      modifies this`cache
      ensures (rules, cache) == CacheAside(old(cache), RulesKey, RulesBuilt(declared, afterGetRules))
    {
      var stored: Encoded;
      if RulesKey in cache {
        stored := cache[RulesKey];
      } else {
        var tempRules := BuildDraft(declared);
        tempRules := afterGetRules(tempRules);
        tempRules := SortByName(tempRules);
        stored := Encode(tempRules);
        cache := cache[RulesKey := stored];
      }
      rules := Decode(stored);
    }

    /**
     * `getInteractionRules()`. Once the memo is set it is returned and nothing
     * is read or written. Otherwise the interaction cache is consulted, and on
     * a miss the full catalog from `getRules` is filtered, stored the same way,
     * and the memo is set, to `false` too when nothing interacts. An error
     * leaves the memo unset and the interaction cache untouched.
     */
    method GetInteractionRules() returns (r: Result<Decoded, RuleError>)
      modifies this`cache, this`memo
      ensures old(memo).Some? ==> r == Ok(old(memo).value) && memo == old(memo) && cache == old(cache)
      ensures old(memo).None? && InteractionRulesKey in old(cache) ==>
                && r == Ok(Decode(old(cache)[InteractionRulesKey]))
                && memo == Some(r.value)
                && cache == old(cache)
      ensures old(memo).None? && InteractionRulesKey !in old(cache) ==>
                var (allRules, rulesStored) := CacheAside(old(cache), RulesKey, RulesBuilt(declared, afterGetRules));
                match InteractionCatalog(declared, Entries(allRules))
                case Ok(interaction) =>
                  var (value, stored) := CacheAside(rulesStored, InteractionRulesKey, interaction);
                  r == Ok(value) && memo == Some(value) && cache == stored
                case Err(error) =>
                  r == Err(error) && memo == None && cache == rulesStored
    {
      if memo.None? {
        var stored: Encoded;
        if InteractionRulesKey in cache {
          stored := cache[InteractionRulesKey];
        } else {
          var allRules := GetRules();
          var filtered := FilterInteracting(declared, Entries(allRules));
          if filtered.Err? {
            return Err(filtered.error);
          }
          stored := Encode(filtered.value);
          cache := cache[InteractionRulesKey := stored];
        }
        memo := Some(Decode(stored));
      }
      r := Ok(memo.value);
    }

    /**
     * The cache store drops `key` once its expiry has passed
     * (`Yaga.Rules.CacheExpire` seconds, 86400 by default). The memo is not
     * affected.
     */
    method Expire(key: string)
      modifies this`cache
      ensures cache == old(cache) - {key}
    {
      cache := cache - {key};
    }

    /**
     * `getCriteriaForm($ruleClass)`: the rule's form, name and description when
     * `ruleClass` names a declared class implementing `YagaRule`, the
     * Rule404 exception otherwise.
     */
    method GetCriteriaForm(ruleClass: string) returns (response: Response)
      ensures response.RenderData? <==> ruleClass in RuleClasses(declared)
      ensures response.RenderData? ==>
                exists d :: d in declared && d.className == ruleClass && d.implementsRule &&
                            response == RenderData(d.form, ruleClass, d.name, d.description)
      ensures response.RenderException? ==> response.message == Rule404
    {
      var rule := FindRule(declared, ruleClass);
      if rule.Some? {
        var d := rule.value;
        response := RenderData(d.form, ruleClass, d.name, d.description);
      } else {
        response := RenderException(Rule404);
      }
    }
  }
}
