/**
 * Rule discovery: which declared classes are rules, the draft catalog built
 * from them before the `AfterGetRules` hook, and the interaction filter that
 * keeps the rules whose `interacts()` is true.
 */
module Rules {
  import opened Wrappers
  import opened Catalogs

  /**
   * A class declared in the runtime, with the answers its instance gives:
   * whether it implements `YagaRule`, and `name()`, `description()`,
   * `interacts()` and the criteria form `form()` renders.
   */
  datatype RuleInfo = RuleInfo(
    className: string,
    implementsRule: bool,
    name: string,
    description: string,
    interacts: bool,
    form: string)

  /** Why the interaction filter could not finish: a catalog key that is not a loadable rule. */
  datatype RuleError = RuleNotLoadable(className: string)

  /** The runtime declares each class once. */
  predicate DistinctClassNames(ds: seq<RuleInfo>) {
    forall i, j :: 0 <= i < j < |ds| ==> ds[i].className != ds[j].className
  }

  /** The names of the declared classes that implement `YagaRule`. */
  function RuleClasses(ds: seq<RuleInfo>): set<string> {
    set d | d in ds && d.implementsRule :: d.className
  }

  /**
   * The check that a class of that name exists and implements `YagaRule`,
   * followed by instantiating it: the rule named `c`, if there is one.
   */
  function FindRule(ds: seq<RuleInfo>, c: string): (r: Option<RuleInfo>)
    ensures r.Some? <==> c in RuleClasses(ds)
    ensures r.Some? ==> r.value in ds && r.value.className == c && r.value.implementsRule
  {
    if ds == [] then None
    else if ds[0].className == c && ds[0].implementsRule then Some(ds[0])
    else
      assert ds == [ds[0]] + ds[1..];
      FindRule(ds[1..], c)
  }

  /**
   * The array the discovery loop leaves in `$tempRules`: for each declared
   * class in turn, `$tempRules[$className] = $rule->name()` when the class
   * implements `YagaRule`.
   */
  function Draft(ds: seq<RuleInfo>): Catalog
    decreases |ds|
  {
    if ds == [] then []
    else
      var d := ds[|ds| - 1];
      var prev := Draft(ds[..|ds| - 1]);
      if d.implementsRule then Put(prev, d.className, d.name) else prev
  }

  /**
   * The draft has one key per declared class implementing `YagaRule` and no
   * other key; each such class maps to its rule's `name()`.
   */
  lemma {:induction false} DraftIsDeclaredRules(ds: seq<RuleInfo>)
    requires DistinctClassNames(ds)
    ensures Keys(Draft(ds)) == RuleClasses(ds)
    ensures forall d :: d in ds && d.implementsRule ==> Lookup(Draft(ds), d.className) == Some(d.name)
  {
    if ds != [] {
      var pre, last := ds[..|ds| - 1], ds[|ds| - 1];
      assert ds == pre + [last];
      DraftIsDeclaredRules(pre);
      assert RuleClasses(ds) == RuleClasses(pre) + (if last.implementsRule then {last.className} else {});
      forall d | d in ds && d.implementsRule
        ensures Lookup(Draft(ds), d.className) == Some(d.name)
      {
        if last.implementsRule {
          PutLookup(Draft(pre), last.className, last.name, d.className);
        }
        if d != last {
          var i :| 0 <= i < |pre| && pre[i] == d;
          assert ds[i] == d;
        }
      }
    }
  }

  /** The discovery loop over the declared classes (the first `foreach` of `getRules`). */
  method BuildDraft(declared: seq<RuleInfo>) returns (tempRules: Catalog)
    ensures tempRules == Draft(declared)
  {
    tempRules := [];
    for i := 0 to |declared|
      invariant tempRules == Draft(declared[..i])
    {
      assert declared[..i + 1][..i] == declared[..i];
      if declared[i].implementsRule {
        tempRules := Put(tempRules, declared[i].className, declared[i].name);
      }
    }
    assert declared[..|declared|] == declared;
  }

  /** `(new $className())->interacts()`, or None when `$className` is not a loadable rule. */
  function InteractsOf(ds: seq<RuleInfo>, c: string): (r: Option<bool>)
    ensures r.Some? <==> c in RuleClasses(ds)
    ensures r.Some? ==> exists d :: d in ds && d.className == c && d.implementsRule && r.value == d.interacts
  {
    match FindRule(ds, c)
    case None => None
    case Some(d) => Some(d.interacts)
  }

  /**
   * What the interaction loop leaves in `$tempRules` for the catalog `all`, or
   * the first key of `all` it could not instantiate.
   */
  function InteractionCatalog(ds: seq<RuleInfo>, all: Catalog): Result<Catalog, RuleError>
    decreases |all|
  {
    if all == [] then Ok([])
    else
      var e := all[|all| - 1];
      match InteractionCatalog(ds, all[..|all| - 1])
      case Err(error) => Err(error)
      case Ok(prev) =>
        match InteractsOf(ds, e.className)
        case None => Err(RuleNotLoadable(e.className))
        case Some(interacts) => Ok(if interacts then Put(prev, e.className, e.name) else prev)
  }

  /**
   * A pair is among the interaction rules exactly when it is in `all` and its
   * rule interacts; its name is unchanged.
   */
  lemma {:induction false} InteractionIsFilter(ds: seq<RuleInfo>, all: Catalog)
    requires InteractionCatalog(ds, all).Ok?
    ensures forall e :: e in InteractionCatalog(ds, all).value <==>
                        e in all && InteractsOf(ds, e.className) == Some(true)
  {
    if all != [] {
      var pre, last := all[..|all| - 1], all[|all| - 1];
      assert all == pre + [last];
      InteractionIsFilter(ds, pre);
      var prev := InteractionCatalog(ds, pre).value;
      if InteractsOf(ds, last.className) == Some(true) {
        NotYetPut(ds, all, prev);
      }
    }
  }

  /** The last key of `all` is not among the interaction rules of the keys before it. */
  lemma NotYetPut(ds: seq<RuleInfo>, all: Catalog, prev: Catalog)
    requires all != []
    requires forall e :: e in prev ==> e in all[..|all| - 1]
    ensures all[|all| - 1].className !in Keys(prev)
  {
    forall e | e in prev ensures e.className != all[|all| - 1].className {
      var i :| 0 <= i < |all| - 1 && all[..|all| - 1][i] == e;
      assert all[i] == e;
    }
  }

  /** The interaction rules keep the order they have in `all`. */
  lemma {:induction false} InteractionKeepsOrder(ds: seq<RuleInfo>, all: Catalog)
    requires InteractionCatalog(ds, all).Ok?
    ensures Subseq(InteractionCatalog(ds, all).value, all)
  {
    if all != [] {
      var pre, last := all[..|all| - 1], all[|all| - 1];
      InteractionKeepsOrder(ds, pre);
      var prev := InteractionCatalog(ds, pre).value;
      if InteractsOf(ds, last.className) == Some(true) {
        InteractionIsFilter(ds, pre);
        NotYetPut(ds, all, prev);
        var r := prev + [last];
        assert r[..|r| - 1] == prev;
      }
    }
  }

  /** The filter fails exactly when some key of `all` is not a loadable rule, and names one. */
  lemma {:induction false} InteractionFailure(ds: seq<RuleInfo>, all: Catalog)
    ensures InteractionCatalog(ds, all).Ok? <==> Keys(all) <= RuleClasses(ds)
    ensures InteractionCatalog(ds, all).Err? ==>
              InteractionCatalog(ds, all).error.className in Keys(all) - RuleClasses(ds)
  {
    if all != [] {
      var pre, last := all[..|all| - 1], all[|all| - 1];
      assert all == pre + [last];
      assert Keys(all) == Keys(pre) + {last.className};
      InteractionFailure(ds, pre);
    }
  }

  /** Once the filter has failed on a prefix of `all`, it fails on `all` with the same error. */
  lemma {:induction false} FailureStops(ds: seq<RuleInfo>, all: Catalog, k: nat)
    requires k <= |all|
    requires InteractionCatalog(ds, all[..k]).Err?
    ensures InteractionCatalog(ds, all) == InteractionCatalog(ds, all[..k])
  {
    if k < |all| {
      var pre := all[..|all| - 1];
      assert pre[..k] == all[..k];
      FailureStops(ds, pre, k);
    } else {
      assert all[..k] == all;
    }
  }

  /** The interaction loop over the full catalog (the `foreach` of `getInteractionRules`). */
  method FilterInteracting(declared: seq<RuleInfo>, all: Catalog) returns (r: Result<Catalog, RuleError>)
    ensures r == InteractionCatalog(declared, all)
  {
    var tempRules: Catalog := [];
    for i := 0 to |all|
      invariant InteractionCatalog(declared, all[..i]) == Ok(tempRules)
    {
      assert all[..i + 1][..i] == all[..i];
      var className, name := all[i].className, all[i].name;
      var rule := FindRule(declared, className);
      if rule.None? {
        FailureStops(declared, all, i + 1);
        return Err(RuleNotLoadable(className));
      }
      if rule.value.interacts {
        tempRules := Put(tempRules, className, name);
      }
    }
    assert all[..|all|] == all;
    r := Ok(tempRules);
  }
}
