/**
  The package selection resolver: the configured filter rules are folded,
  in declaration order, over a working set that starts empty.
*/
module Selection {
  import opened Wrappers
  import opened Config
  import Catalog

  /**
    The regular-expression engine: which patterns compile, and which ids a
    compiled pattern matches. Its internals are not part of this model.
  */
  datatype RegexEngine = RegexEngine(compiles: string -> bool, isMatch: (string, string) -> bool)

  /** Whether `rule` decides about `x`: a pattern matching a catalog id, or the rule's own id. */
  predicate Touches(rule: FilterRule, x: string, catalog: set<string>, engine: RegexEngine)
  {
    match rule
    case Regex(p, _) => x in catalog && engine.isMatch(p, x)
    case Single(id, _) => x == id
  }

  /** Whether evaluating `rule` aborts the run. */
  predicate RuleFails(rule: FilterRule, catalog: set<string>, engine: RegexEngine)
  {
    match rule
    case Regex(p, _) => !engine.compiles(p)
    case Single(id, _) => id !in catalog
  }

  /** The error of a failing rule; an unknown id carries the name-map entry for it, if any. */
  function RuleError(rule: FilterRule, names: map<string, string>): SyncError
  {
    match rule
    case Regex(p, _) => InvalidPattern(p)
    case Single(id, _) => PackageIdNotFound(id, if id in names then Some(names[id]) else None)
  }

  /** One rule applied to the working set. */
  function ApplyRule(rule: FilterRule, catalog: set<string>, names: map<string, string>,
                     engine: RegexEngine, working: set<string>): (r: Result<set<string>, SyncError>)
    ensures r.Err? <==> RuleFails(rule, catalog, engine)
    ensures r.Err? ==> r.error == RuleError(rule, names)
    ensures r.Ok? ==> forall x :: x in r.value <==>
      if Touches(rule, x, catalog, engine) then rule.op == Include else x in working
  {
    match rule
    case Regex(p, op) =>
      if !engine.compiles(p) then Err(InvalidPattern(p))
      else
        var matched := set c | c in catalog && engine.isMatch(p, c);
        Ok(if op == Include then working + matched else working - matched)
    case Single(id, op) =>
      if id !in catalog then Err(RuleError(rule, names))
      else Ok(if op == Include then working + {id} else working - {id})
  }

  /**
    The rules folded left over `working`: the first failing rule aborts the
    fold. The result never holds an id that was neither in the starting set
    nor in the catalog.
  */
  function Resolve(rules: seq<FilterRule>, catalog: set<string>, names: map<string, string>,
                   engine: RegexEngine, working: set<string>): (r: Result<set<string>, SyncError>)
    ensures r.Ok? ==> r.value <= working + catalog
    decreases |rules|
  {
    if rules == [] then Ok(working)
    else match ApplyRule(rules[0], catalog, names, engine, working)
      case Err(e) => Err(e)
      case Ok(next) => Resolve(rules[1..], catalog, names, engine, next)
  }

  /**
    Reference definition of the outcome for one id: the LAST rule that
    touches `x` decides; when no rule touches it, its membership in the
    starting set stands.
  */
  predicate Verdict(rules: seq<FilterRule>, x: string, catalog: set<string>,
                    engine: RegexEngine, working: set<string>)
    decreases |rules|
  {
    if rules == [] then x in working
    else
      var last := rules[|rules| - 1];
      if Touches(last, x, catalog, engine) then last.op == Include
      else Verdict(rules[..|rules| - 1], x, catalog, engine, working)
  }

  /** Resolving two rule lists one after the other is resolving their concatenation. */
  lemma {:induction false} ResolveAppend(first: seq<FilterRule>, second: seq<FilterRule>, catalog: set<string>,
                                         names: map<string, string>, engine: RegexEngine, working: set<string>)
    ensures Resolve(first + second, catalog, names, engine, working) ==
      match Resolve(first, catalog, names, engine, working)
      case Err(e) => Err(e)
      case Ok(mid) => Resolve(second, catalog, names, engine, mid)
    decreases |first|
  {
    if first == [] {
      assert first + second == second;
    } else {
      assert (first + second)[0] == first[0];
      assert (first + second)[1..] == first[1..] + second;
      match ApplyRule(first[0], catalog, names, engine, working)
      case Err(e) =>
      case Ok(next) => ResolveAppend(first[1..], second, catalog, names, engine, next);
    }
  }

  /** A successful resolution keeps exactly the ids whose last touching rule includes them. */
  lemma {:induction false} ResolveIsLastRuleWins(rules: seq<FilterRule>, catalog: set<string>,
                                                 names: map<string, string>, engine: RegexEngine, working: set<string>)
    requires Resolve(rules, catalog, names, engine, working).Ok?
    ensures forall x :: x in Resolve(rules, catalog, names, engine, working).value <==>
      Verdict(rules, x, catalog, engine, working)
    decreases |rules|
  {
    if rules != [] {
      var init, last := rules[..|rules| - 1], rules[|rules| - 1];
      assert rules == init + [last];
      ResolveAppend(init, [last], catalog, names, engine, working);
      var mid := Resolve(init, catalog, names, engine, working);
      assert mid.Ok?;
      ResolveIsLastRuleWins(init, catalog, names, engine, working);
      assert [last][1..] == [];
    }
  }

  /** The resolution fails exactly when some rule fails, and then with the first failing rule's error. */
  lemma {:induction false} ResolveFailsAtFirstBadRule(rules: seq<FilterRule>, catalog: set<string>,
                                                      names: map<string, string>, engine: RegexEngine, working: set<string>)
    ensures Resolve(rules, catalog, names, engine, working).Err? <==>
      exists k :: 0 <= k < |rules| && RuleFails(rules[k], catalog, engine)
    ensures Resolve(rules, catalog, names, engine, working).Err? ==>
      exists k :: 0 <= k < |rules| && RuleFails(rules[k], catalog, engine) &&
        (forall j :: 0 <= j < k ==> !RuleFails(rules[j], catalog, engine)) &&
        Resolve(rules, catalog, names, engine, working).error == RuleError(rules[k], names)
    decreases |rules|
  {
    if rules != [] {
      match ApplyRule(rules[0], catalog, names, engine, working)
      case Err(e) =>
      case Ok(next) =>
        ResolveFailsAtFirstBadRule(rules[1..], catalog, names, engine, next);
        if Resolve(rules, catalog, names, engine, working).Err? {
          var k :| 0 <= k < |rules[1..]| && RuleFails(rules[1..][k], catalog, engine) &&
            (forall j :: 0 <= j < k ==> !RuleFails(rules[1..][j], catalog, engine)) &&
            Resolve(rules[1..], catalog, names, engine, next).error == RuleError(rules[1..][k], names);
          assert RuleFails(rules[k + 1], catalog, engine);
          forall j | 0 <= j < k + 1 ensures !RuleFails(rules[j], catalog, engine) {
            if j > 0 { assert rules[j] == rules[1..][j - 1]; }
          }
        } else {
          forall k | 0 <= k < |rules| ensures !RuleFails(rules[k], catalog, engine) {
            if k > 0 { assert rules[k] == rules[1..][k - 1]; }
          }
        }
    }
  }

  /** An id some rule touches gets the same verdict from every starting set; an untouched id keeps its membership. */
  lemma {:induction false} VerdictShape(rules: seq<FilterRule>, x: string, catalog: set<string>,
                                        engine: RegexEngine, working: set<string>, other: set<string>)
    ensures (exists k :: 0 <= k < |rules| && Touches(rules[k], x, catalog, engine)) ==>
      Verdict(rules, x, catalog, engine, working) == Verdict(rules, x, catalog, engine, other)
    ensures (forall k :: 0 <= k < |rules| ==> !Touches(rules[k], x, catalog, engine)) ==>
      Verdict(rules, x, catalog, engine, working) == (x in working)
    decreases |rules|
  {
    if rules != [] {
      var init := rules[..|rules| - 1];
      VerdictShape(init, x, catalog, engine, working, other);
      if !Touches(rules[|rules| - 1], x, catalog, engine) {
        forall k | 0 <= k < |init| && Touches(init[k], x, catalog, engine)
          ensures exists k' :: 0 <= k' < |rules| && Touches(rules[k'], x, catalog, engine)
        {
          assert rules[k] == init[k];
        }
        if exists k :: 0 <= k < |rules| && Touches(rules[k], x, catalog, engine) {
          var k :| 0 <= k < |rules| && Touches(rules[k], x, catalog, engine);
          assert init[k] == rules[k];
        }
      }
    }
  }

  /** Running the same rules again over their own result changes nothing. */
  lemma ResolveIdempotent(rules: seq<FilterRule>, catalog: set<string>,
                          names: map<string, string>, engine: RegexEngine, working: set<string>)
    requires Resolve(rules, catalog, names, engine, working).Ok?
    ensures Resolve(rules, catalog, names, engine, Resolve(rules, catalog, names, engine, working).value) ==
      Resolve(rules, catalog, names, engine, working)
  {
    var once := Resolve(rules, catalog, names, engine, working).value;
    ResolveFailsAtFirstBadRule(rules, catalog, names, engine, working);
    ResolveFailsAtFirstBadRule(rules, catalog, names, engine, once);
    var twice := Resolve(rules, catalog, names, engine, once).value;
    ResolveIsLastRuleWins(rules, catalog, names, engine, working);
    ResolveIsLastRuleWins(rules, catalog, names, engine, once);
    forall x ensures x in twice <==> x in once {
      VerdictShape(rules, x, catalog, engine, once, working);
    }
    assert twice == once;
  }

  /**
    Rule order matters: excluding an id and then including every match keeps
    it, while the reverse order drops it.
  */
  lemma OrderMatters(a: string, pattern: string, catalog: set<string>, names: map<string, string>, engine: RegexEngine)
    requires a in catalog && engine.compiles(pattern) && engine.isMatch(pattern, a)
    ensures var excludeFirst := Resolve([Single(a, Exclude), Regex(pattern, Include)], catalog, names, engine, {});
            excludeFirst.Ok? && a in excludeFirst.value
    ensures var includeFirst := Resolve([Regex(pattern, Include), Single(a, Exclude)], catalog, names, engine, {});
            includeFirst.Ok? && a !in includeFirst.value
  {
    var excludeFirst := [Single(a, Exclude), Regex(pattern, Include)];
    var includeFirst := [Regex(pattern, Include), Single(a, Exclude)];
    ResolveFailsAtFirstBadRule(excludeFirst, catalog, names, engine, {});
    ResolveFailsAtFirstBadRule(includeFirst, catalog, names, engine, {});
    ResolveIsLastRuleWins(excludeFirst, catalog, names, engine, {});
    ResolveIsLastRuleWins(includeFirst, catalog, names, engine, {});
    assert excludeFirst[..1] == [Single(a, Exclude)];
    assert includeFirst[..1] == [Regex(pattern, Include)];
  }

  /**
    The catalog {PKG1, PKG2, Other} with the rules [regex "^PKG" include,
    single "PKG2" exclude] selects {PKG1}, for any engine under which
    "^PKG" compiles and matches exactly the two PKG ids.
  */
  lemma PrefixThenExcludeScenario(names: map<string, string>, engine: RegexEngine)
    requires engine.compiles("^PKG")
    requires engine.isMatch("^PKG", "PKG1") && engine.isMatch("^PKG", "PKG2") && !engine.isMatch("^PKG", "Other")
    ensures Resolve([Regex("^PKG", Include), Single("PKG2", Exclude)], {"PKG1", "PKG2", "Other"}, names, engine, {})
      == Ok({"PKG1"})
  {
    var rules := [Regex("^PKG", Include), Single("PKG2", Exclude)];
    var catalog := {"PKG1", "PKG2", "Other"};
    ResolveFailsAtFirstBadRule(rules, catalog, names, engine, {});
    ResolveIsLastRuleWins(rules, catalog, names, engine, {});
    assert rules[..1] == [Regex("^PKG", Include)];
    var r := Resolve(rules, catalog, names, engine, {}).value;
    forall x ensures x in r <==> x == "PKG1" {
      assert Verdict(rules, x, catalog, engine, {}) <==> x == "PKG1";
    }
    assert r == {"PKG1"};
  }

  /**
    The loop over the catalog set that collects the ids a compiled pattern
    matches.
  */
  method MatchPattern(engine: RegexEngine, pattern: string, catalog: set<string>) returns (matched: set<string>)
    ensures forall c :: c in matched <==> c in catalog && engine.isMatch(pattern, c)
  {
    matched := {};
    var rest := catalog;
    while rest != {}
      invariant rest <= catalog
      invariant forall c :: c in matched <==> c in catalog - rest && engine.isMatch(pattern, c)
      decreases |rest|
    {
      var p :| p in rest;
      if engine.isMatch(pattern, p) {
        matched := matched + {p};
      }
      rest := rest - {p};
    }
  }

  /** The rule loop: reassigns the working set once per rule, in declaration order. */
  method ResolveRules(rules: seq<FilterRule>, catalog: set<string>, names: map<string, string>, engine: RegexEngine)
    returns (r: Result<set<string>, SyncError>)
    ensures r == Resolve(rules, catalog, names, engine, {})
  {
    var working: set<string> := {};
    for i := 0 to |rules|
      invariant Resolve(rules, catalog, names, engine, {}) == Resolve(rules[i..], catalog, names, engine, working)
    {
      assert rules[i..][1..] == rules[i + 1..];
      match rules[i]
      case Regex(pattern, op) =>
        if !engine.compiles(pattern) {
          return Err(InvalidPattern(pattern));
        }
        var matched := MatchPattern(engine, pattern, catalog);
        assert matched == set c | c in catalog && engine.isMatch(pattern, c);
        if op == Include {
          working := working + matched;
        } else {
          working := working - matched;
        }
      case Single(id, op) =>
        if id !in catalog {
          return Err(PackageIdNotFound(id, if id in names then Some(names[id]) else None));
        }
        if op == Include {
          working := working + {id};
        } else {
          working := working - {id};
        }
    }
    return Ok(working);
  }

  /**
    Indexing followed by the rule loop: the selected packages are a subset
    of the catalog ids, and the outcome is the fold of the rules over the
    indexed catalog.
  */
  method SelectPackages(entries: seq<CatalogEntry>, rules: seq<FilterRule>, engine: RegexEngine)
    returns (r: Result<set<string>, SyncError>)
    ensures r == Resolve(rules, Catalog.CatalogIds(entries), Catalog.NameIndex(entries), engine, {})
    ensures r.Ok? ==> r.value <= Catalog.CatalogIds(entries)
  {
    var ids, names := Catalog.IndexCatalog(entries);
    r := ResolveRules(rules, ids, names, engine);
  }
}
