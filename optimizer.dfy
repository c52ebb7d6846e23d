/** The FilterOptimizer object: its configuration, its statistics counters, and the
    rule-processing steps of run() as methods that build their results with the
    same loops, sets and dictionaries, each proved equal to the function that
    specifies it. */
module Optimizer {
  import opened Optional
  import opened Strings
  import opened StringOrder
  import opened Canonical
  import opened Settings
  import opened Normalizer
  import opened Dedup
  import opened Convergence

  /** Steps 2 to 4 of run(): normalize every line, keep the non-empty results,
      deduplicate them and converge the domain rules. */
  function Optimize(cfg: Config, lines: seq<string>): seq<string> {
    Converge(cfg.domainConvergence, Deduplicate(NormalizeAll(cfg, lines)).unique)
  }

  /** converged_count after run(): domain_convergence sets it only when enabled. */
  function ConvergedAfterRun(cfg: Config, lines: seq<string>): nat {
    if cfg.domainConvergence then ConvergedCount(Deduplicate(NormalizeAll(cfg, lines)).unique) else 0
  }

  /** final_count = valid_count - duplicate_count - converged_count is the number
      of rules run() ends with. */
  lemma FinalCountIsOutputLength(cfg: Config, lines: seq<string>)
    ensures |NormalizeAll(cfg, lines)| - |Deduplicate(NormalizeAll(cfg, lines)).duplicates|
      - ConvergedAfterRun(cfg, lines) == |Optimize(cfg, lines)|
  {
    var valid := NormalizeAll(cfg, lines);
    CountsAddUp(valid);
    if cfg.domainConvergence {
      DeduplicateNoDup(valid);
      ConvergeLength(Deduplicate(valid).unique);
    }
  }

  /** Running steps 2 to 4 on their own output changes nothing: every output rule
      is its own normal form, the output has no repeats, and no surviving domain
      has a parent left to remove it. */
  lemma OptimizeIdempotent(cfg: Config, lines: seq<string>)
    ensures Optimize(cfg, Optimize(cfg, lines)) == Optimize(cfg, lines)
  {
    var valid := NormalizeAll(cfg, lines);
    var unique := Deduplicate(valid).unique;
    var out := Optimize(cfg, lines);
    assert out == Converge(cfg.domainConvergence, unique);
    NormalizeAllSpec(cfg, lines);
    DeduplicateMembers(valid);
    forall x | x in out ensures x != [] && Normalize(cfg, x) == Some(x) {
      assert x in unique by {
        if cfg.domainConvergence {
          ConvergeMembers(unique, x);
        }
      }
      var l :| l in lines && Normalize(cfg, l) == Some(x);
      NormalizeIdempotent(cfg, l);
    }
    NormalizeAllFixed(cfg, out);
    DeduplicateNoDup(valid);
    ConvergeNoDup(cfg.domainConvergence, unique);
    DeduplicateDistinct(out);
    ConvergeIdempotent(cfg.domainConvergence, unique);
  }

  /** The first loop of domain_convergence: domain_rules, a dictionary from each
      domain to its rule whose insertion order keys records, and other_rules. */
  method CollectDomains(rules: seq<string>)
    returns (domainRules: map<string, string>, keys: seq<string>, otherRules: seq<string>)
    ensures otherRules == OtherRules(rules)
    ensures keys == DomainKeys(rules)
    ensures forall d :: d in domainRules <==> d in keys
    ensures forall d :: d in domainRules ==> domainRules[d] == Wrap(d)
  {
    domainRules := map[];
    keys := [];
    otherRules := [];
    for i := 0 to |rules|
      invariant otherRules == OtherRules(rules[..i])
      invariant keys == DomainKeys(rules[..i])
      invariant forall d :: d in domainRules <==> d in keys
      invariant forall d :: d in domainRules ==> domainRules[d] == Wrap(d)
    {
      var rule := rules[i];
      assert rules[..i + 1][..i] == rules[..i];
      if StartsWith(rule, "||") && EndsWith(rule, "^") {
        var domain := DomainOf(rule);
        if domain !in domainRules {
          keys := keys + [domain];
        }
        domainRules := domainRules[domain := rule];
      } else {
        otherRules := otherRules + [rule];
      }
    }
    assert rules[..|rules|] == rules;
  }

  /** The second phase of domain_convergence: sort the domains longest first and
      mark each one that ends with "." followed by a later, shorter domain. */
  method FindConverged(keys: seq<string>) returns (toRemove: set<string>)
    requires NoDup(keys)
    ensures toRemove == Removed(keys)
  {
    var sortedDomains := SortByLength(keys);
    NoDupPermutation(keys, sortedDomains);
    PermutationMembers(sortedDomains, keys);
    toRemove := {};
    for i := 0 to |sortedDomains|
      invariant forall d :: d in toRemove <==> d in sortedDomains[..i] && Dominated(d, keys)
    {
      var domain := sortedDomains[i];
      LaterCovers(sortedDomains, i);
      assert Dominated(domain, sortedDomains) <==> Dominated(domain, keys);
      PrefixStep(sortedDomains, i);
      var found := FindCover(sortedDomains, i);
      if found {
        toRemove := toRemove + {domain};
      }
    }
    assert sortedDomains[..|sortedDomains|] == sortedDomains;
  }

  /** The inner loop of the second phase: does some later domain cover entry i? */
  method FindCover(sortedDomains: seq<string>, i: nat) returns (found: bool)
    requires i < |sortedDomains|
    ensures found <==> exists k :: i < k < |sortedDomains| && Covers(sortedDomains[i], sortedDomains[k])
  {
    var domain := sortedDomains[i];
    var j := i + 1;
    while j < |sortedDomains|
      invariant i + 1 <= j <= |sortedDomains|
      invariant forall k :: i < k < j ==> !Covers(domain, sortedDomains[k])
    {
      var other := sortedDomains[j];
      if Covers(domain, other) {
        return true;
      }
      j := j + 1;
    }
    return false;
  }

  /** The last loop of domain_convergence: the rules of the domains not marked, in
      insertion order. */
  method KeepSurvivors(keys: seq<string>, domainRules: map<string, string>, toRemove: set<string>)
    returns (finalDomainRules: seq<string>)
    requires forall d :: d in keys ==> d in domainRules && domainRules[d] == Wrap(d)
    requires toRemove == Removed(keys)
    ensures finalDomainRules == WrapAll(Survivors(keys, keys))
  {
    finalDomainRules := [];
    for k := 0 to |keys|
      invariant finalDomainRules == WrapAll(Survivors(keys[..k], keys))
    {
      var d := keys[k];
      assert keys[..k + 1][..k] == keys[..k];
      assert d in keys;
      if d !in toRemove {
        finalDomainRules := finalDomainRules + [domainRules[d]];
      }
    }
    assert keys[..|keys|] == keys;
  }

  class FilterOptimizer {
    const config: Config
    var originalCount: nat
    var validCount: nat
    var duplicateCount: nat
    var convergedCount: nat
    var finalCount: int

    /** domain_convergence is the only writer of converged_count and the
        configuration never changes, so with convergence switched off the counter
        keeps its initial 0. */
    ghost predicate Valid()
      reads this
    {
      !config.domainConvergence ==> convergedCount == 0
    }

    /** __init__, with the configuration load_config would return. */
    constructor (config: Config)
      ensures this.config == config
      ensures originalCount == 0 && validCount == 0 && duplicateCount == 0
      ensures convergedCount == 0 && finalCount == 0
      ensures Valid()
    {
      this.config := config;
      originalCount := 0;
      validCount := 0;
      duplicateCount := 0;
      convergedCount := 0;
      finalCount := 0;
    }

    /** normalize_rule */
    method NormalizeRule(rule: string) returns (r: Option<string>)
      ensures r == Normalize(config, rule)
    {
      var s := Strip(rule);
      if s == [] || StartsWith(s, "!") || StartsWith(s, "#") {
        return None;
      }
      s := CollapseSpaces(s);
      if '$' in s {
        var pattern := PatternOf(s);
        var modifierList := ModifierTokens(OptionsOf(s));
        var validModifiers: seq<string> := [];
        for k := 0 to |modifierList|
          invariant validModifiers == KeepSupported(modifierList[..k], config.supportedModifiers)
        {
          var modifier := modifierList[k];
          KeepSupportedSnoc(modifierList, k, config.supportedModifiers);
          if ModName(modifier) in config.supportedModifiers {
            validModifiers := validModifiers + [modifier];
          }
        }
        assert modifierList[..|modifierList|] == modifierList;
        if validModifiers != [] {
          validModifiers := SortStrings(validModifiers);
          s := pattern + "$" + Join(validModifiers, ',');
        } else {
          s := pattern;
        }
      }
      if config.formatStandardize {
        s := ConvertToPipeFormat(s);
      }
      return Some(s);
    }

    /** Step 2 of run(): normalize each line and keep the results that are neither
        None nor empty. */
    method NormalizeLines(lines: seq<string>) returns (normalizedRules: seq<string>)
      ensures normalizedRules == NormalizeAll(config, lines)
    {
      normalizedRules := [];
      for i := 0 to |lines|
        invariant normalizedRules == NormalizeAll(config, lines[..i])
      {
        NormalizeAllSnoc(config, lines, i);
        var normalized := NormalizeRule(lines[i]);
        if normalized.Some? && normalized.value != [] {
          normalizedRules := normalizedRules + [normalized.value];
        }
      }
      assert lines[..|lines|] == lines;
    }

    /** deduplicate_rules */
    method DeduplicateRules(rules: seq<string>) returns (uniqueRules: seq<string>)
      modifies this`duplicateCount
      ensures uniqueRules == Deduplicate(rules).unique
      ensures duplicateCount == |Deduplicate(rules).duplicates|
    {
      var seen: set<string> := {};
      uniqueRules := [];
      var duplicates: seq<string> := [];
      for i := 0 to |rules|
        invariant Deduplicate(rules[..i]) == Partition(uniqueRules, duplicates)
        invariant forall x :: x in seen <==> x in uniqueRules
      {
        var rule := rules[i];
        assert rules[..i + 1][..i] == rules[..i];
        if rule !in seen {
          seen := seen + {rule};
          uniqueRules := uniqueRules + [rule];
        } else {
          duplicates := duplicates + [rule];
        }
      }
      assert rules[..|rules|] == rules;
      duplicateCount := |duplicates|;
    }

    /** domain_convergence, in its three phases. */
    method DomainConvergence(rules: seq<string>) returns (finalRules: seq<string>)
      modifies this`convergedCount
      ensures finalRules == Converge(config.domainConvergence, rules)
      ensures config.domainConvergence ==> convergedCount == ConvergedCount(rules)
      ensures !config.domainConvergence ==> convergedCount == old(convergedCount)
    {
      if !config.domainConvergence {
        return rules;
      }
      var domainRules, keys, otherRules := CollectDomains(rules);
      DeduplicateNoDup(DomainsInOrder(rules));
      var toRemove := FindConverged(keys);
      var finalDomainRules := KeepSurvivors(keys, domainRules, toRemove);
      finalRules := otherRules + finalDomainRules;
      convergedCount := |toRemove|;
    }

    /** The final_count line of save_statistics. */
    method SaveStatistics()
      modifies this`finalCount
      ensures finalCount == validCount - duplicateCount - convergedCount
    {
      finalCount := validCount - duplicateCount - convergedCount;
    }

    /** run() on the lines load_rules returned: False when there are none; otherwise
        steps 2 to 4 and the statistics, after which final_count is the number of
        rules produced. */
    method Run(lines: seq<string>) returns (ok: bool, finalRules: seq<string>)
      requires Valid()
      modifies this
      ensures Valid()
      ensures originalCount == |lines|
      ensures ok <==> lines != []
      ensures !ok ==> validCount == old(validCount) && duplicateCount == old(duplicateCount)
      ensures !ok ==> convergedCount == old(convergedCount) && finalCount == old(finalCount)
      ensures ok ==> finalRules == Optimize(config, lines)
      ensures ok ==> validCount == |NormalizeAll(config, lines)|
      ensures ok ==> duplicateCount == |Deduplicate(NormalizeAll(config, lines)).duplicates|
      ensures ok ==> convergedCount == ConvergedAfterRun(config, lines)
      ensures ok ==> finalCount == |finalRules|
    {
      originalCount := |lines|;
      if lines == [] {
        return false, [];
      }
      var normalizedRules := NormalizeLines(lines);
      validCount := |normalizedRules|;
      var deduplicatedRules := DeduplicateRules(normalizedRules);
      finalRules := DomainConvergence(deduplicatedRules);
      SaveStatistics();
      FinalCountIsOutputLength(config, lines);
      ok := true;
    }
  }
}
