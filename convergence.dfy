/** domain_convergence as a function of its input: which "||domain^" rules it drops
    because a parent domain is blocked too, and in what order it returns the rest. */
module Convergence {
  import opened Strings
  import opened Dedup

  /** The rules domain_convergence treats as domain rules: "||" ... "^". */
  predicate IsDomainRule(rule: string) {
    StartsWith(rule, "||") && EndsWith(rule, "^")
  }

  /** rule[2:-1]: the domain between "||" and "^". */
  function DomainOf(rule: string): (d: string)
    requires IsDomainRule(rule)
    ensures rule == "||" + d + "^"
  {
    assert rule[1] == "||"[1] && rule[|rule| - 1] == "^"[0];
    assert rule == rule[..2] + rule[2..|rule| - 1] + rule[|rule| - 1..];
    rule[2..|rule| - 1]
  }

  /** The rule written back for a domain: domain_rules[d], which is always "||d^". */
  function Wrap(d: string): (rule: string)
    ensures IsDomainRule(rule) && DomainOf(rule) == d
  {
    var rule := "||" + d + "^";
    assert rule[..2] == "||";
    assert rule[|rule| - 1..] == "^";
    rule
  }

  /** other_rules: the rules that are not domain rules, in input order. */
  function OtherRules(rules: seq<string>): seq<string> {
    if rules == [] then []
    else
      var rest := OtherRules(rules[..|rules| - 1]);
      var r := rules[|rules| - 1];
      if IsDomainRule(r) then rest else rest + [r]
  }

  /** The domain of every domain rule, in input order, repeats included. */
  function DomainsInOrder(rules: seq<string>): seq<string> {
    if rules == [] then []
    else
      var rest := DomainsInOrder(rules[..|rules| - 1]);
      var r := rules[|rules| - 1];
      if IsDomainRule(r) then rest + [DomainOf(r)] else rest
  }

  /** The keys of domain_rules in the dict's insertion order: each domain at its
      first occurrence. */
  function DomainKeys(rules: seq<string>): seq<string> {
    Deduplicate(DomainsInOrder(rules)).unique
  }

  /** domain.endswith('.' + other): domain is a proper subdomain of other. */
  predicate ExtendsDomain(d: string, o: string) {
    EndsWith(d, "." + o)
  }

  /** Some other key is a parent domain of d. */
  predicate Dominated(d: string, keys: seq<string>) {
    exists o :: o in keys && ExtendsDomain(d, o)
  }

  /** to_remove */
  function Removed(keys: seq<string>): set<string> {
    set d | d in keys && Dominated(d, keys)
  }

  /** The domains of ds that no key dominates, in the order of ds. */
  function Survivors(ds: seq<string>, keys: seq<string>): seq<string> {
    if ds == [] then []
    else
      var rest := Survivors(ds[..|ds| - 1], keys);
      var d := ds[|ds| - 1];
      if Dominated(d, keys) then rest else rest + [d]
  }

  /** [domain_rules[d] for d in ds] */
  function WrapAll(ds: seq<string>): (rules: seq<string>)
    ensures |rules| == |ds|
    ensures forall i :: 0 <= i < |ds| ==> rules[i] == Wrap(ds[i])
  {
    if ds == [] then [] else WrapAll(ds[..|ds| - 1]) + [Wrap(ds[|ds| - 1])]
  }

  /** domain_convergence: the input as it is when convergence is switched off;
      otherwise the other rules, then the surviving domain rules in key order. */
  function Converge(enabled: bool, rules: seq<string>): seq<string> {
    if !enabled then rules
    else
      var keys := DomainKeys(rules);
      OtherRules(rules) + WrapAll(Survivors(keys, keys))
  }

  /** converged_count after domain_convergence. */
  function ConvergedCount(rules: seq<string>): nat {
    |Removed(DomainKeys(rules))|
  }

  /** A domain is removed exactly when it is a key and some key is its parent; the
      parent is never the domain itself. */
  lemma RemovedIff(keys: seq<string>, d: string)
    ensures d in Removed(keys) <==> d in keys && exists o :: o in keys && o != d && ExtendsDomain(d, o)
  {
    if d in keys && Dominated(d, keys) {
      var o :| o in keys && ExtendsDomain(d, o);
      assert |o| < |d|;
    }
  }

  /** A parent of a parent is a parent. */
  lemma ExtendsTransitive(d: string, o: string, p: string)
    requires ExtendsDomain(d, o) && ExtendsDomain(o, p)
    ensures ExtendsDomain(d, p)
  {
    var dot := "." + p;
    assert o[|o| - |dot|..] == dot;
    assert d[|d| - |o|..] == o by {
      assert d[|d| - |"." + o|..] == "." + o;
    }
    assert d[|d| - |dot|..] == o[|o| - |dot|..];
  }

  /** Every removed domain keeps a parent among the surviving keys, so dropping it
      never leaves a subdomain unblocked. */
  lemma {:induction false} SurvivingParent(keys: seq<string>, d: string)
    requires d in Removed(keys)
    ensures exists p :: p in keys && !Dominated(p, keys) && ExtendsDomain(d, p)
    decreases |d|
  {
    var o :| o in keys && ExtendsDomain(d, o);
    if Dominated(o, keys) {
      assert |o| < |d|;
      SurvivingParent(keys, o);
      var p :| p in keys && !Dominated(p, keys) && ExtendsDomain(o, p);
      ExtendsTransitive(d, o, p);
    }
  }

  /** Survivors keeps exactly the undominated domains, in order. */
  lemma {:induction false} SurvivorsMembers(ds: seq<string>, keys: seq<string>)
    ensures forall d :: d in Survivors(ds, keys) <==> d in ds && !Dominated(d, keys)
    ensures NoDup(ds) ==> NoDup(Survivors(ds, keys))
  {
    if ds != [] {
      var init := ds[..|ds| - 1];
      assert ds == init + [ds[|ds| - 1]];
      SurvivorsMembers(init, keys);
    }
  }

  /** Among distinct domains, the survivors and the dominated ones add up. */
  lemma {:induction false} SurvivorsCount(ds: seq<string>, keys: seq<string>)
    requires NoDup(ds)
    ensures |Survivors(ds, keys)| + |set d | d in ds && Dominated(d, keys)| == |ds|
  {
    if ds != [] {
      var init := ds[..|ds| - 1];
      var last := ds[|ds| - 1];
      SurvivorsCount(init, keys);
      assert last !in init;
      assert ds == init + [last];
      DominatedSnoc(init, last, keys);
    }
  }

  /** The dominated domains of a list with one more element. */
  lemma DominatedSnoc(init: seq<string>, last: string, keys: seq<string>)
    requires last !in init
    ensures var before := set d | d in init && Dominated(d, keys);
      |set d | d in init + [last] && Dominated(d, keys)| == |before| + (if Dominated(last, keys) then 1 else 0)
  {
    var before := set d | d in init && Dominated(d, keys);
    if Dominated(last, keys) {
      assert (set d | d in init + [last] && Dominated(d, keys)) == before + {last};
    } else {
      assert (set d | d in init + [last] && Dominated(d, keys)) == before;
    }
  }

  /** Each domain rule contributes its domain, each other rule goes to other_rules. */
  lemma {:induction false} SplitCount(rules: seq<string>)
    ensures |OtherRules(rules)| + |DomainsInOrder(rules)| == |rules|
  {
    if rules != [] {
      SplitCount(rules[..|rules| - 1]);
    }
  }

  /** A domain is collected exactly when its rule "||d^" is in the input. */
  lemma {:induction false} DomainsMembers(rules: seq<string>)
    ensures forall d :: d in DomainsInOrder(rules) <==> Wrap(d) in rules
  {
    if rules != [] {
      var init := rules[..|rules| - 1];
      var last := rules[|rules| - 1];
      assert rules == init + [last];
      DomainsMembers(init);
      if IsDomainRule(last) {
        assert last == Wrap(DomainOf(last));
      }
      forall d ensures d in DomainsInOrder(rules) <==> Wrap(d) in rules {
        assert Wrap(d) in rules <==> Wrap(d) in init || Wrap(d) == last;
        assert Wrap(d) == last ==> IsDomainRule(last) && DomainOf(last) == d;
      }
    }
  }

  /** Distinct rules give distinct domains, so no key is inserted twice. */
  lemma {:induction false} DomainsNoDup(rules: seq<string>)
    requires NoDup(rules)
    ensures NoDup(DomainsInOrder(rules))
  {
    if rules != [] {
      var init := rules[..|rules| - 1];
      var last := rules[|rules| - 1];
      DomainsNoDup(init);
      if IsDomainRule(last) {
        DomainsMembers(init);
        assert last !in init;
        assert Wrap(DomainOf(last)) == last;
      }
    }
  }

  /** The rules domain_convergence keeps are exactly the input rules that are not
      domain rules, and the domain rules whose domain no other key is a parent of. */
  lemma ConvergeMembers(rules: seq<string>, r: string)
    ensures r in Converge(true, rules) <==>
      r in rules && (!IsDomainRule(r) || !Dominated(DomainOf(r), DomainKeys(rules)))
  {
    var keys := DomainKeys(rules);
    var survivors := Survivors(keys, keys);
    OtherMembers(rules);
    SurvivorsMembers(keys, keys);
    DeduplicateMembers(DomainsInOrder(rules));
    DomainsMembers(rules);
    var wrapped := WrapAll(survivors);
    assert r in wrapped <==> exists i :: 0 <= i < |survivors| && r == Wrap(survivors[i]);
    if IsDomainRule(r) {
      assert r == Wrap(DomainOf(r));
      if r in wrapped {
        var i :| 0 <= i < |survivors| && r == Wrap(survivors[i]);
        assert DomainOf(r) == survivors[i];
      }
      if r in rules && !Dominated(DomainOf(r), keys) {
        assert DomainOf(r) in survivors;
        var i :| 0 <= i < |survivors| && survivors[i] == DomainOf(r);
        assert wrapped[i] == r;
      }
    } else {
      forall i | 0 <= i < |survivors| ensures r != Wrap(survivors[i]) {
        assert IsDomainRule(Wrap(survivors[i]));
      }
    }
  }

  /** other_rules holds exactly the input rules that are not domain rules. */
  lemma {:induction false} OtherMembers(rules: seq<string>)
    ensures forall r :: r in OtherRules(rules) <==> r in rules && !IsDomainRule(r)
  {
    if rules != [] {
      var init := rules[..|rules| - 1];
      assert rules == init + [rules[|rules| - 1]];
      OtherMembers(init);
    }
  }

  /** On input without repeats, domain_convergence returns as many rules as it
      received less converged_count. */
  lemma ConvergeLength(rules: seq<string>)
    requires NoDup(rules)
    ensures |Converge(true, rules)| + ConvergedCount(rules) == |rules|
  {
    var ds := DomainsInOrder(rules);
    DomainsNoDup(rules);
    DeduplicateDistinct(ds);
    var keys := DomainKeys(rules);
    assert keys == ds;
    SurvivorsCount(keys, keys);
    assert (set d | d in keys && Dominated(d, keys)) == Removed(keys);
    SplitCount(rules);
  }

  /** other_rules of a concatenation is the concatenation of the other_rules. */
  lemma {:induction false} OtherRulesAppend(a: seq<string>, b: seq<string>)
    ensures OtherRules(a + b) == OtherRules(a) + OtherRules(b)
  {
    if b != [] {
      var init := b[..|b| - 1];
      assert (a + b)[..|a + b| - 1] == a + init;
      OtherRulesAppend(a, init);
    } else {
      assert a + b == a;
    }
  }

  /** The collected domains of a concatenation are those of each part, in turn. */
  lemma {:induction false} DomainsAppend(a: seq<string>, b: seq<string>)
    ensures DomainsInOrder(a + b) == DomainsInOrder(a) + DomainsInOrder(b)
  {
    if b != [] {
      var init := b[..|b| - 1];
      assert (a + b)[..|a + b| - 1] == a + init;
      DomainsAppend(a, init);
    } else {
      assert a + b == a;
    }
  }

  /** other_rules holds no domain rule and passes through a second split whole. */
  lemma {:induction false} OtherRulesSplit(rules: seq<string>)
    ensures OtherRules(OtherRules(rules)) == OtherRules(rules)
    ensures DomainsInOrder(OtherRules(rules)) == []
  {
    if rules != [] {
      var init := rules[..|rules| - 1];
      var r := rules[|rules| - 1];
      OtherRulesSplit(init);
      if !IsDomainRule(r) {
        var o := OtherRules(init);
        assert (o + [r])[..|o|] == o;
      }
    }
  }

  /** The rules written back for a list of domains are all domain rules, and
      collecting them gives back the domains. */
  lemma {:induction false} WrapAllSplit(ds: seq<string>)
    ensures OtherRules(WrapAll(ds)) == []
    ensures DomainsInOrder(WrapAll(ds)) == ds
  {
    if ds != [] {
      var init := ds[..|ds| - 1];
      WrapAllSplit(init);
      var w := WrapAll(ds);
      assert w[..|w| - 1] == WrapAll(init);
      assert w[|w| - 1] == Wrap(ds[|ds| - 1]);
      assert ds == init + [ds[|ds| - 1]];
    }
  }

  /** Domains none of which the keys dominate all survive. */
  lemma {:induction false} SurvivorsAll(ds: seq<string>, keys: seq<string>)
    requires forall d :: d in ds ==> !Dominated(d, keys)
    ensures Survivors(ds, keys) == ds
  {
    if ds != [] {
      var init := ds[..|ds| - 1];
      assert ds[|ds| - 1] in ds;
      assert forall d :: d in init ==> d in ds;
      SurvivorsAll(init, keys);
      assert ds == init + [ds[|ds| - 1]];
    }
  }

  /** Converging a second time removes nothing more: among the surviving domains
      none is a subdomain of another. */
  lemma ConvergeIdempotent(enabled: bool, rules: seq<string>)
    ensures Converge(enabled, Converge(enabled, rules)) == Converge(enabled, rules)
  {
    if enabled {
      var keys := DomainKeys(rules);
      var survivors := Survivors(keys, keys);
      var out := Converge(true, rules);
      assert out == OtherRules(rules) + WrapAll(survivors);
      OtherRulesAppend(OtherRules(rules), WrapAll(survivors));
      DomainsAppend(OtherRules(rules), WrapAll(survivors));
      OtherRulesSplit(rules);
      WrapAllSplit(survivors);
      assert OtherRules(out) == OtherRules(rules);
      assert DomainsInOrder(out) == survivors;
      DeduplicateNoDup(DomainsInOrder(rules));
      SurvivorsMembers(keys, keys);
      DeduplicateDistinct(survivors);
      assert DomainKeys(out) == survivors;
      forall d | d in survivors ensures !Dominated(d, survivors) {
        assert !Dominated(d, keys);
        forall o | o in survivors ensures !ExtendsDomain(d, o) {
          assert o in keys;
        }
      }
      SurvivorsAll(survivors, survivors);
    }
  }

  /** other_rules of input without repeats has no repeats. */
  lemma {:induction false} OtherRulesNoDup(rules: seq<string>)
    requires NoDup(rules)
    ensures NoDup(OtherRules(rules))
  {
    if rules != [] {
      var init := rules[..|rules| - 1];
      var r := rules[|rules| - 1];
      OtherRulesNoDup(init);
      OtherMembers(init);
      assert r !in init;
    }
  }

  /** The rules written back for distinct domains are distinct. */
  lemma WrapAllNoDup(ds: seq<string>)
    requires NoDup(ds)
    ensures NoDup(WrapAll(ds))
  {
    var w := WrapAll(ds);
    forall i, j | 0 <= i < j < |w| ensures w[i] != w[j] {
      assert DomainOf(w[i]) == ds[i] && DomainOf(w[j]) == ds[j];
    }
  }

  /** domain_convergence returns input without repeats without repeats. */
  lemma ConvergeNoDup(enabled: bool, rules: seq<string>)
    requires NoDup(rules)
    ensures NoDup(Converge(enabled, rules))
  {
    if enabled {
      var keys := DomainKeys(rules);
      var survivors := Survivors(keys, keys);
      var others := OtherRules(rules);
      var wrapped := WrapAll(survivors);
      OtherRulesNoDup(rules);
      DeduplicateNoDup(DomainsInOrder(rules));
      SurvivorsMembers(keys, keys);
      WrapAllNoDup(survivors);
      OtherMembers(rules);
      forall i | 0 <= i < |wrapped| ensures IsDomainRule(wrapped[i]) {
        assert wrapped[i] == Wrap(survivors[i]);
      }
      assert forall x :: x in others ==> !IsDomainRule(x);
      NoDupConcat(others, wrapped);
    }
  }

  /** sorted(..., key=len, reverse=True) orders longest first. */
  ghost predicate LongestFirst(xs: seq<string>) {
    forall a, b :: 0 <= a < b < |xs| ==> |xs[a]| >= |xs[b]|
  }

  /** Puts x in front of the first element no longer than it, so that among equal
      lengths the earlier input element stays first. */
  function InsertByLength(x: string, xs: seq<string>): (r: seq<string>)
    requires LongestFirst(xs)
    ensures LongestFirst(r)
    ensures multiset(r) == multiset(xs) + multiset{x}
    ensures |r| == |xs| + 1 && (r[0] == x || (xs != [] && r[0] == xs[0]))
  {
    if xs == [] then [x]
    else if |xs[0]| <= |x| then
      ConsLongest(x, xs);
      [x] + xs
    else
      TailLongest(xs);
      var rest := InsertByLength(x, xs[1..]);
      ConsInserted(x, xs, rest);
      [xs[0]] + rest
  }

  /** The tail of a longest-first list is longest first. */
  lemma TailLongest(xs: seq<string>)
    requires LongestFirst(xs) && xs != []
    ensures LongestFirst(xs[1..])
    ensures |xs| > 1 ==> |xs[1]| <= |xs[0]|
  {
    forall a, b | 0 <= a < b < |xs| - 1 ensures |xs[1..][a]| >= |xs[1..][b]| {
      assert xs[1..][a] == xs[a + 1] && xs[1..][b] == xs[b + 1];
    }
  }

  /** The step of InsertByLength that keeps the head in front. */
  lemma ConsInserted(x: string, xs: seq<string>, rest: seq<string>)
    requires xs != [] && |x| < |xs[0]| && LongestFirst(xs) && LongestFirst(rest)
    requires multiset(rest) == multiset(xs[1..]) + multiset{x}
    requires |rest| == |xs| && (rest[0] == x || (|xs| > 1 && rest[0] == xs[1]))
    ensures LongestFirst([xs[0]] + rest)
    ensures multiset([xs[0]] + rest) == multiset(xs) + multiset{x}
  {
    TailLongest(xs);
    ConsLongest(xs[0], rest);
    assert xs == [xs[0]] + xs[1..];
    assert multiset(xs) == multiset{xs[0]} + multiset(xs[1..]);
  }

  lemma ConsLongest(h: string, rest: seq<string>)
    requires LongestFirst(rest) && (rest != [] ==> |rest[0]| <= |h|)
    ensures LongestFirst([h] + rest)
  {
    var r := [h] + rest;
    forall a, b | 0 <= a < b < |r| ensures |r[a]| >= |r[b]| {
      if a == 0 {
        assert |rest[0]| >= |rest[b - 1]|;
      } else {
        assert r[a] == rest[a - 1] && r[b] == rest[b - 1];
      }
    }
  }

  /** sorted(domain_rules.keys(), key=len, reverse=True): a stable sort, longest
      first. */
  function SortByLength(xs: seq<string>): (r: seq<string>)
    ensures LongestFirst(r)
    ensures multiset(r) == multiset(xs)
  {
    if xs == [] then []
    else
      assert xs == [xs[0]] + xs[1..];
      InsertByLength(xs[0], SortByLength(xs[1..]))
  }

  /** The test in the inner loop: domain.endswith('.' + other) or domain == other. */
  predicate Covers(d: string, o: string) {
    ExtendsDomain(d, o) || d == o
  }

  /** In a longest-first list without repeats, some later entry covers entry i exactly
      when some entry is a parent of it: a parent is strictly shorter, so it can only
      come later, and equality never holds. Which order ties take does not matter. */
  lemma LaterCovers(sorted: seq<string>, i: nat)
    requires NoDup(sorted) && LongestFirst(sorted) && i < |sorted|
    ensures (exists k :: i < k < |sorted| && Covers(sorted[i], sorted[k])) <==> Dominated(sorted[i], sorted)
  {
    var d := sorted[i];
    if Dominated(d, sorted) {
      var o :| o in sorted && ExtendsDomain(d, o);
      var k :| 0 <= k < |sorted| && sorted[k] == o;
      assert |o| < |d|;
      assert i < k;
      assert Covers(d, sorted[k]);
    }
    forall k | i < k < |sorted| && Covers(d, sorted[k]) ensures Dominated(d, sorted) {
      assert sorted[k] != d;
      assert sorted[k] in sorted;
    }
  }
}
