# AdGuard Home filter optimizer, modelled in Dafny

This project models the rule-processing core of `scripts/optimizer.py`. That script
reads AdGuard Home filter lists and reduces them. It normalizes every line
(`normalize_rule`), optionally rewrites rules to the anchored `||host^` form
(`convert_to_pipe_format`), and removes exact duplicates (`deduplicate_rules`).
It then drops `||sub.domain^` rules whose parent domain is blocked too
(`domain_convergence`), and counts what each step removed (`save_statistics`).
The model also covers the recursive configuration merge (`update_config`).

Modules, one per file:

- `Strings` (strings.dfy): `str.strip()` and `re.sub(r'\s+', ' ', …)` over a fixed
  whitespace set, `str.find`, `str.split`, `str.join`, with their round trips.
- `StringOrder` (ordering.dfy): Python's `str` ordering and the sort used by `list.sort()`.
- `Canonical` (canonical.dfy): `convert_to_pipe_format`, with its two regular expressions
  written out as functions and proved to pick the match Python's engine reports.
- `Settings` (config.dfy): the configuration document, `update_config`, the defaults.
- `Normalizer` (normalize.dfy): `normalize_rule` as a function, and step 2 of `run`.
- `Dedup` (dedup.dfy): `deduplicate_rules` as a function of its input.
- `Convergence` (convergence.dfy): `domain_convergence` as a function of its input.
- `Optimizer` (optimizer.dfy): class `FilterOptimizer`. Its statistics counters are
  fields. Its methods run the source's loops, sets and dictionaries, and each is
  proved equal to the function that specifies it.

The Python code works on a dictionary `self.stats`; the model keeps each counter as
a field of the class. `domain_convergence` is one Python method. The model runs it as
three helper methods, one per loop (`CollectDomains`, `FindConverged` with `FindCover`
for the inner loop, `KeepSurvivors`), that `DomainConvergence` calls in the same order.

The comments in `convert_to_pipe_format` (scripts/optimizer.py:143 and :147) say that
rules already in the anchored form and exception rules are returned as they are.
The checks under them are narrower, and the model follows the checks.
`"@@||a.com^$important"` is an exception rule, but it does not end with `^`, so it
fails all three pass-through tests and is rewritten to `"@@||a.com^"`.
`"a.com$important"` becomes `"||a.com^"`. Both lose their options
(`Canonical.ExceptionLosesOptions`, `Canonical.PlainHostLosesOptions`).

## Model

| member | source | states |
|---|---|---|
| Settings.MergeSpec | scripts/optimizer.py:62-68 | After update_config every key of update is in base, and no other key is added. Where both values are dictionaries they are merged recursively. Otherwise the update's value replaces the old one. Keys that update does not mention keep their values. |
| Settings.UpdateConfig | scripts/optimizer.py:62-68 | The loop over update's keys, recursing into nested dictionaries, yields exactly `Merge(base, update)`, whatever order the keys are visited in. |
| Settings.MergeEmpty | scripts/optimizer.py:64 | An empty update leaves base unchanged. |
| Settings.MergeIdempotent | scripts/optimizer.py:62-68 | Applying the same update twice is the same as applying it once. |
| Settings.MergeSelf | scripts/optimizer.py:62-68 | Merging a dictionary into itself yields that dictionary. |
| Settings.DefaultConfig | scripts/optimizer.py:31-38 | Convergence and format standardization are on by default, with seven supported modifiers. |
| Strings.Strip | scripts/optimizer.py:104 | strip() removes the leading and trailing whitespace: the result is a slice of the input with no whitespace at either end, and everything cut off is whitespace. |
| Strings.StripIdempotent | scripts/optimizer.py:104 | Stripping twice is stripping once. |
| Strings.StripChars | scripts/optimizer.py:104 | Stripping only removes characters, so a character absent from the input is absent from the result. |
| Strings.CollapseIsCollapsed | scripts/optimizer.py:111 | After the whitespace substitution every whitespace character is a single space, and no two spaces are adjacent. |
| Strings.CollapseKeepsVisible | scripts/optimizer.py:111 | The substitution keeps every non-whitespace character, in order. |
| Strings.JoinSplit | scripts/optimizer.py:120 | Joining the pieces of a split with its separator restores the string. |
| Strings.SplitJoin | scripts/optimizer.py:120 | Splitting a join of separator-free pieces restores the pieces. |
| Strings.CollapsedFixed | scripts/optimizer.py:111 | The substitution leaves a string unchanged when its whitespace is already single spaces between other characters. |
| Strings.CollapseTrimmed | scripts/optimizer.py:104-111 | A stripped line stays without whitespace at either end after the substitution, keeps its first character, and has no runs of whitespace left. |
| Strings.SplitPiecesFree | scripts/optimizer.py:120 | No piece of a split holds the separator. |
| StringOrder.SortStrings | scripts/optimizer.py:130 | The sort's result is ordered by Python's str ordering and is a permutation of its input. |
| StringOrder.SortedPermutationUnique | scripts/optimizer.py:130 | Two ordered permutations of the same strings are equal, so any correct sort gives the same list of modifiers. |
| StringOrder.SortSorted | scripts/optimizer.py:130 | Sorting an already ordered list changes nothing. |
| StringOrder.LexLeTotal | scripts/optimizer.py:130 | Any two strings are comparable. |
| StringOrder.LexLeTransitive | scripts/optimizer.py:130 | The str ordering is transitive. |
| StringOrder.LexLeAntisymmetric | scripts/optimizer.py:130 | Strings that are ordered both ways are equal. |
| Normalizer.NormalizeNoneIff | scripts/optimizer.py:104-108 | A line normalizes to None exactly when it is all whitespace, or when its first non-whitespace character is '!' or '#'. |
| Normalizer.ModNameSpec | scripts/optimizer.py:124 | A modifier's name is the part before its first '=', or the whole modifier when it has no '='. |
| Normalizer.StrippedNonEmptySpec | scripts/optimizer.py:120 | The comprehension keeps the non-empty stripped pieces, and only those. |
| Normalizer.ModifierTokensSpec | scripts/optimizer.py:120 | Every modifier token is non-empty, has no whitespace at either end and contains no comma. |
| Normalizer.KeepSupportedSpec | scripts/optimizer.py:121-126 | A token is kept as often as it occurs if its name is supported, and is dropped otherwise. |
| Normalizer.KeptModifiersSpec | scripts/optimizer.py:121-130 | valid_modifiers after its sort is ordered, and holds exactly the supported tokens, each as often as it occurs. |
| Normalizer.KeptAreTokens | scripts/optimizer.py:120-126 | Every kept modifier is a non-empty, stripped, comma-free token whose name is supported. |
| Normalizer.FilterModifiersParse | scripts/optimizer.py:114-133 | The pattern before the first '$' holds no '$'. The result contains '$' exactly when some modifier is kept. With no modifier kept, the result is the bare pattern. Otherwise it starts with the pattern, and the text after its '$' splits back into the kept modifiers. |
| Normalizer.AttachParse | scripts/optimizer.py:131 | In pattern + "$" + ",".join(kept), the first '$' is the one written, and the text after it splits back into kept. |
| Normalizer.ModifierTokensOfJoin | scripts/optimizer.py:117-120 | Re-parsing the joined kept modifiers yields the same modifiers. |
| Normalizer.FilterModifiersIdempotent | scripts/optimizer.py:114-133 | Filtering the modifiers of an already filtered rule changes nothing. |
| Normalizer.ReadBack | scripts/optimizer.py:114-133 | A stripped pattern with a sorted list of supported tokens passes the filter unchanged. |
| Normalizer.StrippedNonEmptyFixed | scripts/optimizer.py:120 | Tokens that are already stripped and non-empty pass through the comprehension unchanged. |
| Normalizer.KeepAllSupported | scripts/optimizer.py:123-126 | When every token's name is supported, every token is kept. |
| Normalizer.BlankPatternRule | scripts/optimizer.py:116-133 | "$foo" normalizes to the empty string rather than to None, which is why run() also drops empty results. |
| Normalizer.FilterModifiersCollapsed | scripts/optimizer.py:114-133 | Rebuilding the rule from its pattern and kept modifiers creates no runs of whitespace. |
| Normalizer.FilterModifiersTrimmed | scripts/optimizer.py:114-133 | The rebuilt rule has no whitespace at either end, and it starts with the line's first character or with the '$'. |
| Normalizer.NormalizeIdempotent | scripts/optimizer.py:102-139 | A non-empty result of normalize_rule normalizes to itself. |
| Normalizer.NormalizeAllFixed | scripts/optimizer.py:326-330 | Lines that are their own non-empty normal form pass step 2 unchanged. |
| Normalizer.NormalizeAllSpec | scripts/optimizer.py:326-332 | There are at most as many valid rules as lines. Each valid rule is the non-empty normal form of some line, and every line with a non-empty normal form contributes it. |
| Normalizer.NormalizeAllSnoc | scripts/optimizer.py:327-330 | One more line adds its normal form exactly when that is neither None nor "". |
| Canonical.FindHostIsSearch | scripts/optimizer.py:158 | The host search finds nothing exactly when the pattern matches nowhere. Otherwise it reports the leftmost match, with the longest first part still followed by '.' and two letters. |
| Canonical.SearchResultUnique | scripts/optimizer.py:158 | At most one span satisfies that description. |
| Canonical.AnchoredHostPrefixIff | scripts/optimizer.py:153 | The anchored-prefix test holds exactly when the rule starts with two bars, then a non-empty run without '/', '^' or '$', then '^'. |
| Canonical.ConvertSpec | scripts/optimizer.py:141-167 | A rule that passes one of the three pass-through checks is returned unchanged, and so is a rule with no host match. Any other rule becomes the anchored form of its host (two bars, the host, a caret), with the "@@" marker in front when the rule starts with "@@". The host is exactly the match re.search reports. |
| Canonical.HostShape | scripts/optimizer.py:158 | The host written into a rewritten rule is a non-empty run of [a-zA-Z0-9.-] ending in '.' and at least two letters. |
| Canonical.ConvertIdempotent | scripts/optimizer.py:141-167 | Converting twice is converting once. |
| Canonical.RewrittenShape | scripts/optimizer.py:158-165 | A rewritten rule starts with a bar or '@', ends with '^', and contains neither whitespace nor '$'. |
| Canonical.NoDotNoHost | scripts/optimizer.py:158-167 | A rule without '.' has no host match and is not rewritten. |
| Canonical.KeptWithOptions | scripts/optimizer.py:153-155 | The anchored rule for a.com with the option important passes the anchored-prefix check and keeps its option. |
| Canonical.PlainHostLosesOptions | scripts/optimizer.py:158-165 | "a.com$important" becomes the anchored rule for a.com, and its option is lost. |
| Canonical.ExceptionLosesOptions | scripts/optimizer.py:144-163 | The anchored exception rule for a.com with the option important fails all three checks, because it does not end with '^' and does not start with two bars. It is rewritten to the bare anchored exception rule for a.com. |
| Canonical.ExceptionUrlToHost | scripts/optimizer.py:158-163 | "@@sub.ok.net/x" becomes the anchored exception rule for sub.ok.net. |
| Dedup.FirstIndex | scripts/optimizer.py:175-178 | The first occurrence of x: it holds x, and no x comes before it. |
| Dedup.DeduplicateMembers | scripts/optimizer.py:175-180 | unique_rules holds exactly the input rules, and every duplicate is one of them. |
| Dedup.DeduplicateNoDup | scripts/optimizer.py:176-178 | unique_rules contains no rule twice. |
| Dedup.DeduplicateMultiset | scripts/optimizer.py:175-180 | unique_rules and duplicates together hold the input rules exactly, with multiplicity. |
| Dedup.DeduplicateOrder | scripts/optimizer.py:175-178 | unique_rules is in the order of first occurrence in the input. |
| Dedup.CountsAddUp | scripts/optimizer.py:175-182 | len(unique_rules) + duplicate_count equals the number of input rules. |
| Dedup.DeduplicateDistinct | scripts/optimizer.py:175-180 | A list without repeats is kept whole, and no duplicates are recorded. |
| Dedup.DeduplicateIdempotent | scripts/optimizer.py:169-189 | Deduplicating the result again changes nothing. |
| Dedup.NoDupPermutation | scripts/optimizer.py:210 | Reordering a list without repeats cannot create one. |
| Convergence.DomainOf | scripts/optimizer.py:202 | rule[2:-1] is the domain d, and the rule is two bars, d, then a caret. |
| Convergence.Wrap | scripts/optimizer.py:203 | The value stored for a domain is a domain rule whose domain is that key. |
| Convergence.RemovedIff | scripts/optimizer.py:214-219 | A domain is removed exactly when it is a key and some other key is its parent (it ends with "." followed by that key). |
| Convergence.ExtendsTransitive | scripts/optimizer.py:217 | A parent's parent is a parent. |
| Convergence.SurvivingParent | scripts/optimizer.py:214-222 | Every removed domain has a parent that is kept, so no subdomain is left unblocked. |
| Convergence.SurvivorsMembers | scripts/optimizer.py:222 | The kept domains are exactly the keys that are not removed, without repeats. |
| Convergence.SurvivorsCount | scripts/optimizer.py:222-225 | Among distinct domains, the kept ones and the removed ones add up to all of them. |
| Convergence.SplitCount | scripts/optimizer.py:200-205 | Each input rule is either a domain rule or goes to other_rules. |
| Convergence.DomainsMembers | scripts/optimizer.py:200-203 | A domain is collected exactly when its anchored rule is in the input. |
| Convergence.DomainsNoDup | scripts/optimizer.py:200-203 | Input without repeats yields each domain once. |
| Convergence.ConvergeMembers | scripts/optimizer.py:191-233 | The output holds exactly the input rules that are not domain rules, plus the domain rules whose domain has no parent among the keys. |
| Convergence.OtherMembers | scripts/optimizer.py:204-205 | other_rules holds exactly the input rules that are not domain rules. |
| Convergence.ConvergeLength | scripts/optimizer.py:222-226 | On input without repeats, the output length is the input length minus converged_count. |
| Convergence.ConvergeIdempotent | scripts/optimizer.py:191-233 | Converging the output again removes nothing. |
| Convergence.ConvergeNoDup | scripts/optimizer.py:191-233 | Input without repeats gives output without repeats. |
| Convergence.OtherRulesAppend | scripts/optimizer.py:200-205 | other_rules of a concatenation is the concatenation of the parts' other_rules. |
| Convergence.WrapAllSplit | scripts/optimizer.py:200-222 | Splitting the rebuilt domain rules again yields no other rules and gives back the domains. |
| Convergence.SurvivorsAll | scripts/optimizer.py:214-222 | When no domain has a parent among the keys, every domain survives. |
| Convergence.WrapAll | scripts/optimizer.py:222 | The list comprehension yields one rule per domain, in order, each equal to domain_rules[d]. |
| Convergence.SortByLength | scripts/optimizer.py:210 | The sort by length puts the longest domains first, and its result is a permutation of the keys. |
| Convergence.InsertByLength | scripts/optimizer.py:210 | Inserting into a longest-first list keeps it longest first and adds exactly the one element. |
| Convergence.LaterCovers | scripts/optimizer.py:214-219 | In the longest-first list, a later domain passes the inner test exactly when some key is a parent. Ties in length do not matter. |
| Optimizer.FinalCountIsOutputLength | scripts/optimizer.py:277 | valid_count − duplicate_count − converged_count equals the number of rules the pipeline returns. |
| Optimizer.OptimizeIdempotent | scripts/optimizer.py:326-341 | Running steps 2 to 4 on their own output returns that output unchanged. |
| Optimizer.CollectDomains | scripts/optimizer.py:197-205 | The first loop builds other_rules, and domain_rules keyed in insertion order, with each value equal to the anchored rule of its key. |
| Optimizer.FindConverged | scripts/optimizer.py:210-219 | The sort and the nested loop with break build exactly the set of keys that have a parent key. |
| Optimizer.FindCover | scripts/optimizer.py:215-219 | The inner loop breaks exactly when some later domain covers this one. |
| Optimizer.KeepSurvivors | scripts/optimizer.py:222 | The comprehension yields the rules of the surviving keys in insertion order. |
| Optimizer.FilterOptimizer.constructor | scripts/optimizer.py:17-27 | All counters start at 0. |
| Optimizer.FilterOptimizer.NormalizeRule | scripts/optimizer.py:102-139 | normalize_rule, including its append loop and sort, returns exactly `Normalize(config, rule)`. |
| Optimizer.FilterOptimizer.NormalizeLines | scripts/optimizer.py:326-330 | The loop keeps exactly the results that are neither None nor "", in line order. |
| Optimizer.FilterOptimizer.DeduplicateRules | scripts/optimizer.py:169-189 | The loop with its seen set returns the unique rules of `Deduplicate` and sets duplicate_count to the number of duplicates. |
| Optimizer.FilterOptimizer.DomainConvergence | scripts/optimizer.py:191-233 | With convergence off, the input is returned and converged_count is unchanged. Otherwise the result is the other rules, then the surviving domain rules, and converged_count is the number removed. |
| Optimizer.FilterOptimizer.SaveStatistics | scripts/optimizer.py:277 | final_count = valid_count − duplicate_count − converged_count. |
| Optimizer.FilterOptimizer.Run | scripts/optimizer.py:318-346 | With no lines, run() fails and leaves every counter except original_count as it was. Otherwise the output is steps 2 to 4 applied in order, and each counter holds its step's count. final_count equals the number of output rules. converged_count stays 0 while convergence is off. |

## Left out

- File loading (`load_rules`), YAML parsing (`load_config`) and the configuration
  file are not modelled. `Run` takes the loaded lines as a parameter, and the
  class takes the loaded settings. The `remove_invalid`, `input` and `output`
  settings are never read by the modelled code.
- `load_config` calls `update_config` only when the loaded document is non-empty;
  a non-dictionary document raises and is caught there. This is not modelled.
- `update_config` changes `base` in place, so a nested dictionary shared between
  `base` and another owner would change for both. The model works on values
  (`map<string, Value>`) and does not capture that aliasing.
- Output is not modelled: `save_removed_rules`, the file writing and header of
  `save_results`, and the JSON dump and console output of `save_statistics` and
  `print_statistics`. The same holds for every `print`, the start/end timestamps,
  `duration_seconds` and `reduction_percent`.
- `save_results` reads `stats['reduction_percent']` before `save_statistics` sets
  it. The model does not follow that path: `Run` returns the converged rules and
  then computes final_count.
- The file is written in `sorted(rules)` order. That order is not modelled;
  `Run` returns the rules in pipeline order.
- Whitespace is a fixed list of characters: those `str.isspace()` accepts in current
  Python versions. The same list serves `strip()` and `\s`. Changes to Python's
  Unicode tables in later versions are not tracked.
- The two regular expressions of `convert_to_pipe_format` are modelled as
  functions for these two patterns only. Python's general regex engine is not
  modelled.
- Convergence.SortByLength: the model's sort is stable like Python's, but no
  lemma states stability. Ties in length cannot change which domains are
  removed (`Convergence.LaterCovers`).
