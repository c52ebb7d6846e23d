/** normalize_rule as a function of the configuration and one raw line, and the
    filter that run() applies to the normalized lines. */
module Normalizer {
  import opened Optional
  import opened Strings
  import opened StringOrder
  import opened Canonical
  import opened Settings

  /** modifier.split('=')[0] */
  function ModName(m: string): string {
    Split(m, '=')[0]
  }

  /** A modifier's name is everything before its first '=', or the whole modifier
      when it has none. */
  lemma ModNameSpec(m: string)
    ensures ModName(m) <= m && '=' !in ModName(m)
    ensures |ModName(m)| == |m| || m[|ModName(m)|] == '='
  {
  }

  /** [p.strip() for p in pieces if p.strip()] */
  function StrippedNonEmpty(pieces: seq<string>): seq<string> {
    if pieces == [] then []
    else
      var rest := StrippedNonEmpty(pieces[..|pieces| - 1]);
      var t := Strip(pieces[|pieces| - 1]);
      if t == [] then rest else rest + [t]
  }

  /** The comprehension keeps the non-empty strips of the pieces and nothing else. */
  lemma {:induction false} StrippedNonEmptySpec(pieces: seq<string>)
    ensures forall t :: t in StrippedNonEmpty(pieces) ==> t != [] && exists p :: p in pieces && t == Strip(p)
    ensures forall p :: p in pieces && Strip(p) != [] ==> Strip(p) in StrippedNonEmpty(pieces)
  {
    if pieces != [] {
      var init := pieces[..|pieces| - 1];
      var last := pieces[|pieces| - 1];
      assert pieces == init + [last];
      StrippedNonEmptySpec(init);
    }
  }

  /** modifier_list: the comma-separated tokens of the option text, each stripped,
      empty ones dropped. */
  function ModifierTokens(text: string): seq<string> {
    StrippedNonEmpty(Split(text, ','))
  }

  /** Every modifier token is non-empty, has no whitespace at either end and holds
      no comma. */
  lemma ModifierTokensSpec(text: string)
    ensures forall t :: t in ModifierTokens(text) ==> t != [] && Trimmed(t) && ',' !in t
  {
    var pieces := Split(text, ',');
    StrippedNonEmptySpec(pieces);
    SplitPiecesFree(text, ',');
    forall t | t in ModifierTokens(text) ensures t != [] && Trimmed(t) && ',' !in t {
      var p :| p in pieces && t == Strip(p);
      StripChars(p, ',');
    }
  }

  /** The loop that builds valid_modifiers: the tokens whose name is in supported,
      in their original order. */
  function KeepSupported(tokens: seq<string>, supported: seq<string>): seq<string> {
    if tokens == [] then []
    else
      var init := tokens[..|tokens| - 1];
      var last := tokens[|tokens| - 1];
      if ModName(last) in supported then KeepSupported(init, supported) + [last]
      else KeepSupported(init, supported)
  }

  /** Each token is kept exactly as often as it occurs when its name is supported,
      and never otherwise. */
  lemma {:induction false} KeepSupportedSpec(tokens: seq<string>, supported: seq<string>)
    ensures forall t ::
              multiset(KeepSupported(tokens, supported))[t] ==
              (if ModName(t) in supported then multiset(tokens)[t] else 0)
  {
    if tokens != [] {
      var init := tokens[..|tokens| - 1];
      assert tokens == init + [tokens[|tokens| - 1]];
      KeepSupportedSpec(init, supported);
    }
  }

  /** valid_modifiers after its sort(). */
  function KeptModifiers(supported: seq<string>, text: string): seq<string> {
    SortStrings(KeepSupported(ModifierTokens(text), supported))
  }

  /** The kept modifiers are sorted, and each modifier token is kept exactly as often
      as it occurs when its name is supported, and never otherwise. */
  lemma KeptModifiersSpec(supported: seq<string>, text: string)
    ensures Sorted(KeptModifiers(supported, text))
    ensures forall t ::
              multiset(KeptModifiers(supported, text))[t] ==
              (if ModName(t) in supported then multiset(ModifierTokens(text))[t] else 0)
  {
    KeepSupportedSpec(ModifierTokens(text), supported);
  }

  /** f"{pattern}${','.join(valid_modifiers)}", or the bare pattern when no
      modifier is kept. */
  function Attach(pattern: string, kept: seq<string>): string {
    if kept == [] then pattern else pattern + "$" + Join(kept, ',')
  }

  /** parts[0].strip() after rule.split('$', 1) */
  function PatternOf(rule: string): string {
    Strip(rule[..IndexOf(rule, '$')])
  }

  /** parts[1].strip() after rule.split('$', 1) */
  function OptionsOf(rule: string): string
    requires '$' in rule
  {
    Strip(rule[IndexOf(rule, '$') + 1..])
  }

  /** The '$' step of normalize_rule: split at the first '$', strip both halves and
      keep the supported modifiers, sorted, after the pattern. */
  function FilterModifiers(supported: seq<string>, rule: string): string {
    if '$' !in rule then rule
    else Attach(PatternOf(rule), KeptModifiers(supported, OptionsOf(rule)))
  }

  /** normalize_rule: None for a blank or comment line, the canonical rule otherwise. */
  function Normalize(cfg: Config, line: string): Option<string> {
    var s := Strip(line);
    if s == [] || StartsWith(s, "!") || StartsWith(s, "#") then None
    else
      var rule := FilterModifiers(cfg.supportedModifiers, CollapseSpaces(s));
      Some(if cfg.formatStandardize then ConvertToPipeFormat(rule) else rule)
  }

  /** A line normalizes to None exactly when it is all whitespace, or when its first
      non-whitespace character is '!' or '#'. */
  lemma NormalizeNoneIff(cfg: Config, line: string)
    ensures Normalize(cfg, line).None? <==>
      (forall k :: 0 <= k < |line| ==> IsSpace(line[k])) ||
      (LeadingSpaces(line) < |line| && (line[LeadingSpaces(line)] == '!' || line[LeadingSpaces(line)] == '#'))
  {
    var s := Strip(line);
    var n := LeadingSpaces(line);
    if s != [] {
      assert s[0] == line[n];
      assert StartsWith(s, "!") <==> s[0] == '!';
      assert StartsWith(s, "#") <==> s[0] == '#';
    }
  }

  /** Options attached to a '$'-free pattern can be read back: the first '$' of the
      result is the one written, and what follows it splits into the options. */
  lemma AttachParse(pattern: string, kept: seq<string>)
    requires '$' !in pattern
    requires |kept| >= 1 && forall t :: t in kept ==> ',' !in t
    ensures var r := Attach(pattern, kept);
      && IndexOf(r, '$') == |pattern| < |r|
      && r[..|pattern|] == pattern
      && r[|pattern| + 1..] == Join(kept, ',')
      && Split(r[|pattern| + 1..], ',') == kept
  {
    var opts := Join(kept, ',');
    var r := pattern + "$" + opts;
    assert r == pattern + ['$'] + opts;
    IndexOfConcat(pattern, '$', opts);
    assert r[..|pattern|] == pattern;
    assert r[|pattern| + 1..] == opts;
    SplitJoin(kept, ',');
  }

  /** Every kept modifier is one of the tokens. */
  lemma KeptAreTokens(supported: seq<string>, text: string)
    ensures forall t :: t in KeptModifiers(supported, text) ==>
      t != [] && Trimmed(t) && ',' !in t && ModName(t) in supported
  {
    var kept := KeptModifiers(supported, text);
    KeptModifiersSpec(supported, text);
    ModifierTokensSpec(text);
    forall t | t in kept ensures t != [] && Trimmed(t) && ',' !in t && ModName(t) in supported {
      assert multiset(kept)[t] > 0;
      assert t in ModifierTokens(text);
    }
  }

  /** The pattern, cut before the first '$', holds no '$'; so a '$' remains in the
      filtered rule exactly when some modifier is kept, and the text after it splits
      back into the kept modifiers. */
  lemma FilterModifiersParse(supported: seq<string>, rule: string)
    requires '$' in rule
    ensures '$' !in PatternOf(rule)
    ensures var pattern, kept, r := PatternOf(rule), KeptModifiers(supported, OptionsOf(rule)), FilterModifiers(supported, rule);
      && ('$' in r <==> kept != [])
      && (kept == [] ==> r == pattern)
      && (kept != [] ==> |pattern| < |r| && r[..|pattern|] == pattern && Split(r[|pattern| + 1..], ',') == kept)
  {
    StripChars(rule[..IndexOf(rule, '$')], '$');
    var kept := KeptModifiers(supported, OptionsOf(rule));
    if kept != [] {
      KeptAreTokens(supported, OptionsOf(rule));
      AttachParse(PatternOf(rule), kept);
    }
  }

  /** Stripping and re-splitting a join of stripped, non-empty, comma-free tokens
      gives back the tokens. */
  lemma ModifierTokensOfJoin(kept: seq<string>)
    requires |kept| >= 1
    requires forall t :: t in kept ==> t != [] && Trimmed(t) && ',' !in t
    ensures ModifierTokens(Strip(Join(kept, ','))) == kept
  {
    var opts := Join(kept, ',');
    JoinLength(kept, ',');
    JoinEnds(kept, ',');
    var first, last := kept[0], kept[|kept| - 1];
    assert first in kept && last in kept;
    assert opts[0] == first[0] && !IsSpace(first[0]) by {
      assert opts[..|first|] == first;
    }
    assert opts[|opts| - 1] == last[|last| - 1] && !IsSpace(last[|last| - 1]) by {
      assert opts[|opts| - |last|..] == last;
    }
    StripTrimmed(opts);
    SplitJoin(kept, ',');
    StrippedNonEmptyFixed(kept);
    assert ModifierTokens(opts) == StrippedNonEmpty(kept);
  }

  /** Tokens that are already stripped and non-empty pass through unchanged. */
  lemma {:induction false} StrippedNonEmptyFixed(tokens: seq<string>)
    requires forall t :: t in tokens ==> t != [] && Trimmed(t)
    ensures StrippedNonEmpty(tokens) == tokens
  {
    if tokens != [] {
      var init := tokens[..|tokens| - 1];
      var last := tokens[|tokens| - 1];
      StripTrimmed(last);
      assert forall t :: t in init ==> t in tokens;
      StrippedNonEmptyFixed(init);
      assert tokens == init + [last];
    }
  }

  /** Tokens whose names are all supported are all kept. */
  lemma {:induction false} KeepAllSupported(tokens: seq<string>, supported: seq<string>)
    requires forall t :: t in tokens ==> ModName(t) in supported
    ensures KeepSupported(tokens, supported) == tokens
  {
    if tokens != [] {
      var init := tokens[..|tokens| - 1];
      var last := tokens[|tokens| - 1];
      assert ModName(last) in supported;
      KeepAllSupported(init, supported);
    }
  }

  /** Filtering the modifiers of an already filtered rule changes nothing. */
  lemma FilterModifiersIdempotent(supported: seq<string>, rule: string)
    ensures FilterModifiers(supported, FilterModifiers(supported, rule)) == FilterModifiers(supported, rule)
  {
    if '$' in rule {
      var pattern := PatternOf(rule);
      var kept := KeptModifiers(supported, OptionsOf(rule));
      FilterModifiersParse(supported, rule);
      StripIdempotent(rule[..IndexOf(rule, '$')]);
      if kept != [] {
        KeptAreTokens(supported, OptionsOf(rule));
        KeptModifiersSpec(supported, OptionsOf(rule));
        ReadBack(supported, pattern, kept);
      }
    }
  }

  /** Reading the options back out of a filtered rule and filtering them again
      gives the same sorted list. */
  lemma ReadBack(supported: seq<string>, pattern: string, kept: seq<string>)
    requires Strip(pattern) == pattern && '$' !in pattern
    requires |kept| >= 1 && Sorted(kept)
    requires forall t :: t in kept ==> t != [] && Trimmed(t) && ',' !in t && ModName(t) in supported
    ensures FilterModifiers(supported, Attach(pattern, kept)) == Attach(pattern, kept)
  {
    var r := Attach(pattern, kept);
    AttachParse(pattern, kept);
    assert PatternOf(r) == pattern;
    assert OptionsOf(r) == Strip(Join(kept, ','));
    ModifierTokensOfJoin(kept);
    KeepAllSupported(kept, supported);
    SortSorted(kept);
    assert KeptModifiers(supported, OptionsOf(r)) == kept;
  }

  /** A line whose pattern is blank and whose options are all unsupported normalizes
      to the empty string, not to None: the reason run() also drops "". */
  lemma BlankPatternRule(line: string)
    requires line == "$foo"
    ensures Normalize(DefaultConfig(), line) == Some("")
  {
    BlankPatternFilter(line);
    NoDotNoHost([]);
  }

  lemma BlankPatternFilter(line: string)
    requires line == "$foo"
    ensures var s := Strip(line);
      s == line && !StartsWith(s, "!") && !StartsWith(s, "#") &&
      FilterModifiers(DefaultConfig().supportedModifiers, CollapseSpaces(s)) == []
  {
    assert Trimmed(line);
    StripTrimmed(line);
    CollapseNoSpace(line);
    assert IndexOf(line, '$') == 0;
    assert line[..0] == [];
    assert PatternOf(line) == [];
    UnsupportedOption(line[1..]);
  }

  lemma UnsupportedOption(opts: string)
    requires opts == "foo"
    ensures KeptModifiers(DefaultConfig().supportedModifiers, Strip(opts)) == []
  {
    var supported := DefaultConfig().supportedModifiers;
    assert Trimmed(opts);
    StripTrimmed(opts);
    assert IndexOf(opts, ',') == 3;
    assert Split(opts, ',') == [opts];
    StrippedNonEmptyFixed([opts]);
    assert IndexOf(opts, '=') == 3;
    assert ModName(opts) !in supported;
    assert KeepSupported([opts], supported) == [];
  }

  /** Every modifier token of text free of whitespace runs is free of them too. */
  lemma ModifierTokensCollapsed(text: string)
    requires Collapsed(text)
    ensures forall t :: t in ModifierTokens(text) ==> Collapsed(t)
  {
    var pieces := Split(text, ',');
    StrippedNonEmptySpec(pieces);
    SplitPiecesCollapsed(text, ',');
    forall t | t in ModifierTokens(text) ensures Collapsed(t) {
      var p :| p in pieces && t == Strip(p);
      StripCollapsed(p);
    }
  }

  /** Filtering the modifiers of a rule without whitespace runs creates none. */
  lemma FilterModifiersCollapsed(supported: seq<string>, rule: string)
    requires Collapsed(rule)
    ensures Collapsed(FilterModifiers(supported, rule))
  {
    if '$' in rule {
      var i := IndexOf(rule, '$');
      CollapsedSlice(rule, 0, i);
      CollapsedSlice(rule, i + 1, |rule|);
      StripCollapsed(rule[..i]);
      StripCollapsed(rule[i + 1..]);
      KeptCollapsed(supported, OptionsOf(rule));
      AttachCollapsed(PatternOf(rule), KeptModifiers(supported, OptionsOf(rule)));
    }
  }

  /** The kept modifiers of option text without whitespace runs have none. */
  lemma KeptCollapsed(supported: seq<string>, text: string)
    requires Collapsed(text)
    ensures forall t :: t in KeptModifiers(supported, text) ==> Collapsed(t)
  {
    var kept := KeptModifiers(supported, text);
    ModifierTokensCollapsed(text);
    KeptModifiersSpec(supported, text);
    forall t | t in kept ensures Collapsed(t) {
      assert multiset(kept)[t] > 0;
      assert t in ModifierTokens(text);
    }
  }

  /** Attaching such modifiers to such a pattern creates no whitespace runs. */
  lemma AttachCollapsed(pattern: string, kept: seq<string>)
    requires Collapsed(pattern)
    requires forall t :: t in kept ==> Collapsed(t)
    ensures Collapsed(Attach(pattern, kept))
  {
    if kept != [] {
      JoinCollapsed(kept, ',');
      CollapsedConcat(pattern, "$");
      CollapsedConcat(pattern + "$", Join(kept, ','));
    }
  }

  /** Filtering the modifiers of a rule without whitespace at either end leaves
      none there, and the result starts as the rule does or with the '$'. */
  lemma FilterModifiersTrimmed(supported: seq<string>, rule: string)
    requires Trimmed(rule) && rule != []
    ensures var r := FilterModifiers(supported, rule);
      Trimmed(r) && (r != [] ==> r[0] == rule[0] || r[0] == '$')
  {
    if '$' in rule {
      var i := IndexOf(rule, '$');
      var pattern := PatternOf(rule);
      var kept := KeptModifiers(supported, OptionsOf(rule));
      if i > 0 {
        var head := rule[..i];
        assert head[0] == rule[0];
        assert LeadingSpaces(head) == 0;
        assert pattern != [] && pattern[0] == rule[0];
      } else {
        assert pattern == [];
      }
      if kept != [] {
        var opts := Join(kept, ',');
        var r := pattern + "$" + opts;
        KeptAreTokens(supported, OptionsOf(rule));
        JoinEnds(kept, ',');
        var last := kept[|kept| - 1];
        assert last in kept;
        assert opts[|opts| - |last|..] == last;
        assert r[|r| - 1] == last[|last| - 1];
        assert r[0] == if pattern == [] then '$' else pattern[0];
      }
    }
  }

  /** A non-empty normalized rule normalizes to itself. */
  lemma NormalizeIdempotent(cfg: Config, line: string)
    ensures Normalize(cfg, line).Some? && Normalize(cfg, line).value != [] ==>
      Normalize(cfg, Normalize(cfg, line).value) == Normalize(cfg, line)
  {
    if Normalize(cfg, line).Some? && Normalize(cfg, line).value != [] {
      var sup := cfg.supportedModifiers;
      var s := Strip(line);
      var c := CollapseSpaces(s);
      CollapseTrimmed(s);
      var f := FilterModifiers(sup, c);
      FilterModifiersCollapsed(sup, c);
      FilterModifiersTrimmed(sup, c);
      FilterModifiersIdempotent(sup, c);
      var r := Normalize(cfg, line).value;
      if !cfg.formatStandardize || ConvertToPipeFormat(f) == f {
        assert r == f;
        StripTrimmed(r);
        CollapsedFixed(r);
        assert r[0] != '!' && r[0] != '#';
        assert !StartsWith(r, "!") && !StartsWith(r, "#");
      } else {
        RewrittenShape(f);
        ConvertIdempotent(f);
        assert r == ConvertToPipeFormat(f);
        StripTrimmed(r);
        CollapseNoSpace(r);
        assert '$' !in r;
        assert r[0] != '!' && r[0] != '#';
        assert !StartsWith(r, "!") && !StartsWith(r, "#");
      }
    }
  }

  /** run() keeps a normalized line only when it is neither None nor the empty string. */
  function NormalizeAll(cfg: Config, lines: seq<string>): seq<string> {
    if lines == [] then []
    else
      var rest := NormalizeAll(cfg, lines[..|lines| - 1]);
      match Normalize(cfg, lines[|lines| - 1])
      case Some(x) => if x != [] then rest + [x] else rest
      case None => rest
  }

  /** The valid rules are at most as many as the lines; each is the non-empty
      normal form of some line, and every line with a non-empty normal form
      contributes it. Blank and comment lines contribute nothing. */
  lemma {:induction false} NormalizeAllSpec(cfg: Config, lines: seq<string>)
    ensures |NormalizeAll(cfg, lines)| <= |lines|
    ensures forall x :: x in NormalizeAll(cfg, lines) ==>
              x != [] && exists l :: l in lines && Normalize(cfg, l) == Some(x)
    ensures forall l :: l in lines && Normalize(cfg, l).Some? && Normalize(cfg, l).value != [] ==>
              Normalize(cfg, l).value in NormalizeAll(cfg, lines)
  {
    if lines != [] {
      var init, last := lines[..|lines| - 1], lines[|lines| - 1];
      NormalizeAllSpec(cfg, init);
      var rest := NormalizeAll(cfg, init);
      var n := Normalize(cfg, last);
      forall x | x in NormalizeAll(cfg, lines)
        ensures x != [] && exists l :: l in lines && Normalize(cfg, l) == Some(x)
      {
        if x in rest {
          var l :| l in init && Normalize(cfg, l) == Some(x);
          assert l in lines;
        } else {
          assert n == Some(x) && last in lines;
        }
      }
      forall l | l in lines && Normalize(cfg, l).Some? && Normalize(cfg, l).value != []
        ensures Normalize(cfg, l).value in NormalizeAll(cfg, lines)
      {
        if l != last {
          assert l in init by {
            var k :| 0 <= k < |lines| && lines[k] == l;
            assert k < |lines| - 1 && init[k] == l;
          }
        }
      }
    }
  }

  /** Lines that are their own non-empty normal form pass step 2 unchanged. */
  lemma {:induction false} NormalizeAllFixed(cfg: Config, lines: seq<string>)
    requires forall l :: l in lines ==> l != [] && Normalize(cfg, l) == Some(l)
    ensures NormalizeAll(cfg, lines) == lines
  {
    if lines != [] {
      var init, last := lines[..|lines| - 1], lines[|lines| - 1];
      forall l | l in init ensures l != [] && Normalize(cfg, l) == Some(l) {
        var k :| 0 <= k < |init| && init[k] == l;
        assert lines[k] == l && lines[k] in lines;
      }
      assert last in lines;
      NormalizeAllFixed(cfg, init);
      InitLast(lines);
    }
  }

  lemma InitLast(lines: seq<string>)
    requires lines != []
    ensures lines[..|lines| - 1] + [lines[|lines| - 1]] == lines
  {
  }

  /** One more line: its normalized form is kept when it is neither None nor "". */
  lemma NormalizeAllSnoc(cfg: Config, lines: seq<string>, i: nat)
    requires i < |lines|
    ensures NormalizeAll(cfg, lines[..i + 1]) ==
      NormalizeAll(cfg, lines[..i]) +
      (if Normalize(cfg, lines[i]).Some? && Normalize(cfg, lines[i]).value != [] then [Normalize(cfg, lines[i]).value] else [])
  {
    assert lines[..i + 1][..i] == lines[..i];
  }

  /** One more token: it is kept when its name is supported. */
  lemma KeepSupportedSnoc(tokens: seq<string>, k: nat, supported: seq<string>)
    requires k < |tokens|
    ensures KeepSupported(tokens[..k + 1], supported) ==
      KeepSupported(tokens[..k], supported) + (if ModName(tokens[k]) in supported then [tokens[k]] else [])
  {
    assert tokens[..k + 1][..k] == tokens[..k];
  }
}
