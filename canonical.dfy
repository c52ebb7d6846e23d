/** convert_to_pipe_format: rewrite a rule to the anchored form ||host^ (or @@||host^)
    when a host-like token can be found in it. The two regular expressions the source
    uses are written out as functions over the string. */
module Canonical {
  import opened Strings
  import opened Optional

  /** The class [a-zA-Z0-9.-]. */
  predicate IsHostChar(c: char) {
    'a' <= c <= 'z' || 'A' <= c <= 'Z' || '0' <= c <= '9' || c == '.' || c == '-'
  }

  /** The class [a-zA-Z]. */
  predicate IsLetter(c: char) {
    'a' <= c <= 'z' || 'A' <= c <= 'Z'
  }

  /** At p stands a '.' followed by two letters: the point where the host pattern's
      first part [a-zA-Z0-9.-]+ may hand over to \.[a-zA-Z]{2,}. */
  predicate DotLetters(s: string, p: nat) {
    p + 2 < |s| && s[p] == '.' && IsLetter(s[p + 1]) && IsLetter(s[p + 2])
  }

  /** End of the run of host characters that starts at i. */
  function HostRunEnd(s: string, i: nat): (e: nat)
    requires i <= |s|
    ensures i <= e <= |s|
    ensures forall k :: i <= k < e ==> IsHostChar(s[k])
    ensures e == |s| || !IsHostChar(s[e])
    decreases |s| - i
  {
    if i < |s| && IsHostChar(s[i]) then HostRunEnd(s, i + 1) else i
  }

  /** End of the run of letters that starts at i. */
  function LetterRunEnd(s: string, i: nat): (e: nat)
    requires i <= |s|
    ensures i <= e <= |s|
    ensures forall k :: i <= k < e ==> IsLetter(s[k])
    ensures e == |s| || !IsLetter(s[e])
    decreases |s| - i
  {
    if i < |s| && IsLetter(s[i]) then LetterRunEnd(s, i + 1) else i
  }

  /** The largest p with lo < p < hi at which DotLetters holds: where the greedy first
      part, backtracking from the end of its run, first lets the rest match. */
  function LastDotLetters(s: string, lo: nat, hi: nat): (r: Option<nat>)
    requires hi <= |s|
    ensures r.Some? ==> lo < r.value < hi && DotLetters(s, r.value)
    ensures r.Some? ==> forall q :: r.value < q < hi ==> !DotLetters(s, q)
    ensures r.None? ==> forall q :: lo < q < hi ==> !DotLetters(s, q)
    decreases hi
  {
    if hi <= lo + 1 then None
    else if DotLetters(s, hi - 1) then Some(hi - 1)
    else LastDotLetters(s, lo, hi - 1)
  }

  /** A match of ([a-zA-Z0-9.-]+\.[a-zA-Z]{2,}): s[start..end] is the host, and
      s[dot] is the '.' where the first part ends. */
  datatype Span = Span(start: nat, dot: nat, end: nat)

  /** re.search from position st onwards: the first start at which the pattern
      matches, with the match that Python's backtracking engine picks there. */
  function FindHostFrom(s: string, st: nat): (r: Option<Span>)
    requires st <= |s|
    ensures r.Some? ==> st <= r.value.start < r.value.dot < r.value.end <= |s|
    decreases |s| - st
  {
    if st == |s| then None
    else match LastDotLetters(s, st, HostRunEnd(s, st))
      case Some(p) => Some(Span(st, p, LetterRunEnd(s, p + 1)))
      case None => FindHostFrom(s, st + 1)
  }

  function FindHost(s: string): (r: Option<Span>)
    ensures r.Some? ==> r.value.start < r.value.end <= |s|
  {
    FindHostFrom(s, 0)
  }

  /** The pattern ([a-zA-Z0-9.-]+\.[a-zA-Z]{2,}) has some match starting at st. */
  ghost predicate MatchesAt(s: string, st: nat) {
    exists p :: st < p && DotLetters(s, p) && forall k :: st <= k < p ==> IsHostChar(s[k])
  }

  /** sp is the match re.search reports: it starts at the leftmost position where the
      pattern matches at all; its first part is the longest run of host characters
      from there that is still followed by '.' and two letters; its letter run is
      taken as far as it goes. */
  ghost predicate IsSearchResult(s: string, sp: Span) {
    && sp.start < sp.dot && sp.dot + 3 <= sp.end <= |s|
    && (forall k :: sp.start <= k < sp.dot ==> IsHostChar(s[k]))
    && DotLetters(s, sp.dot)
    && (forall k :: sp.dot < k < sp.end ==> IsLetter(s[k]))
    && (sp.end == |s| || !IsLetter(s[sp.end]))
    && (forall st :: 0 <= st < sp.start ==> !MatchesAt(s, st))
    && (forall q :: sp.dot < q < HostRunEnd(s, sp.start) ==> !DotLetters(s, q))
  }

  lemma NoMatchAt(s: string, st: nat)
    requires st < |s|
    requires LastDotLetters(s, st, HostRunEnd(s, st)).None?
    ensures !MatchesAt(s, st)
  {
    var e := HostRunEnd(s, st);
    forall p | st < p && DotLetters(s, p) ensures exists k :: st <= k < p && !IsHostChar(s[k]) {
      assert e <= p;
      assert e != p;
      assert !IsHostChar(s[e]);
    }
  }

  lemma {:induction false} FindHostFromSpec(s: string, st: nat)
    requires st <= |s|
    requires forall j :: 0 <= j < st ==> !MatchesAt(s, j)
    ensures FindHostFrom(s, st).None? ==> forall j :: 0 <= j <= |s| ==> !MatchesAt(s, j)
    ensures FindHostFrom(s, st).Some? ==> IsSearchResult(s, FindHostFrom(s, st).value)
    decreases |s| - st
  {
    if st == |s| {
      assert !MatchesAt(s, |s|);
    } else {
      var e := HostRunEnd(s, st);
      var last := LastDotLetters(s, st, e);
      if last.Some? {
        var p := last.value;
        var end := LetterRunEnd(s, p + 1);
        var sp := Span(st, p, end);
        assert FindHostFrom(s, st) == Some(sp);
        assert IsLetter(s[p + 1]) && IsLetter(s[p + 2]);
        assert p + 3 <= end;
        assert forall k :: st <= k < p ==> IsHostChar(s[k]);
        assert forall k :: p < k < end ==> IsLetter(s[k]);
        assert forall q :: p < q < e ==> !DotLetters(s, q);
        assert IsSearchResult(s, sp);
      } else {
        assert FindHostFrom(s, st) == FindHostFrom(s, st + 1);
        NoMatchAt(s, st);
        FindHostFromSpec(s, st + 1);
      }
    }
  }

  /** FindHost is re.search(r'([a-zA-Z0-9.-]+\.[a-zA-Z]{2,})', s): either the pattern
      matches nowhere, or FindHost reports exactly the match Python reports. */
  lemma FindHostIsSearch(s: string)
    ensures FindHost(s).None? <==> forall st :: 0 <= st <= |s| ==> !MatchesAt(s, st)
    ensures FindHost(s).Some? ==> IsSearchResult(s, FindHost(s).value)
  {
    FindHostFromSpec(s, 0);
    if FindHost(s).Some? {
      var sp := FindHost(s).value;
      assert MatchesAt(s, sp.start);
    }
  }

  /** The match re.search reports is unique. */
  lemma SearchResultUnique(s: string, a: Span, b: Span)
    requires IsSearchResult(s, a) && IsSearchResult(s, b)
    ensures a == b
  {
    assert MatchesAt(s, a.start);
    assert MatchesAt(s, b.start);
    assert a.start == b.start;
    var e := HostRunEnd(s, a.start);
    assert a.dot < e;
    assert b.dot < e;
    assert a.dot == b.dot;
    assert a.end == b.end;
  }

  /** The characters re excludes in [^/^$]. */
  predicate IsStop(c: char) {
    c == '/' || c == '^' || c == '$'
  }

  /** First index j >= i with s[j] in [/^$], or |s|. */
  function StopFrom(s: string, i: nat): (j: nat)
    requires i <= |s|
    ensures i <= j <= |s|
    ensures forall k :: i <= k < j ==> !IsStop(s[k])
    ensures j < |s| ==> IsStop(s[j])
    decreases |s| - i
  {
    if i < |s| && !IsStop(s[i]) then StopFrom(s, i + 1) else i
  }

  /** re.match(r'^\|\|([^/^$]+)\^', rule) succeeds. */
  predicate AnchoredHostPrefix(rule: string) {
    StartsWith(rule, "||") && |rule| >= 2 &&
    var j := StopFrom(rule, 2); 2 < j < |rule| && rule[j] == '^'
  }

  /** The match succeeds exactly when the rule starts with "||", a non-empty run
      free of '/', '^' and '$' follows, and then a '^'. */
  lemma AnchoredHostPrefixIff(rule: string)
    ensures AnchoredHostPrefix(rule) <==>
      StartsWith(rule, "||") &&
      exists j :: 2 < j < |rule| && rule[j] == '^' && forall k :: 2 <= k < j ==> !IsStop(rule[k])
  {
    if StartsWith(rule, "||") {
      assert |rule| >= 2;
      var e := StopFrom(rule, 2);
      if j :| 2 < j < |rule| && rule[j] == '^' && forall k :: 2 <= k < j ==> !IsStop(rule[k]) {
        assert e == j;
      }
    }
  }

  /** One of the three checks under which the rule is returned as it is. */
  predicate KeptAsIs(rule: string) {
    || (StartsWith(rule, "||") && EndsWith(rule, "^"))
    || (StartsWith(rule, "@@||") && EndsWith(rule, "^"))
    || AnchoredHostPrefix(rule)
  }

  /** convert_to_pipe_format */
  function ConvertToPipeFormat(rule: string): string {
    if StartsWith(rule, "||") && EndsWith(rule, "^") then rule
    else if StartsWith(rule, "@@||") && EndsWith(rule, "^") then rule
    else if AnchoredHostPrefix(rule) then rule
    else match FindHost(rule)
      case Some(sp) =>
        var domain := rule[sp.start..sp.end];
        if StartsWith(rule, "@@") then "@@||" + domain + "^" else "||" + domain + "^"
      case None => rule
  }

  /** What the rewrite does to a rule none of the three checks keeps: it is either
      left alone because no host-like token occurs in it, or replaced by the anchored
      form of the token re.search finds, with the "@@" marker carried over. Anything
      else in the rule, a '$' option list included, is dropped. */
  lemma ConvertSpec(rule: string)
    ensures KeptAsIs(rule) ==> ConvertToPipeFormat(rule) == rule
    ensures !KeptAsIs(rule) && (forall st :: 0 <= st <= |rule| ==> !MatchesAt(rule, st)) ==>
      ConvertToPipeFormat(rule) == rule
    ensures !KeptAsIs(rule) && (exists st :: 0 <= st <= |rule| && MatchesAt(rule, st)) ==>
      exists sp :: IsSearchResult(rule, sp) &&
        ConvertToPipeFormat(rule) ==
          (if StartsWith(rule, "@@") then "@@||" else "||") + rule[sp.start..sp.end] + "^"
  {
    FindHostIsSearch(rule);
    if !KeptAsIs(rule) && FindHost(rule).Some? {
      var sp := FindHost(rule).value;
      if StartsWith(rule, "@@") {
        assert ConvertToPipeFormat(rule) == "@@||" + rule[sp.start..sp.end] + "^";
      }
    }
  }

  /** The host written into a rewritten rule is a non-empty piece of the input made
      of [a-zA-Z0-9.-] only, and it ends with '.' and at least two letters. */
  lemma HostShape(s: string, sp: Span)
    requires IsSearchResult(s, sp)
    ensures var host := s[sp.start..sp.end];
      && 0 <= sp.start < sp.end <= |s|
      && (forall k :: 0 <= k < |host| ==> IsHostChar(host[k]))
      && sp.dot - sp.start + 3 <= |host|
      && host[sp.dot - sp.start] == '.'
      && (forall k :: sp.dot - sp.start < k < |host| ==> IsLetter(host[k]))
  {
  }

  lemma AnchoredForm(marker: string, host: string)
    requires marker == "||" || marker == "@@||"
    ensures StartsWith(marker + host + "^", marker)
    ensures EndsWith(marker + host + "^", "^")
  {
    var r := marker + host + "^";
    assert r[..|marker|] == marker;
    assert r[|r| - 1..] == "^";
  }

  /** Rewriting twice is rewriting once. */
  lemma ConvertIdempotent(rule: string)
    ensures ConvertToPipeFormat(ConvertToPipeFormat(rule)) == ConvertToPipeFormat(rule)
  {
    var r := ConvertToPipeFormat(rule);
    if r != rule {
      var sp := FindHost(rule).value;
      var host := rule[sp.start..sp.end];
      if StartsWith(rule, "@@") {
        AnchoredForm("@@||", host);
      } else {
        AnchoredForm("||", host);
      }
    }
  }

  /** A rewritten rule starts with '|' or '@', ends with '^', and holds neither
      whitespace nor '$': its host is made of [a-zA-Z0-9.-] only. */
  lemma RewrittenShape(rule: string)
    ensures var r := ConvertToPipeFormat(rule);
      r != rule ==>
        && r != [] && (r[0] == '|' || r[0] == '@') && r[|r| - 1] == '^'
        && forall k :: 0 <= k < |r| ==> !IsSpace(r[k]) && r[k] != '$'
  {
    if ConvertToPipeFormat(rule) != rule {
      FindHostIsSearch(rule);
      var sp := FindHost(rule).value;
      HostShape(rule, sp);
      var marker := if StartsWith(rule, "@@") then "@@||" else "||";
      AnchoredChars(marker, rule[sp.start..sp.end]);
    }
  }

  /** The anchored form of a host holds neither whitespace nor '$'. */
  lemma AnchoredChars(marker: string, host: string)
    requires marker == "||" || marker == "@@||"
    requires forall k :: 0 <= k < |host| ==> IsHostChar(host[k])
    ensures var r := marker + host + "^";
      && (r[0] == '|' || r[0] == '@') && r[|r| - 1] == '^'
      && forall k :: 0 <= k < |r| ==> !IsSpace(r[k]) && r[k] != '$'
  {
    var r := marker + host + "^";
    forall k | 0 <= k < |r| ensures !IsSpace(r[k]) && r[k] != '$' {
      if |marker| <= k < |marker| + |host| {
        assert r[k] == host[k - |marker|];
      }
    }
  }

  /** A rule without any '.' holds no host-like token and is never rewritten. */
  lemma NoDotNoHost(rule: string)
    requires '.' !in rule
    ensures FindHost(rule).None?
    ensures ConvertToPipeFormat(rule) == rule
  {
    forall st | 0 <= st <= |rule| ensures !MatchesAt(rule, st) {
      forall p | st < p && p < |rule| ensures !DotLetters(rule, p) {
        assert rule[p] in rule;
      }
    }
    FindHostIsSearch(rule);
  }

  /** A position holding no host character cannot start the match. */
  lemma SkipNonHost(s: string, st: nat)
    requires st < |s| && !IsHostChar(s[st])
    ensures FindHostFrom(s, st) == FindHostFrom(s, st + 1)
  {
  }

  /* The examples below name the rule through a parameter fixed by their requires
     clause, so that the verifier unfolds the search only as far as the proof says. */

  /** Options survive only when a pass-through check fires. */
  lemma KeptWithOptions(r: string)
    requires r == "||a.com^$important"
    ensures ConvertToPipeFormat(r) == r
  {
    assert r[..2] == "||";
    assert r[2] == 'a' && r[7] == '^' && r[|r| - 1] == 't';
    assert StopFrom(r, 7) == 7;
    assert StopFrom(r, 2) == 7;
  }

  /** A plain host with options is rewritten, and the options are lost. */
  lemma PlainHostLosesOptions(r: string)
    requires r == "a.com$important"
    ensures ConvertToPipeFormat(r) == "||a.com^"
  {
    assert r[0] == 'a' && r[1] == '.' && r[2] == 'c' && r[3] == 'o' && r[4] == 'm' && r[5] == '$';
    assert r[|r| - 1] == 't';
    assert HostRunEnd(r, 5) == 5;
    assert HostRunEnd(r, 0) == 5;
    assert LastDotLetters(r, 0, 5) == Some(1);
    assert LetterRunEnd(r, 5) == 5;
    assert LetterRunEnd(r, 2) == 5;
    assert FindHost(r) == Some(Span(0, 1, 5));
    assert r[0..5] == "a.com";
  }

  lemma HostInAnchoredException(r: string)
    requires r == "@@||a.com^$important"
    ensures FindHost(r) == Some(Span(4, 5, 9))
  {
    assert r[0] == '@' && r[1] == '@' && r[2] == '|' && r[3] == '|';
    SkipNonHost(r, 0);
    SkipNonHost(r, 1);
    SkipNonHost(r, 2);
    SkipNonHost(r, 3);
    HostAfterAnchor(r);
  }

  lemma HostAfterAnchor(r: string)
    requires r == "@@||a.com^$important"
    ensures FindHostFrom(r, 4) == Some(Span(4, 5, 9))
  {
    assert r[4] == 'a' && r[5] == '.' && r[6] == 'c' && r[7] == 'o' && r[8] == 'm' && r[9] == '^';
    assert HostRunEnd(r, 9) == 9;
    assert HostRunEnd(r, 7) == 9;
    assert HostRunEnd(r, 4) == 9;
    assert LastDotLetters(r, 4, 9) == Some(5);
    assert LetterRunEnd(r, 9) == 9;
    assert LetterRunEnd(r, 6) == 9;
  }

  /** An anchored exception rule with options fails all three checks (it does not
      end with '^', and re.match wants "||" at the very start), so it is rewritten
      and loses its options. */
  lemma ExceptionLosesOptions(r: string)
    requires r == "@@||a.com^$important"
    ensures ConvertToPipeFormat(r) == "@@||a.com^"
  {
    HostInAnchoredException(r);
    assert r[0] == '@' && r[1] == '@' && r[|r| - 1] == 't';
    assert r[..2] == "@@";
    assert r[4..9] == "a.com";
  }

  lemma HostInExceptionUrl(r: string)
    requires r == "@@sub.ok.net/x"
    ensures FindHost(r) == Some(Span(2, 8, 12))
  {
    ExceptionUrlRuns(r);
    assert r[0] == '@' && r[1] == '@';
    SkipNonHost(r, 0);
    SkipNonHost(r, 1);
  }

  /** Where the runs of "@@sub.ok.net/x" end. */
  lemma ExceptionUrlRuns(r: string)
    requires r == "@@sub.ok.net/x"
    ensures HostRunEnd(r, 2) == 12 && LastDotLetters(r, 2, 12) == Some(8) && LetterRunEnd(r, 9) == 12
  {
    assert r[2] == 's' && r[3] == 'u' && r[4] == 'b' && r[5] == '.' && r[6] == 'o' && r[7] == 'k';
    assert r[8] == '.' && r[9] == 'n' && r[10] == 'e' && r[11] == 't' && r[12] == '/';
    assert HostRunEnd(r, 12) == 12;
    assert HostRunEnd(r, 8) == 12;
    assert HostRunEnd(r, 5) == 12;
    assert LetterRunEnd(r, 12) == 12;
  }

  /** A URL is reduced to its host; an exception marker is kept. */
  lemma ExceptionUrlToHost(r: string)
    requires r == "@@sub.ok.net/x"
    ensures ConvertToPipeFormat(r) == "@@||sub.ok.net^"
  {
    HostInExceptionUrl(r);
    assert r[0] == '@' && r[1] == '@' && r[|r| - 1] == 'x';
    assert r[..2] == "@@";
    assert r[2..12] == "sub.ok.net";
  }
}
