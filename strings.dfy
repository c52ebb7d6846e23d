/** Character classes and the handful of Python str operations the optimizer uses:
    strip(), re.sub(r'\s+', ' ', ...), find, split and join. */
module Strings {

  /** The characters for which Python's str.isspace() holds. Both str.strip() with
      no argument and the regular-expression class \s (on str patterns) use this set. */
  predicate IsSpace(c: char) {
    || ('\t' <= c <= '\r')
    || ('\U{1c}' <= c <= '\U{1f}')
    || c == ' '
    || c == '\U{85}'
    || c == '\U{a0}'
    || c == '\U{1680}'
    || ('\U{2000}' <= c <= '\U{200a}')
    || c == '\U{2028}'
    || c == '\U{2029}'
    || c == '\U{202f}'
    || c == '\U{205f}'
    || c == '\U{3000}'
  }

  /** str.startswith */
  predicate StartsWith(s: string, prefix: string) {
    prefix <= s
  }

  /** str.endswith */
  predicate EndsWith(s: string, suffix: string) {
    |suffix| <= |s| && s[|s| - |suffix|..] == suffix
  }

  /** End of the run of whitespace that starts at i. */
  function SpaceRunEnd(s: string, i: nat): (e: nat)
    requires i <= |s|
    ensures i <= e <= |s|
    ensures forall k :: i <= k < e ==> IsSpace(s[k])
    ensures e == |s| || !IsSpace(s[e])
    decreases |s| - i
  {
    if i < |s| && IsSpace(s[i]) then SpaceRunEnd(s, i + 1) else i
  }

  /** How many whitespace characters str.lstrip() removes. */
  function LeadingSpaces(s: string): (n: nat)
    ensures n <= |s|
    ensures forall k :: 0 <= k < n ==> IsSpace(s[k])
    ensures n == |s| || !IsSpace(s[n])
  {
    SpaceRunEnd(s, 0)
  }

  /** str.lstrip(): drops the leading whitespace and nothing else. */
  function TrimStart(s: string): (r: string)
    ensures |r| <= |s| && r == s[|s| - |r|..]
    ensures forall k :: 0 <= k < |s| - |r| ==> IsSpace(s[k])
    ensures r == [] || !IsSpace(r[0])
    ensures s != [] && IsSpace(s[0]) ==> |r| < |s|
  {
    s[LeadingSpaces(s)..]
  }

  lemma {:induction false} SpaceRunShift(s: string, i: nat)
    requires 1 <= i <= |s|
    ensures SpaceRunEnd(s, i) == 1 + SpaceRunEnd(s[1..], i - 1)
    decreases |s| - i
  {
    if i < |s| && IsSpace(s[i]) {
      SpaceRunShift(s, i + 1);
    }
  }

  /** Dropping one leading whitespace character does not change str.lstrip(). */
  lemma TrimStartStep(s: string)
    requires s != [] && IsSpace(s[0])
    ensures TrimStart(s) == TrimStart(s[1..])
  {
    SpaceRunShift(s, 1);
  }

  /** Where the run of whitespace that ends at hi begins, looking no further left
      than lo. */
  function TrailingStart(s: string, lo: nat, hi: nat): (b: nat)
    requires lo <= hi <= |s|
    ensures lo <= b <= hi
    ensures forall k :: b <= k < hi ==> IsSpace(s[k])
    ensures b == lo || !IsSpace(s[b - 1])
    decreases hi
  {
    if hi > lo && IsSpace(s[hi - 1]) then TrailingStart(s, lo, hi - 1) else hi
  }

  /** str.strip(): the text between the leading and the trailing whitespace. */
  function Strip(s: string): (r: string)
    ensures LeadingSpaces(s) + |r| <= |s|
    ensures r == [] || (!IsSpace(r[0]) && !IsSpace(r[|r| - 1]))
    ensures r == s[LeadingSpaces(s)..LeadingSpaces(s) + |r|]
    ensures forall k :: 0 <= k < LeadingSpaces(s) ==> IsSpace(s[k])
    ensures forall k :: LeadingSpaces(s) + |r| <= k < |s| ==> IsSpace(s[k])
  {
    var n := LeadingSpaces(s);
    var m := TrailingStart(s, n, |s|);
    assert m > n ==> s[n..m][0] == s[n] && s[n..m][m - n - 1] == s[m - 1];
    s[n..m]
  }

  /** Every character of Strip(s) occurs in s. */
  lemma StripChars(s: string, c: char)
    ensures c in Strip(s) ==> c in s
  {
    var r, i := Strip(s), LeadingSpaces(s);
    if c in r {
      var k :| 0 <= k < |r| && r[k] == c;
      assert s[i + k] == c;
    }
  }

  /** A stripped string is its own strip. */
  lemma StripIdempotent(s: string)
    ensures Strip(Strip(s)) == Strip(s)
  {
  }

  /** re.sub(r'\s+', ' ', s): every maximal run of whitespace becomes a single ' '. */
  function CollapseSpaces(s: string): (r: string)
    ensures |r| <= |s|
    decreases |s|
  {
    if s == [] then []
    else if IsSpace(s[0]) then [' '] + CollapseSpaces(TrimStart(s))
    else [s[0]] + CollapseSpaces(s[1..])
  }

  /** A second reading of the same substitution, one character at a time: a
      whitespace character followed by whitespace disappears, any other whitespace
      character becomes ' ', every other character stays. */
  function SquashSpaces(s: string): (r: string) {
    if s == [] then []
    else if IsSpace(s[0]) then
      (if |s| > 1 && IsSpace(s[1]) then [] else [' ']) + SquashSpaces(s[1..])
    else [s[0]] + SquashSpaces(s[1..])
  }

  /** Whitespace in s is only ' ', and never two in a row. */
  ghost predicate Collapsed(s: string) {
    forall i :: 0 <= i < |s| && IsSpace(s[i]) ==> s[i] == ' ' && (i + 1 == |s| || !IsSpace(s[i + 1]))
  }

  /** The non-whitespace characters of s, in order. */
  function Visible(s: string): string {
    if s == [] then [] else (if IsSpace(s[0]) then [] else [s[0]]) + Visible(s[1..])
  }

  lemma {:induction false} SquashRun(s: string)
    requires s != [] && IsSpace(s[0])
    ensures SquashSpaces(s) == [' '] + SquashSpaces(TrimStart(s))
    decreases |s|
  {
    TrimStartStep(s);
    if |s| > 1 && IsSpace(s[1]) {
      SquashRun(s[1..]);
    } else {
      assert TrimStart(s[1..]) == s[1..];
    }
  }

  /** The two readings of re.sub(r'\s+', ' ', s) agree on every input. */
  lemma {:induction false} CollapseIsSquash(s: string)
    ensures CollapseSpaces(s) == SquashSpaces(s)
    decreases |s|
  {
    if s == [] {
    } else if IsSpace(s[0]) {
      SquashRun(s);
      CollapseIsSquash(TrimStart(s));
    } else {
      CollapseIsSquash(s[1..]);
    }
  }

  lemma {:induction false} VisibleOfSpaces(s: string)
    requires forall k :: 0 <= k < |s| ==> IsSpace(s[k])
    ensures Visible(s) == []
  {
    if s != [] {
      VisibleOfSpaces(s[1..]);
    }
  }

  lemma {:induction false} VisibleAppend(a: string, b: string)
    ensures Visible(a + b) == Visible(a) + Visible(b)
  {
    if a != [] {
      assert (a + b)[0] == a[0];
      assert (a + b)[1..] == a[1..] + b;
      VisibleAppend(a[1..], b);
      var h := if IsSpace(a[0]) then [] else [a[0]];
      assert Visible(a + b) == h + Visible(a[1..] + b);
      assert Visible(a) == h + Visible(a[1..]);
    } else {
      assert a + b == b;
    }
  }

  /** Collapsing whitespace keeps every other character, in order. */
  lemma {:induction false} CollapseKeepsVisible(s: string)
    ensures Visible(CollapseSpaces(s)) == Visible(s)
    decreases |s|
  {
    if s == [] {
    } else if IsSpace(s[0]) {
      var t := TrimStart(s);
      CollapseKeepsVisible(t);
      assert s == s[..|s| - |t|] + t;
      VisibleOfSpaces(s[..|s| - |t|]);
      VisibleAppend(s[..|s| - |t|], t);
      VisibleAppend([' '], CollapseSpaces(t));
    } else {
      CollapseKeepsVisible(s[1..]);
      assert s == [s[0]] + s[1..];
      VisibleAppend([s[0]], s[1..]);
      VisibleAppend([s[0]], CollapseSpaces(s[1..]));
    }
  }

  /** The result of collapsing has only single ' ' between the other characters, and
      begins (and is empty) exactly as the input does. */
  lemma {:induction false} CollapseIsCollapsed(s: string)
    ensures Collapsed(CollapseSpaces(s))
    ensures |CollapseSpaces(s)| == 0 <==> |s| == 0
    ensures s != [] ==> (IsSpace(CollapseSpaces(s)[0]) <==> IsSpace(s[0]))
    ensures s != [] && !IsSpace(s[0]) ==> CollapseSpaces(s)[0] == s[0]
    decreases |s|
  {
    if s == [] {
    } else if IsSpace(s[0]) {
      CollapseIsCollapsed(TrimStart(s));
    } else {
      CollapseIsCollapsed(s[1..]);
    }
  }

  /** Index of the first occurrence of c in s, or |s| when there is none (str.find,
      with "not found" reported as the length). */
  function IndexOf(s: string, c: char): (i: nat)
    ensures i <= |s|
    ensures c !in s[..i]
    ensures i < |s| <==> c in s
    ensures i < |s| ==> s[i] == c
  {
    if s == [] then 0
    else if s[0] == c then 0
    else
      assert s[..1 + IndexOf(s[1..], c)] == [s[0]] + s[1..][..IndexOf(s[1..], c)];
      1 + IndexOf(s[1..], c)
  }

  /** str.split(sep) with a one-character separator: the pieces between separators,
      empty pieces included. */
  function Split(s: string, sep: char): (parts: seq<string>)
    ensures |parts| >= 1
    decreases |s|
  {
    var i := IndexOf(s, sep);
    if i == |s| then [s] else [s[..i]] + Split(s[i + 1..], sep)
  }

  /** sep.join(parts) with a one-character separator. */
  function Join(parts: seq<string>, sep: char): (s: string) {
    if parts == [] then []
    else if |parts| == 1 then parts[0]
    else parts[0] + [sep] + Join(parts[1..], sep)
  }

  lemma Decompose(s: string, i: nat)
    requires i < |s|
    ensures s == s[..i] + [s[i]] + s[i + 1..]
  {
  }

  /** No piece of a split holds the separator. */
  lemma {:induction false} SplitPiecesFree(s: string, sep: char)
    ensures forall p :: p in Split(s, sep) ==> sep !in p
    decreases |s|
  {
    var i := IndexOf(s, sep);
    if i < |s| {
      SplitPiecesFree(s[i + 1..], sep);
    }
  }

  lemma JoinCons(head: string, tail: seq<string>, sep: char)
    requires |tail| >= 1
    ensures Join([head] + tail, sep) == head + [sep] + Join(tail, sep)
  {
    assert ([head] + tail)[1..] == tail;
  }

  /** Joining the pieces of a split gives back the string. */
  lemma {:induction false} JoinSplit(s: string, sep: char)
    ensures Join(Split(s, sep), sep) == s
    decreases |s|
  {
    var i := IndexOf(s, sep);
    if i < |s| {
      var head, rest := s[..i], s[i + 1..];
      JoinSplit(rest, sep);
      JoinCons(head, Split(rest, sep), sep);
      Decompose(s, i);
    }
  }

  lemma IndexOfConcat(a: string, sep: char, b: string)
    requires sep !in a
    ensures IndexOf(a + [sep] + b, sep) == |a|
  {
    var s := a + [sep] + b;
    var i := IndexOf(s, sep);
    assert s[|a|] == sep;
    assert s[..|a|] == a;
    assert forall k :: 0 <= k < |a| ==> s[k] == a[k];
  }

  /** Splitting past a separator-free head and one separator. */
  lemma SplitCons(head: string, sep: char, rest: string)
    requires sep !in head
    ensures Split(head + [sep] + rest, sep) == [head] + Split(rest, sep)
  {
    var s := head + [sep] + rest;
    IndexOfConcat(head, sep, rest);
    assert s[..|head|] == head;
    assert s[|head| + 1..] == rest;
  }

  /** Splitting a join of separator-free pieces gives back the pieces. */
  lemma {:induction false} SplitJoin(parts: seq<string>, sep: char)
    requires |parts| >= 1
    requires forall p :: p in parts ==> sep !in p
    ensures Split(Join(parts, sep), sep) == parts
  {
    if |parts| == 1 {
      assert IndexOf(parts[0], sep) == |parts[0]|;
    } else {
      var rest := Join(parts[1..], sep);
      assert Join(parts, sep) == parts[0] + [sep] + rest;
      assert parts[0] in parts;
      SplitCons(parts[0], sep, rest);
      assert forall p :: p in parts[1..] ==> p in parts;
      SplitJoin(parts[1..], sep);
      assert parts == [parts[0]] + parts[1..];
    }
  }

  /** A join starts with its first piece. */
  lemma {:induction false} JoinLength(parts: seq<string>, sep: char)
    requires |parts| >= 1
    ensures |Join(parts, sep)| >= |parts[0]|
    ensures Join(parts, sep)[..|parts[0]|] == parts[0]
  {
    if |parts| > 1 {
      var s := Join(parts, sep);
      assert s == parts[0] + ([sep] + Join(parts[1..], sep));
    }
  }

  /** A join ends with its last piece. */
  lemma {:induction false} JoinEnds(parts: seq<string>, sep: char)
    requires |parts| >= 1
    ensures |Join(parts, sep)| >= |parts[|parts| - 1]|
    ensures Join(parts, sep)[|Join(parts, sep)| - |parts[|parts| - 1]|..] == parts[|parts| - 1]
  {
    if |parts| > 1 {
      JoinEnds(parts[1..], sep);
      var rest := Join(parts[1..], sep);
      var s := Join(parts, sep);
      assert s == (parts[0] + [sep]) + rest;
      assert parts[1..][|parts| - 2] == parts[|parts| - 1];
      assert s[|s| - |rest|..] == rest;
    }
  }

  /** No whitespace at either end. */
  predicate Trimmed(s: string) {
    s == [] || (!IsSpace(s[0]) && !IsSpace(s[|s| - 1]))
  }

  /** A string with no whitespace at either end is its own strip. */
  lemma StripTrimmed(s: string)
    requires Trimmed(s)
    ensures Strip(s) == s
  {
    if s != [] {
      assert LeadingSpaces(s) == 0;
      assert !IsSpace(s[|s| - 1]);
      assert |Strip(s)| == |s|;
    }
  }

  /** Collapsing leaves a string without whitespace as it is. */
  lemma {:induction false} CollapseNoSpace(s: string)
    requires forall k :: 0 <= k < |s| ==> !IsSpace(s[k])
    ensures CollapseSpaces(s) == s
  {
    if s != [] {
      CollapseNoSpace(s[1..]);
      assert s == [s[0]] + s[1..];
    }
  }

  /** A string whose whitespace is already single spaces between other characters
      is left as it is by the substitution. */
  lemma {:induction false} CollapsedFixed(s: string)
    requires Collapsed(s)
    ensures CollapseSpaces(s) == s
    decreases |s|
  {
    if s != [] {
      CollapsedSlice(s, 1, |s|);
      if IsSpace(s[0]) {
        assert SpaceRunEnd(s, 1) == 1;
        assert TrimStart(s) == s[1..];
      }
      CollapsedFixed(s[1..]);
      assert s == [s[0]] + s[1..];
    }
  }

  /** Every piece of a string without runs of whitespace has none either. */
  lemma CollapsedSlice(s: string, i: nat, j: nat)
    requires Collapsed(s) && i <= j <= |s|
    ensures Collapsed(s[i..j])
  {
    var t := s[i..j];
    forall k | 0 <= k < |t| && IsSpace(t[k])
      ensures t[k] == ' ' && (k + 1 == |t| || !IsSpace(t[k + 1]))
    {
      assert t[k] == s[i + k];
      if k + 1 < |t| {
        assert t[k + 1] == s[i + k + 1];
      }
    }
  }

  /** Two such strings stay so when joined where at most one side has whitespace. */
  lemma CollapsedConcat(a: string, b: string)
    requires Collapsed(a) && Collapsed(b)
    requires a == [] || b == [] || !IsSpace(a[|a| - 1]) || !IsSpace(b[0])
    ensures Collapsed(a + b)
  {
    var t := a + b;
    forall k | 0 <= k < |t| && IsSpace(t[k])
      ensures t[k] == ' ' && (k + 1 == |t| || !IsSpace(t[k + 1]))
    {
      if k < |a| {
        assert t[k] == a[k];
        if k + 1 < |a| {
          assert t[k + 1] == a[k + 1];
        } else if k + 1 < |t| {
          assert t[k + 1] == b[0];
        }
      } else {
        assert t[k] == b[k - |a|];
        if k + 1 < |t| {
          assert t[k + 1] == b[k + 1 - |a|];
        }
      }
    }
  }

  /** The substitution keeps a final non-whitespace character in place. */
  lemma {:induction false} CollapseLast(s: string)
    requires s != [] && !IsSpace(s[|s| - 1])
    ensures CollapseSpaces(s) != [] && !IsSpace(CollapseSpaces(s)[|CollapseSpaces(s)| - 1])
    decreases |s|
  {
    if IsSpace(s[0]) {
      var t := TrimStart(s);
      assert t != [] && t[|t| - 1] == s[|s| - 1];
      CollapseLast(t);
    } else if |s| > 1 {
      assert s[1..][|s| - 2] == s[|s| - 1];
      CollapseLast(s[1..]);
    }
  }

  /** A string without whitespace at either end keeps that after the substitution,
      which also leaves no runs of whitespace inside. */
  lemma CollapseTrimmed(s: string)
    requires Trimmed(s)
    ensures Trimmed(CollapseSpaces(s)) && Collapsed(CollapseSpaces(s))
    ensures s != [] ==> CollapseSpaces(s) != [] && CollapseSpaces(s)[0] == s[0]
  {
    CollapseIsCollapsed(s);
    if s != [] {
      CollapseLast(s);
    }
  }

  /** Stripping keeps a string free of runs of whitespace. */
  lemma StripCollapsed(s: string)
    requires Collapsed(s)
    ensures Collapsed(Strip(s))
  {
    CollapsedSlice(s, LeadingSpaces(s), LeadingSpaces(s) + |Strip(s)|);
  }

  /** The pieces of a split keep the string free of runs of whitespace. */
  lemma {:induction false} SplitPiecesCollapsed(s: string, sep: char)
    requires Collapsed(s)
    ensures forall p :: p in Split(s, sep) ==> Collapsed(p)
    decreases |s|
  {
    var i := IndexOf(s, sep);
    if i < |s| {
      CollapsedSlice(s, 0, i);
      CollapsedSlice(s, i + 1, |s|);
      SplitPiecesCollapsed(s[i + 1..], sep);
    } else {
      assert Split(s, sep) == [s];
    }
  }

  /** Joining such pieces with a non-whitespace separator keeps them so. */
  lemma {:induction false} JoinCollapsed(parts: seq<string>, sep: char)
    requires !IsSpace(sep)
    requires forall p :: p in parts ==> Collapsed(p)
    ensures Collapsed(Join(parts, sep))
  {
    if |parts| == 1 {
      assert parts[0] in parts;
    } else if |parts| > 1 {
      assert parts[0] in parts;
      assert forall p :: p in parts[1..] ==> p in parts;
      JoinCollapsed(parts[1..], sep);
      CollapsedConcat(parts[0], [sep]);
      CollapsedConcat(parts[0] + [sep], Join(parts[1..], sep));
    }
  }
}
