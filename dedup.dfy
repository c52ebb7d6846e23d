/** deduplicate_rules as a function of its input: which rules it keeps, which it
    records as duplicates, and in what order. */
module Dedup {

  /** The two lists deduplicate_rules builds: unique_rules and duplicates. */
  datatype Partition<T> = Partition(unique: seq<T>, duplicates: seq<T>)

  /** No element occurs twice. */
  ghost predicate NoDup<T>(xs: seq<T>) {
    forall i, j :: 0 <= i < j < |xs| ==> xs[i] != xs[j]
  }

  /** The loop over rules: an element not seen before goes to unique, one already
      seen to duplicates. The elements seen so far are exactly those of unique. */
  function Deduplicate<T(==)>(xs: seq<T>): Partition<T> {
    if xs == [] then Partition([], [])
    else
      var p := Deduplicate(xs[..|xs| - 1]);
      var x := xs[|xs| - 1];
      if x in p.unique then Partition(p.unique, p.duplicates + [x])
      else Partition(p.unique + [x], p.duplicates)
  }

  /** The position of the first occurrence of x in xs. */
  function FirstIndex<T(==)>(xs: seq<T>, x: T): (i: nat)
    requires x in xs
    ensures i < |xs| && xs[i] == x && x !in xs[..i]
  {
    if xs[0] == x then 0
    else
      assert x in xs[1..];
      var i := FirstIndex(xs[1..], x);
      assert xs[..i + 1] == [xs[0]] + xs[1..][..i];
      i + 1
  }

  /** The first occurrence is the only position holding x with no x before it. */
  lemma FirstIndexUnique<T>(xs: seq<T>, x: T, i: nat)
    requires i < |xs| && xs[i] == x && x !in xs[..i]
    ensures FirstIndex(xs, x) == i
  {
    var f := FirstIndex(xs, x);
    assert forall k :: 0 <= k < i ==> xs[..i][k] == xs[k];
    assert forall k :: 0 <= k < f ==> xs[..f][k] == xs[k];
  }

  /** Appending elements does not move the first occurrence of one already present. */
  lemma FirstIndexPrefix<T>(a: seq<T>, b: seq<T>, x: T)
    requires x in a
    ensures FirstIndex(a + b, x) == FirstIndex(a, x)
  {
    var i := FirstIndex(a, x);
    assert (a + b)[..i] == a[..i];
    FirstIndexUnique(a + b, x, i);
  }

  /** unique_rules holds exactly the rules of the input, and every rule recorded as a
      duplicate is one already kept. */
  lemma {:induction false} DeduplicateMembers<T>(xs: seq<T>)
    ensures forall x :: x in Deduplicate(xs).unique <==> x in xs
    ensures forall x :: x in Deduplicate(xs).duplicates ==> x in Deduplicate(xs).unique
  {
    if xs != [] {
      var init := xs[..|xs| - 1];
      assert xs == init + [xs[|xs| - 1]];
      DeduplicateMembers(init);
    }
  }

  /** unique_rules holds no rule twice. */
  lemma {:induction false} DeduplicateNoDup<T>(xs: seq<T>)
    ensures NoDup(Deduplicate(xs).unique)
  {
    if xs != [] {
      DeduplicateNoDup(xs[..|xs| - 1]);
    }
  }

  /** Together, unique_rules and duplicates hold the input rules exactly. */
  lemma {:induction false} DeduplicateMultiset<T>(xs: seq<T>)
    ensures multiset(Deduplicate(xs).unique) + multiset(Deduplicate(xs).duplicates) == multiset(xs)
  {
    if xs != [] {
      var init := xs[..|xs| - 1];
      assert xs == init + [xs[|xs| - 1]];
      DeduplicateMultiset(init);
    }
  }

  /** unique_rules lists the rules in the order of their first occurrence. */
  lemma {:induction false} DeduplicateOrder<T>(xs: seq<T>)
    ensures forall y :: y in Deduplicate(xs).unique ==> y in xs
    ensures forall i, j :: 0 <= i < j < |Deduplicate(xs).unique| ==>
      FirstIndex(xs, Deduplicate(xs).unique[i]) < FirstIndex(xs, Deduplicate(xs).unique[j])
  {
    if xs != [] {
      var init := xs[..|xs| - 1];
      var x := xs[|xs| - 1];
      assert xs == init + [x];
      DeduplicateMembers(init);
      DeduplicateOrder(init);
      var u := Deduplicate(init).unique;
      forall y | y in u ensures FirstIndex(xs, y) == FirstIndex(init, y) {
        FirstIndexPrefix(init, [x], y);
      }
      if x !in u {
        FirstIndexUnique(xs, x, |init|);
        var u' := u + [x];
        forall i, j | 0 <= i < j < |u'| ensures FirstIndex(xs, u'[i]) < FirstIndex(xs, u'[j]) {
          assert u'[i] in u;
          if j < |u| {
            assert u'[j] in u;
          }
        }
      }
    }
  }

  /** |unique_rules| + duplicate_count is the number of input rules. */
  lemma CountsAddUp<T>(xs: seq<T>)
    ensures |Deduplicate(xs).unique| + |Deduplicate(xs).duplicates| == |xs|
  {
    DeduplicateMultiset(xs);
    var p := Deduplicate(xs);
    assert |multiset(p.unique) + multiset(p.duplicates)| == |multiset(xs)|;
  }

  /** A list without repeats is kept whole, and nothing is recorded as a duplicate. */
  lemma {:induction false} DeduplicateDistinct<T>(xs: seq<T>)
    requires NoDup(xs)
    ensures Deduplicate(xs) == Partition(xs, [])
  {
    if xs != [] {
      var init := xs[..|xs| - 1];
      DeduplicateDistinct(init);
      assert xs[|xs| - 1] !in init;
      assert xs == init + [xs[|xs| - 1]];
    }
  }

  /** Deduplicating twice is deduplicating once. */
  lemma DeduplicateIdempotent<T>(xs: seq<T>)
    ensures Deduplicate(Deduplicate(xs).unique).unique == Deduplicate(xs).unique
  {
    DeduplicateNoDup(xs);
    DeduplicateDistinct(Deduplicate(xs).unique);
  }

  /** In a list without repeats every element occurs at most once. */
  lemma {:induction false} NoDupCount<T>(xs: seq<T>)
    requires NoDup(xs)
    ensures forall x :: multiset(xs)[x] <= 1
  {
    if xs != [] {
      var init := xs[..|xs| - 1];
      assert xs == init + [xs[|xs| - 1]];
      NoDupCount(init);
      assert xs[|xs| - 1] !in init;
    }
  }

  /** A permutation of a list without repeats has none either. */
  lemma NoDupPermutation<T>(a: seq<T>, b: seq<T>)
    requires NoDup(a) && multiset(a) == multiset(b)
    ensures NoDup(b)
  {
    NoDupCount(a);
    forall i, j | 0 <= i < j < |b| ensures b[i] != b[j] {
      var pre := b[..j];
      assert b == pre + [b[j]] + b[j + 1..];
      assert pre[i] == b[i];
      assert multiset(pre)[b[i]] >= 1;
      assert multiset(b) == multiset(pre) + multiset{b[j]} + multiset(b[j + 1..]);
      assert multiset(b)[b[j]] <= 1;
      assert multiset(b)[b[j]] >= multiset(pre)[b[j]] + 1;
    }
  }

  /** A permutation has the same elements. */
  lemma PermutationMembers<T>(a: seq<T>, b: seq<T>)
    requires multiset(a) == multiset(b)
    ensures forall x :: x in a <==> x in b
  {
    forall x ensures x in a <==> x in b {
      assert x in a <==> x in multiset(a);
      assert x in b <==> x in multiset(b);
    }
  }

  /** Two lists without repeats and without common elements make one without repeats. */
  lemma NoDupConcat<T>(a: seq<T>, b: seq<T>)
    requires NoDup(a) && NoDup(b)
    requires forall x :: x in a ==> x !in b
    ensures NoDup(a + b)
  {
    var t := a + b;
    forall i, j | 0 <= i < j < |t| ensures t[i] != t[j] {
      if j < |a| {
        assert t[i] == a[i] && t[j] == a[j];
      } else if i >= |a| {
        assert t[i] == b[i - |a|] && t[j] == b[j - |a|];
      } else {
        assert t[i] == a[i] && a[i] in a;
        assert t[j] == b[j - |a|];
      }
    }
  }

  /** Extending a prefix of a list without repeats by its next element. */
  lemma PrefixStep<T>(xs: seq<T>, i: nat)
    requires NoDup(xs) && i < |xs|
    ensures xs[..i + 1] == xs[..i] + [xs[i]]
    ensures xs[i] !in xs[..i]
  {
  }
}
