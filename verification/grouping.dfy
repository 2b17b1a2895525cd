/**
 * `testsByAuthor`, the map both `Main.kt` loops fill: a `LinkedHashMap`
 * from author e-mail to that author's tests, kept here as an association
 * list in insertion order, and the group-by fold that fills it.
 */
module Grouping {
  import opened Diff
  import opened GitClient

  /** Author e-mail to tests, in the order the authors were first added. */
  type AuthorMap = seq<(string, seq<NewTestInfo>)>

  /** The keys, in insertion order. */
  function Keys(m: AuthorMap): (ks: seq<string>)
    ensures |ks| == |m| && forall i :: 0 <= i < |m| ==> ks[i] == m[i].0
  {
    if |m| == 0 then [] else [m[0].0] + Keys(m[1..])
  }

  /** What a map built by `getOrPut` and non-empty `addAll` looks like: distinct keys, no empty list. */
  predicate WellFormed(m: AuthorMap) {
    && (forall i, j :: 0 <= i < j < |m| ==> m[i].0 != m[j].0)
    && (forall i :: 0 <= i < |m| ==> |m[i].1| > 0)
  }

  /** `m[key] ?: emptyList()`. */
  function Lookup(m: AuthorMap, key: string): seq<NewTestInfo> {
    if |m| == 0 then [] else if m[0].0 == key then m[0].1 else Lookup(m[1..], key)
  }

  /** The sum of the list sizes. */
  function Total(m: AuthorMap): nat {
    if |m| == 0 then 0 else |m[0].1| + Total(m[1..])
  }

  /**
   * `m.getOrPut(key) { mutableListOf() }.addAll(xs)`: the key's list grows
   * by `xs` at its end; a new key goes after all existing ones; nothing else
   * changes.
   */
  function AddAll(m: AuthorMap, key: string, xs: seq<NewTestInfo>): (r: AuthorMap)
    ensures Keys(r) == Keys(m) + (if key in Keys(m) then [] else [key])
    ensures forall k :: Lookup(r, k) == if k == key then Lookup(m, k) + xs else Lookup(m, k)
    ensures Total(r) == Total(m) + |xs|
  {
    if |m| == 0 then
      [(key, xs)]
    else if m[0].0 == key then
      [(key, m[0].1 + xs)] + m[1..]
    else
      var rest := AddAll(m[1..], key, xs);
      assert Keys(m) == [m[0].0] + Keys(m[1..]);
      assert ([m[0]] + rest)[1..] == rest;
      [m[0]] + rest
  }

  /** A pair in front of a well-formed map whose keys it does not repeat keeps it well-formed. */
  lemma WellFormedCons(p: (string, seq<NewTestInfo>), rest: AuthorMap)
    requires WellFormed(rest) && |p.1| > 0 && p.0 !in Keys(rest)
    ensures WellFormed([p] + rest)
  {
    var m := [p] + rest;
    forall i, j | 0 <= i < j < |m|
      ensures m[i].0 != m[j].0
    {
      if i == 0 {
        assert m[j].0 == Keys(rest)[j - 1];
      }
    }
  }

  /** The first key of a well-formed map is not repeated after it, and the rest is well-formed. */
  lemma WellFormedUncons(m: AuthorMap)
    requires WellFormed(m) && |m| > 0
    ensures m[0].0 !in Keys(m[1..]) && WellFormed(m[1..])
  {
    forall j | 0 <= j < |m| - 1
      ensures Keys(m[1..])[j] != m[0].0
    {
      assert m[1..][j] == m[j + 1];
    }
    assert forall i :: 0 <= i < |m| - 1 ==> m[1..][i] == m[i + 1];
  }

  /** Adding a non-empty list keeps the keys distinct and every list non-empty. */
  lemma {:induction false} AddAllKeepsWellFormed(m: AuthorMap, key: string, xs: seq<NewTestInfo>)
    requires WellFormed(m) && |xs| > 0
    ensures WellFormed(AddAll(m, key, xs))
    decreases |m|
  {
    if |m| > 0 {
      WellFormedUncons(m);
      if m[0].0 == key {
        WellFormedCons((key, m[0].1 + xs), m[1..]);
        assert AddAll(m, key, xs) == [(key, m[0].1 + xs)] + m[1..];
      } else {
        var rest := AddAll(m[1..], key, xs);
        AddAllKeepsWellFormed(m[1..], key, xs);
        assert m[0].0 !in Keys(rest);
        WellFormedCons(m[0], rest);
        assert AddAll(m, key, xs) == [m[0]] + rest;
      }
    }
  }

  /** In a well-formed map a key is present exactly when its list is non-empty. */
  lemma {:induction false} KeyIffTests(m: AuthorMap, key: string)
    requires WellFormed(m)
    ensures key in Keys(m) <==> Lookup(m, key) != []
    decreases |m|
  {
    if |m| > 0 {
      assert Keys(m) == [m[0].0] + Keys(m[1..]);
      WellFormedUncons(m);
      KeyIffTests(m[1..], key);
    }
  }

  /** What one commit adds: its tests under its author, if it has any and they are included. */
  function AddTests(m: AuthorMap, c: CommitInfo, testsOf: CommitInfo -> seq<NewTestInfo>,
                    keep: CommitInfo -> bool): AuthorMap {
    if |testsOf(c)| > 0 && keep(c) then AddAll(m, c.authorEmail, testsOf(c)) else m
  }

  /** The map after the commits `cs`, in order. */
  function GroupBy(cs: seq<CommitInfo>, testsOf: CommitInfo -> seq<NewTestInfo>,
                   keep: CommitInfo -> bool): AuthorMap
    decreases |cs|
  {
    if |cs| == 0 then [] else AddTests(GroupBy(cs[..|cs| - 1], testsOf, keep), cs[|cs| - 1], testsOf, keep)
  }

  /** Reference: the tests of the included commits by author `a`, in commit order. */
  function AuthorTests(cs: seq<CommitInfo>, testsOf: CommitInfo -> seq<NewTestInfo>,
                       keep: CommitInfo -> bool, a: string): seq<NewTestInfo>
    decreases |cs|
  {
    if |cs| == 0 then []
    else
      var c := cs[|cs| - 1];
      AuthorTests(cs[..|cs| - 1], testsOf, keep, a) + (if c.authorEmail == a && keep(c) then testsOf(c) else [])
  }

  /** Reference: how many tests the included commits have in all. */
  function IncludedCount(cs: seq<CommitInfo>, testsOf: CommitInfo -> seq<NewTestInfo>,
                         keep: CommitInfo -> bool): nat
    decreases |cs|
  {
    if |cs| == 0 then 0
    else
      var c := cs[|cs| - 1];
      IncludedCount(cs[..|cs| - 1], testsOf, keep) + (if keep(c) then |testsOf(c)| else 0)
  }

  /**
   * The group-by fold: each author's list is that author's included tests
   * in commit order, then parser order; the keys are distinct and no list is
   * empty; and the list sizes add up to the number of included tests.
   */
  lemma GroupByMeaning(cs: seq<CommitInfo>, testsOf: CommitInfo -> seq<NewTestInfo>, keep: CommitInfo -> bool)
    ensures WellFormed(GroupBy(cs, testsOf, keep))
    ensures forall a :: Lookup(GroupBy(cs, testsOf, keep), a) == AuthorTests(cs, testsOf, keep, a)
    ensures Total(GroupBy(cs, testsOf, keep)) == IncludedCount(cs, testsOf, keep)
  {
    GroupByWellFormed(cs, testsOf, keep);
    forall a
      ensures Lookup(GroupBy(cs, testsOf, keep), a) == AuthorTests(cs, testsOf, keep, a)
    {
      GroupByLookup(cs, testsOf, keep, a);
    }
    GroupByTotal(cs, testsOf, keep);
  }

  /** The fold keeps the keys distinct and no list empty. */
  lemma {:induction false} GroupByWellFormed(cs: seq<CommitInfo>, testsOf: CommitInfo -> seq<NewTestInfo>,
                                             keep: CommitInfo -> bool)
    ensures WellFormed(GroupBy(cs, testsOf, keep))
    decreases |cs|
  {
    if |cs| > 0 {
      var pre, c := cs[..|cs| - 1], cs[|cs| - 1];
      GroupByWellFormed(pre, testsOf, keep);
      if |testsOf(c)| > 0 && keep(c) {
        AddAllKeepsWellFormed(GroupBy(pre, testsOf, keep), c.authorEmail, testsOf(c));
      }
    }
  }

  /** Each author's list is that author's included tests, in order. */
  lemma {:induction false} GroupByLookup(cs: seq<CommitInfo>, testsOf: CommitInfo -> seq<NewTestInfo>,
                                         keep: CommitInfo -> bool, a: string)
    ensures Lookup(GroupBy(cs, testsOf, keep), a) == AuthorTests(cs, testsOf, keep, a)
    decreases |cs|
  {
    if |cs| > 0 {
      GroupByLookup(cs[..|cs| - 1], testsOf, keep, a);
    }
  }

  /** The list sizes add up to the number of included tests. */
  lemma {:induction false} GroupByTotal(cs: seq<CommitInfo>, testsOf: CommitInfo -> seq<NewTestInfo>,
                                        keep: CommitInfo -> bool)
    ensures Total(GroupBy(cs, testsOf, keep)) == IncludedCount(cs, testsOf, keep)
    decreases |cs|
  {
    if |cs| > 0 {
      GroupByTotal(cs[..|cs| - 1], testsOf, keep);
    }
  }

  /** An author is a key exactly when some included commit of theirs has tests. */
  lemma GroupByKeys(cs: seq<CommitInfo>, testsOf: CommitInfo -> seq<NewTestInfo>,
                    keep: CommitInfo -> bool, a: string)
    ensures a in Keys(GroupBy(cs, testsOf, keep)) <==> AuthorTests(cs, testsOf, keep, a) != []
  {
    GroupByMeaning(cs, testsOf, keep);
    KeyIffTests(GroupBy(cs, testsOf, keep), a);
  }

  /** The fold only looks at the tests and the inclusion of the commits it is given. */
  lemma {:induction false} GroupByCongruence(cs: seq<CommitInfo>, f: CommitInfo -> seq<NewTestInfo>,
                                             g: CommitInfo -> seq<NewTestInfo>,
                                             inc1: CommitInfo -> bool, inc2: CommitInfo -> bool)
    requires forall i :: 0 <= i < |cs| ==> f(cs[i]) == g(cs[i]) && inc1(cs[i]) == inc2(cs[i])
    ensures GroupBy(cs, f, inc1) == GroupBy(cs, g, inc2)
    decreases |cs|
  {
    if |cs| > 0 {
      var pre := cs[..|cs| - 1];
      assert forall i :: 0 <= i < |pre| ==> pre[i] == cs[i];
      GroupByCongruence(pre, f, g, inc1, inc2);
    }
  }
}
