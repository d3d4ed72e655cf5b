/**
 The selection both searches perform: keep, in order, the lines that match
 the query. Matching is case-sensitive (plain substring) or folds both the
 line and the query to lower case first; either way the kept line is the
 original one.
 */
module Filtering {
  import opened Text

  /** Does `line` match `query`? */
  function Matches(line: string, query: string, caseSensitive: bool): (b: bool)
    ensures query == [] ==> b
    ensures b ==> |query| <= |line|
  {
    if caseSensitive then Contains(line, query) else Contains(Lower(line), Lower(query))
  }

  /** `a` is `b` with some elements removed, the rest kept in order. */
  predicate IsSubsequence(a: seq<string>, b: seq<string>)
    decreases |b|
  {
    if a == [] then true
    else if b == [] then false
    else (a[0] == b[0] && IsSubsequence(a[1..], b[1..])) || IsSubsequence(a, b[1..])
  }

  /** What it means to be the selection of the matching lines of `ls`:
      in order, only matching lines, and every matching line as often as it
      occurs in `ls`. */
  ghost predicate IsSelection(r: seq<string>, ls: seq<string>, query: string, caseSensitive: bool)
  {
    && IsSubsequence(r, ls)
    && (forall k :: 0 <= k < |r| ==> Matches(r[k], query, caseSensitive))
    && (forall l :: Matches(l, query, caseSensitive) ==> multiset(r)[l] == multiset(ls)[l])
  }

  /** The matching lines of `ls`, in order. */
  function Select(ls: seq<string>, query: string, caseSensitive: bool): (r: seq<string>)
    ensures |r| <= |ls|
    ensures forall k :: 0 <= k < |r| ==> r[k] in ls
    decreases |ls|
  {
    if ls == [] then []
    else
      var rest := Select(ls[1..], query, caseSensitive);
      if Matches(ls[0], query, caseSensitive) then [ls[0]] + rest else rest
  }

  /** `Select` is a selection: it keeps lines of `ls` in order, only matching
      ones, and every matching one as often as it occurs. */
  lemma {:induction false} SelectIsSelection(ls: seq<string>, query: string, caseSensitive: bool)
    ensures IsSelection(Select(ls, query, caseSensitive), ls, query, caseSensitive)
    decreases |ls|
  {
    if ls != [] {
      var h := ls[0];
      var t := ls[1..];
      assert ls == [h] + t;
      var rest := Select(t, query, caseSensitive);
      SelectIsSelection(t, query, caseSensitive);
      var r := Select(ls, query, caseSensitive);
      if Matches(h, query, caseSensitive) {
        assert r == [h] + rest;
        assert r[1..] == rest;
      } else {
        assert r == rest;
        assert IsSubsequence(rest, ls) by {
          if rest != [] {
            assert IsSubsequence(rest, ls[1..]);
          }
        }
      }
    }
  }

  /** No matching line is dropped: every line of `ls` that matches is in the
      selection. */
  lemma {:induction false} SelectKeepsEveryMatch(ls: seq<string>, query: string, caseSensitive: bool)
    ensures forall l :: l in ls && Matches(l, query, caseSensitive) ==> l in Select(ls, query, caseSensitive)
    decreases |ls|
  {
    if ls != [] {
      SelectKeepsEveryMatch(ls[1..], query, caseSensitive);
      assert forall l :: l in ls ==> l == ls[0] || l in ls[1..];
    }
  }

  /** A subsequence holds each element at most as often as the whole. */
  lemma {:induction false} SubsequenceMultiset(a: seq<string>, b: seq<string>)
    requires IsSubsequence(a, b)
    ensures multiset(a) <= multiset(b)
    decreases |b|
  {
    if a != [] {
      assert b == [b[0]] + b[1..];
      if a[0] == b[0] && IsSubsequence(a[1..], b[1..]) {
        SubsequenceMultiset(a[1..], b[1..]);
        assert a == [a[0]] + a[1..];
      } else {
        SubsequenceMultiset(a, b[1..]);
      }
    }
  }

  /** A subsequence holds `h` at most as often as the whole. */
  lemma SubsequenceCount(a: seq<string>, b: seq<string>, h: string)
    ensures IsSubsequence(a, b) ==> multiset(a)[h] <= multiset(b)[h]
  {
    if IsSubsequence(a, b) {
      SubsequenceMultiset(a, b);
    }
  }

  /** Every element of a subsequence is an element of the whole. */
  lemma SubsequenceElements(a: seq<string>, b: seq<string>)
    requires IsSubsequence(a, b)
    ensures forall k :: 0 <= k < |a| ==> a[k] in b
  {
    SubsequenceMultiset(a, b);
    forall k | 0 <= k < |a|
      ensures a[k] in b
    {
      assert a[k] in multiset(a);
    }
  }

  /** `Select` is the only selection: any sequence that keeps lines of `ls` in
      order, keeps only matching ones and keeps every matching one is it. */
  lemma {:induction false} SelectionIsUnique(r: seq<string>, ls: seq<string>, query: string, caseSensitive: bool)
    requires IsSelection(r, ls, query, caseSensitive)
    ensures r == Select(ls, query, caseSensitive)
    decreases |ls|
  {
    if ls != [] {
      var h := ls[0];
      var t := ls[1..];
      assert ls == [h] + t;
      if Matches(h, query, caseSensitive) {
        // skipping h would leave r one copy of h short
        SubsequenceCount(r, t, h);
        assert multiset(t)[h] < multiset(ls)[h];
        assert r != [] && r[0] == h && IsSubsequence(r[1..], t);
        assert r == [h] + r[1..];
        forall l | Matches(l, query, caseSensitive)
          ensures multiset(r[1..])[l] == multiset(t)[l]
        {
          assert multiset(r) == multiset([h]) + multiset(r[1..]);
        }
        SelectionIsUnique(r[1..], t, query, caseSensitive);
      } else {
        assert r != [] ==> Matches(r[0], query, caseSensitive);
        assert IsSubsequence(r, t);
        SelectionIsUnique(r, t, query, caseSensitive);
      }
    }
  }

  /** Selecting from one more line in front: the first step of `Select`. */
  lemma SelectCons(line: string, ls: seq<string>, query: string, caseSensitive: bool)
    ensures Select([line] + ls, query, caseSensitive)
         == (if Matches(line, query, caseSensitive) then [line] else []) + Select(ls, query, caseSensitive)
  {
    assert ([line] + ls)[1..] == ls;
  }

  /** Selecting from lines followed by one more line: the loop step of both
      searches. */
  lemma {:induction false} SelectSnoc(ls: seq<string>, line: string, query: string, caseSensitive: bool)
    ensures Select(ls + [line], query, caseSensitive)
         == Select(ls, query, caseSensitive) + (if Matches(line, query, caseSensitive) then [line] else [])
    decreases |ls|
  {
    if ls == [] {
      assert [] + [line] == [line];
    } else {
      assert (ls + [line])[0] == ls[0];
      assert (ls + [line])[1..] == ls[1..] + [line];
      SelectSnoc(ls[1..], line, query, caseSensitive);
    }
  }

  /** The loop step of both searches, stated on prefixes of the lines. */
  lemma SelectPrefixStep(ls: seq<string>, i: nat, query: string, caseSensitive: bool)
    requires i < |ls|
    ensures Select(ls[..i + 1], query, caseSensitive)
         == Select(ls[..i], query, caseSensitive) + (if Matches(ls[i], query, caseSensitive) then [ls[i]] else [])
  {
    assert ls[..i + 1] == ls[..i] + [ls[i]];
    SelectSnoc(ls[..i], ls[i], query, caseSensitive);
  }

  /** An empty query selects every line, whether or not case is folded. */
  lemma {:induction false} EmptyQuerySelectsAll(ls: seq<string>, caseSensitive: bool)
    ensures Select(ls, [], caseSensitive) == ls
    decreases |ls|
  {
    if ls != [] {
      assert Lower([]) == [];
      EmptyOccursEverywhere(ls[0]);
      EmptyOccursEverywhere(Lower(ls[0]));
      EmptyQuerySelectsAll(ls[1..], caseSensitive);
    }
  }

  /** Ignoring case, only the folded query matters: two queries that fold to
      the same string (such as `rUsT` and `rust`) select the same lines. */
  lemma {:induction false} FoldedQueryDecides(ls: seq<string>, q1: string, q2: string)
    requires Lower(q1) == Lower(q2)
    ensures Select(ls, q1, false) == Select(ls, q2, false)
    decreases |ls|
  {
    if ls != [] {
      FoldedQueryDecides(ls[1..], q1, q2);
    }
  }
}
