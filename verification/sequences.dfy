/** Order-preserving selection from sequences: the shape of every filter stage. */
module Sequences {

  /** `sub` keeps some of the elements of `s`, in the order `s` has them. */
  ghost predicate IsSubsequence<T>(sub: seq<T>, s: seq<T>)
    decreases |s|
  {
    if |sub| == 0 then true
    else if |s| == 0 then false
    else (sub[0] == s[0] && IsSubsequence(sub[1..], s[1..])) || IsSubsequence(sub, s[1..])
  }

  /** A subsequence holds no element its sequence lacks. */
  lemma {:induction false} SubsequenceMembers<T>(sub: seq<T>, s: seq<T>)
    requires IsSubsequence(sub, s)
    ensures forall x :: x in sub ==> x in s
    decreases |s|
  {
    if |sub| > 0 {
      if sub[0] == s[0] && IsSubsequence(sub[1..], s[1..]) {
        SubsequenceMembers(sub[1..], s[1..]);
        assert sub == [sub[0]] + sub[1..];
        assert s == [s[0]] + s[1..];
      } else {
        SubsequenceMembers(sub, s[1..]);
        assert s == [s[0]] + s[1..];
      }
    }
  }

  /** Narrowing twice is narrowing once. */
  lemma {:induction false} SubsequenceTransitive<T>(a: seq<T>, b: seq<T>, c: seq<T>)
    requires IsSubsequence(a, b) && IsSubsequence(b, c)
    ensures IsSubsequence(a, c)
    decreases |c|
  {
    if |a| > 0 {
      if b[0] == c[0] && IsSubsequence(b[1..], c[1..]) {
        if a[0] == b[0] && IsSubsequence(a[1..], b[1..]) {
          SubsequenceTransitive(a[1..], b[1..], c[1..]);
        } else {
          SubsequenceTransitive(a, b[1..], c[1..]);
        }
      } else {
        SubsequenceTransitive(a, b, c[1..]);
      }
    }
  }

  /** The elements of `s` that satisfy `p`, in their original order (a boolean-mask
      selection on a table, or a list comprehension with a condition). */
  function Filter<T>(p: T -> bool, s: seq<T>): (r: seq<T>)
    ensures IsSubsequence(r, s)
    ensures forall i :: 0 <= i < |r| ==> p(r[i]) && r[i] in s
    ensures forall i :: 0 <= i < |s| ==> (s[i] in r <==> p(s[i]))
    decreases |s|
  {
    if |s| == 0 then []
    else
      assert s == [s[0]] + s[1..];
      var rest := Filter(p, s[1..]);
      if p(s[0]) then
        assert ([s[0]] + rest)[1..] == rest;
        [s[0]] + rest
      else
        rest
  }

  /** Filter keeps every copy of a selected element and no copy of any other:
      each element of `s` occurs in the selection as often as in `s` when it
      satisfies `p`, and not at all otherwise. */
  lemma {:induction false} FilterMultiplicity<T>(p: T -> bool, s: seq<T>)
    ensures forall i :: 0 <= i < |s| ==> multiset(Filter(p, s))[s[i]] == if p(s[i]) then multiset(s)[s[i]] else 0
    decreases |s|
  {
    if |s| > 0 {
      assert s == [s[0]] + s[1..];
      FilterMultiplicity(p, s[1..]);
      FilterCounts(p, s[0], s[1..], Filter(p, s[1..]));
    }
  }

  /** The step of Filter's counting argument: putting `x` in front of `t`
      counts it once more in the selection exactly when it is kept. */
  lemma FilterCounts<T>(p: T -> bool, x: T, t: seq<T>, rest: seq<T>)
    requires forall i :: 0 <= i < |rest| ==> rest[i] in t
    requires forall i :: 0 <= i < |t| ==> multiset(rest)[t[i]] == if p(t[i]) then multiset(t)[t[i]] else 0
    ensures var s, r := [x] + t, if p(x) then [x] + rest else rest;
      forall i :: 0 <= i < |s| ==> multiset(r)[s[i]] == if p(s[i]) then multiset(s)[s[i]] else 0
  {
    var s, r := [x] + t, if p(x) then [x] + rest else rest;
    assert multiset(s) == multiset{x} + multiset(t);
    assert multiset(r) == (if p(x) then multiset{x} else multiset{}) + multiset(rest);
    forall i | 0 <= i < |s|
      ensures multiset(r)[s[i]] == if p(s[i]) then multiset(s)[s[i]] else 0
    {
      if s[i] in t {
        var k :| 0 <= k < |t| && t[k] == s[i];
      } else {
        assert s[i] !in rest;
      }
    }
  }

  /** `f` applied to every element of `s`, in order (a list comprehension
      without a condition). */
  function Map<A, B>(f: A -> B, s: seq<A>): (r: seq<B>)
    ensures |r| == |s| && forall i :: 0 <= i < |s| ==> r[i] == f(s[i])
  {
    seq(|s|, i requires 0 <= i < |s| => f(s[i]))
  }

  /** Mapping two sequences one after the other maps each in turn. */
  lemma MapAppend<A, B>(f: A -> B, a: seq<A>, b: seq<A>)
    ensures Map(f, a + b) == Map(f, a) + Map(f, b)
  {
    forall i | 0 <= i < |a + b|
      ensures Map(f, a + b)[i] == (Map(f, a) + Map(f, b))[i]
    {
      if i < |a| {
        assert (a + b)[i] == a[i];
      } else {
        assert (a + b)[i] == b[i - |a|];
      }
    }
  }

  /** A selection `r` of `s` by `p` (its elements come from `s` and satisfy
      `p`, and every element of `s` satisfying `p` is in it) has an element with
      property `q` exactly when `s` has one satisfying both `p` and `q`. */
  lemma SelectionWitness<T>(r: seq<T>, s: seq<T>, p: T -> bool, q: T -> bool)
    requires forall k :: 0 <= k < |r| ==> r[k] in s && p(r[k])
    requires forall i :: 0 <= i < |s| ==> (s[i] in r <==> p(s[i]))
    ensures (exists k :: 0 <= k < |r| && q(r[k])) <==> (exists i :: 0 <= i < |s| && p(s[i]) && q(s[i]))
  {
    if k :| 0 <= k < |r| && q(r[k]) {
      var i :| 0 <= i < |s| && s[i] == r[k];
      assert p(s[i]) && q(s[i]);
    }
    if i :| 0 <= i < |s| && p(s[i]) && q(s[i]) {
      var k :| 0 <= k < |r| && r[k] == s[i];
      assert q(r[k]);
    }
  }

  /** Selections by two conditions that agree on every element are equal. */
  lemma {:induction false} FilterCongruent<T>(p: T -> bool, q: T -> bool, s: seq<T>)
    requires forall i :: 0 <= i < |s| ==> p(s[i]) == q(s[i])
    ensures Filter(p, s) == Filter(q, s)
    decreases |s|
  {
    if |s| > 0 {
      FilterCongruent(p, q, s[1..]);
    }
  }

  /** Selecting by `q` among what `p` selected is selecting by both at once
      (`pq`, which holds exactly when both do): the same elements, the same
      number of copies, in the same order. */
  lemma {:induction false} FilterTwice<T>(p: T -> bool, q: T -> bool, pq: T -> bool, s: seq<T>)
    requires forall i :: 0 <= i < |s| ==> pq(s[i]) == (p(s[i]) && q(s[i]))
    ensures Filter(q, Filter(p, s)) == Filter(pq, s)
    decreases |s|
  {
    if |s| > 0 {
      FilterTwice(p, q, pq, s[1..]);
      var rest := Filter(p, s[1..]);
      if p(s[0]) {
        assert Filter(p, s) == [s[0]] + rest;
        assert ([s[0]] + rest)[1..] == rest;
      }
    }
  }

  /** Two successive selections, the first by `p` and the second by `q`, keep
      what satisfies both, in order. */
  lemma NarrowTwice<T>(s: seq<T>, a: seq<T>, b: seq<T>, p: T -> bool, q: T -> bool)
    requires IsSubsequence(a, s) && IsSubsequence(b, a)
    requires forall i :: 0 <= i < |s| ==> (s[i] in a <==> p(s[i]))
    requires forall i :: 0 <= i < |a| ==> (a[i] in b <==> q(a[i]))
    ensures IsSubsequence(b, s)
    ensures forall i :: 0 <= i < |s| ==> (s[i] in b <==> p(s[i]) && q(s[i]))
  {
    SubsequenceTransitive(b, a, s);
    SubsequenceMembers(b, a);
    forall i | 0 <= i < |s|
      ensures s[i] in b <==> p(s[i]) && q(s[i])
    {
      if s[i] in a {
        var k :| 0 <= k < |a| && a[k] == s[i];
      }
    }
  }
}
