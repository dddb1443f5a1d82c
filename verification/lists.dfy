/** `Array.prototype.filter` over sequences. */
module Lists {

  /** `a` is `b` with some elements dropped, the rest kept in order. */
  predicate IsSubsequence<T(==)>(a: seq<T>, b: seq<T>)
    decreases |b|
  {
    if |a| == 0 then true
    else if |b| == 0 then false
    else (a[0] == b[0] && IsSubsequence(a[1..], b[1..])) || IsSubsequence(a, b[1..])
  }

  /** The elements of `s` satisfying `p`, in their original order. */
  function Filter<T(==)>(s: seq<T>, p: T -> bool): (r: seq<T>)
    ensures forall i :: 0 <= i < |r| ==> r[i] in s && p(r[i])
    ensures forall i :: 0 <= i < |s| && p(s[i]) ==> s[i] in r
    ensures multiset(r) <= multiset(s)
    ensures forall x | x in multiset(s) :: multiset(r)[x] == if p(x) then multiset(s)[x] else 0
    ensures IsSubsequence(r, s)
    ensures |r| <= |s|
    decreases |s|
  {
    if |s| == 0 then []
    else
      var rest := Filter(s[1..], p);
      var r := if p(s[0]) then [s[0]] + rest else rest;
      ConsKeeps(s, p, rest, r);
      ConsCounts(s, p, rest, r);
      r
  }

  /** The membership and order step of `Filter`. */
  lemma ConsKeeps<T>(s: seq<T>, p: T -> bool, rest: seq<T>, r: seq<T>)
    requires |s| > 0
    requires forall i :: 0 <= i < |rest| ==> rest[i] in s[1..] && p(rest[i])
    requires forall i :: 0 <= i < |s[1..]| && p(s[1..][i]) ==> s[1..][i] in rest
    requires IsSubsequence(rest, s[1..]) && |rest| <= |s[1..]|
    requires r == if p(s[0]) then [s[0]] + rest else rest
    ensures forall i :: 0 <= i < |r| ==> r[i] in s && p(r[i])
    ensures forall i :: 0 <= i < |s| && p(s[i]) ==> s[i] in r
    ensures IsSubsequence(r, s) && |r| <= |s|
  {
    assert s == [s[0]] + s[1..];
    assert forall i :: 0 < i < |s| ==> s[i] == s[1..][i - 1];
  }

  /** The multiplicity step of `Filter`: the head is kept exactly when `p` holds of it. */
  lemma ConsCounts<T>(s: seq<T>, p: T -> bool, rest: seq<T>, r: seq<T>)
    requires |s| > 0
    requires multiset(rest) <= multiset(s[1..])
    requires forall x | x in multiset(s[1..]) :: multiset(rest)[x] == if p(x) then multiset(s[1..])[x] else 0
    requires r == if p(s[0]) then [s[0]] + rest else rest
    ensures multiset(r) <= multiset(s)
    ensures forall x | x in multiset(s) :: multiset(r)[x] == if p(x) then multiset(s)[x] else 0
  {
    assert s == [s[0]] + s[1..];
    assert multiset(s) == multiset{s[0]} + multiset(s[1..]);
    if p(s[0]) {
      assert multiset(r) == multiset{s[0]} + multiset(rest);
    }
  }

  /** A predicate every element satisfies filters nothing out. */
  lemma {:induction false} FilterAll<T>(s: seq<T>, p: T -> bool)
    requires forall i :: 0 <= i < |s| ==> p(s[i])
    ensures Filter(s, p) == s
    decreases |s|
  {
    if |s| > 0 {
      FilterAll(s[1..], p);
    }
  }
}
