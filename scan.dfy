/**
 * Linear searches over sequences. The reply extractors of the agent
 * helpers are all "first element that qualifies" or "last element that
 * qualifies"; each search is characterised here once, by the ensures
 * clauses of the index functions, so that the extractors can be stated in
 * terms of them.
 */
module Scan {
  import opened Wrappers

  /** The index of the first element of `s` satisfying `p`, if there is one. */
  function FirstIndex<T>(s: seq<T>, p: T -> bool): (r: Option<nat>)
    ensures r.Some? ==> r.value < |s| && p(s[r.value]) && forall j :: 0 <= j < r.value ==> !p(s[j])
    ensures r.None? ==> forall k :: 0 <= k < |s| ==> !p(s[k])
    decreases |s|
  {
    if s == [] then None
    else if p(s[0]) then Some(0)
    else
      match FirstIndex(s[1..], p)
      case Some(k) => assert forall j :: 1 <= j <= k + 1 ==> s[j] == s[1..][j - 1]; Some(k + 1)
      case None => assert forall j :: 1 <= j < |s| ==> s[j] == s[1..][j - 1]; None
  }

  /** The index of the last element of `s` satisfying `p`, if there is one. */
  function LastIndex<T>(s: seq<T>, p: T -> bool): (r: Option<nat>)
    ensures r.Some? ==> r.value < |s| && p(s[r.value]) && forall j :: r.value < j < |s| ==> !p(s[j])
    ensures r.None? ==> forall k :: 0 <= k < |s| ==> !p(s[k])
    decreases |s|
  {
    if s == [] then None
    else if p(s[|s| - 1]) then Some(|s| - 1)
    else
      var r := LastIndex(s[..|s| - 1], p);
      assert forall j :: 0 <= j < |s| - 1 ==> s[j] == s[..|s| - 1][j];
      r
  }

  /** The first element of `s` satisfying `p`, if there is one. */
  function FirstMatch<T>(s: seq<T>, p: T -> bool): Option<T> {
    match FirstIndex(s, p)
    case Some(k) => Some(s[k])
    case None => None
  }

  /** The last element of `s` satisfying `p`, if there is one. */
  function LastMatch<T>(s: seq<T>, p: T -> bool): Option<T> {
    match LastIndex(s, p)
    case Some(k) => Some(s[k])
    case None => None
  }

  /** A qualifying element preceded by none is the first match. */
  lemma FirstMatchAt<T>(s: seq<T>, p: T -> bool, k: nat)
    requires k < |s| && p(s[k])
    requires forall j :: 0 <= j < k ==> !p(s[j])
    ensures FirstIndex(s, p) == Some(k) && FirstMatch(s, p) == Some(s[k])
  {
  }

  /** A qualifying element followed by none is the last match. */
  lemma LastMatchAt<T>(s: seq<T>, p: T -> bool, k: nat)
    requires k < |s| && p(s[k])
    requires forall j :: k < j < |s| ==> !p(s[j])
    ensures LastIndex(s, p) == Some(k) && LastMatch(s, p) == Some(s[k])
  {
  }

  /** Extending a sequence by one element: that element wins if it qualifies. */
  lemma LastMatchAppend<T>(s: seq<T>, x: T, p: T -> bool)
    ensures LastMatch(s + [x], p) == if p(x) then Some(x) else LastMatch(s, p)
  {
    assert (s + [x])[..|s|] == s;
  }

  /** Unfolding the first match at the head of a non-empty sequence. */
  lemma FirstMatchCons<T>(s: seq<T>, p: T -> bool)
    requires s != []
    ensures FirstMatch(s, p) == if p(s[0]) then Some(s[0]) else FirstMatch(s[1..], p)
  {
  }

  /** An element that does not qualify can be removed without changing the first match. */
  lemma {:induction false} FirstMatchSkip<T>(a: seq<T>, x: T, b: seq<T>, p: T -> bool)
    requires !p(x)
    ensures FirstMatch(a + [x] + b, p) == FirstMatch(a + b, p)
    decreases |a|
  {
    FirstMatchCons(a + [x] + b, p);
    if a == [] {
      assert (a + [x] + b)[1..] == b && a + b == b;
    } else {
      FirstMatchCons(a + b, p);
      assert (a + [x] + b)[0] == a[0] && (a + b)[0] == a[0];
      assert (a + [x] + b)[1..] == a[1..] + [x] + b;
      assert (a + b)[1..] == a[1..] + b;
      FirstMatchSkip(a[1..], x, b, p);
    }
  }

  /** An element that does not qualify can be removed without changing the last match. */
  lemma {:induction false} LastMatchSkip<T>(a: seq<T>, x: T, b: seq<T>, p: T -> bool)
    requires !p(x)
    ensures LastMatch(a + [x] + b, p) == LastMatch(a + b, p)
    decreases |b|
  {
    if b == [] {
      assert a + [x] + b == a + [x] && a + b == a;
      LastMatchAppend(a, x, p);
    } else {
      var b', y := b[..|b| - 1], b[|b| - 1];
      assert b == b' + [y];
      assert a + [x] + b == (a + [x] + b') + [y];
      assert a + b == (a + b') + [y];
      LastMatchAppend(a + [x] + b', y, p);
      LastMatchAppend(a + b', y, p);
      LastMatchSkip(a, x, b', p);
    }
  }
}
