/** The workspace's service catalog entries, consumed read-only. */
module Workspace {

  /** `workspace.Service`: a named service with the flag the whitelist
      matches against, the script that deploys it and its deployment kind. */
  datatype Service = Service(name: string, flagname: string, script: string, deployment: string)

  /** `services` has an element whose `name` is `name`. */
  predicate HasName(services: seq<Service>, name: string)
  {
    exists i :: 0 <= i < |services| && services[i].name == name
  }

  /** No two elements of `services` share a `name`. */
  predicate DistinctNames(services: seq<Service>)
  {
    forall i, j :: 0 <= i < j < |services| ==> services[i].name != services[j].name
  }

  /** `a` is `b` with some elements deleted: same relative order. */
  predicate IsSubsequence<T(==)>(a: seq<T>, b: seq<T>)
    decreases |b|
  {
    if a == [] then true
    else if b == [] then false
    else (a[|a| - 1] == b[|b| - 1] && IsSubsequence(a[..|a| - 1], b[..|b| - 1]))
         || IsSubsequence(a, b[..|b| - 1])
  }

  /** Extending `b` at the end keeps `a` a subsequence of it, and extending
      both by the same element does too. */
  lemma SubsequenceSnoc<T>(a: seq<T>, b: seq<T>, x: T)
    requires IsSubsequence(a, b)
    ensures IsSubsequence(a, b + [x])
    ensures IsSubsequence(a + [x], b + [x])
  {
    assert (b + [x])[..|b|] == b;
    assert (a + [x])[..|a|] == a;
  }

  /** Every element of a subsequence of `b` is an element of `b`. */
  lemma {:induction false} SubsequenceMembers<T>(a: seq<T>, b: seq<T>)
    requires IsSubsequence(a, b)
    ensures forall x :: x in a ==> x in b
    decreases |b|
  {
    if a != [] {
      var a', b' := a[..|a| - 1], b[..|b| - 1];
      if a[|a| - 1] == b[|b| - 1] && IsSubsequence(a', b') {
        SubsequenceMembers(a', b');
        assert a == a' + [a[|a| - 1]] && b == b' + [b[|b| - 1]];
      } else {
        SubsequenceMembers(a, b');
        assert b == b' + [b[|b| - 1]];
      }
    }
  }

  /** Deleting services cannot create a repeated name. */
  lemma {:induction false} SubsequenceDistinctNames(a: seq<Service>, b: seq<Service>)
    requires IsSubsequence(a, b) && DistinctNames(b)
    ensures DistinctNames(a)
    decreases |b|
  {
    if a != [] {
      var a', b' := a[..|a| - 1], b[..|b| - 1];
      assert DistinctNames(b');
      if a[|a| - 1] == b[|b| - 1] && IsSubsequence(a', b') {
        SubsequenceDistinctNames(a', b');
        SubsequenceMembers(a', b');
        forall k | 0 <= k < |a'|
          ensures a'[k].name != a[|a| - 1].name
        {
          assert a'[k] in b';
          var j :| 0 <= j < |b'| && b'[j] == a'[k];
          assert b[j] == b'[j];
        }
      } else {
        SubsequenceDistinctNames(a, b');
      }
    }
  }
}
