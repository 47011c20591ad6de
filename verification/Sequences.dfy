/** Small notions about collections that several modules share. */
module Sequences {
  ghost predicate Distinct<T>(s: seq<T>) {
    forall k, l :: 0 <= k < l < |s| ==> s[k] != s[l]
  }

  /** Positions in a list of lists: by the list, then by the place inside it. */
  predicate Before(p: (nat, nat), q: (nat, nat)) {
    p.0 < q.0 || (p.0 == q.0 && p.1 < q.1)
  }

  ghost predicate InOrder(pos: seq<(nat, nat)>) {
    forall m, n :: 0 <= m < n < |pos| ==> Before(pos[m], pos[n])
  }

  ghost predicate Increasing(pos: seq<nat>) {
    forall m, n :: 0 <= m < n < |pos| ==> pos[m] < pos[n]
  }

  lemma {:induction false} HeadIsMember<T>(s: seq<T>)
    ensures s == [] || s[0] in s
  {
  }

  lemma {:induction false} AnElement<T>(s: set<T>) returns (x: T)
    requires s != {}
    ensures x in s
  {
    x :| x in s;
  }
}
