/** Facts about lists, stated once so that other proofs need not look inside sequences. */
module Sequences {
  lemma Assoc<T>(a: seq<T>, b: seq<T>, c: seq<T>)
    ensures (a + b) + c == a + (b + c)
  {
  }

  lemma TakeNext<T>(s: seq<T>, k: nat)
    requires k < |s|
    ensures s[..k + 1] == s[..k] + [s[k]]
  {
  }

  lemma NothingToAdd<T>(a: seq<T>)
    ensures a + [] == a && [] + a == a
  {
  }

  predicate Distinct(s: seq<nat>) {
    forall i, j :: 0 <= i < j < |s| ==> s[i] != s[j]
  }

  function Elements(s: seq<nat>): set<nat> {
    set x | x in s
  }

  lemma {:induction false} DistinctCount(s: seq<nat>)
    requires Distinct(s)
    ensures |Elements(s)| == |s|
  {
    if s != [] {
      var front := s[..|s| - 1];
      DistinctCount(front);
      assert Elements(s) == Elements(front) + {s[|s| - 1]};
    }
  }

  lemma ElementsNext(s: seq<nat>, k: nat)
    requires k < |s|
    ensures Elements(s[..k + 1]) == Elements(s[..k]) + {s[k]}
  {
    TakeNext(s, k);
  }

  lemma ElementsOfNone(s: seq<nat>)
    ensures Elements(s[..0]) == {} && Elements([]) == {} && Ascending([])
  {
  }

  lemma ElementAt(s: seq<nat>, k: nat)
    requires k < |s|
    ensures s[k] in Elements(s)
  {
  }

  predicate Ascending(s: seq<nat>) {
    forall i, j :: 0 <= i < j < |s| ==> s[i] < s[j]
  }

  lemma AscendingIsDistinct(s: seq<nat>)
    requires Ascending(s)
    ensures Distinct(s)
  {
  }

  lemma AboveBefore(s: seq<nat>, k: nat)
    requires Ascending(s) && k < |s|
    ensures forall x :: x in Elements(s[..k]) ==> x < s[k]
  {
  }

  lemma AscendingNext(s: seq<nat>, x: nat)
    requires Ascending(s) && forall y :: y in Elements(s) ==> y < x
    ensures Ascending(s + [x]) && Elements(s + [x]) == Elements(s) + {x}
  {
    assert forall i :: 0 <= i < |s| ==> s[i] in Elements(s);
  }
}
