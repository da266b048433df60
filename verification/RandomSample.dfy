/** `getRandomSample`: part of an array is shuffled in place, copied, and the array put back as it was. */
module RandomSample {
  import opened Arithmetic

  datatype Exchange = Exchange(first: nat, second: nat)

  function Swapped<T>(s: seq<T>, x: Exchange): (r: seq<T>)
    requires x.first < |s| && x.second < |s|
    ensures |r| == |s|
  {
    s[x.first := s[x.second]][x.second := s[x.first]]
  }

  predicate Within(swaps: seq<Exchange>, n: nat) {
    forall i :: 0 <= i < |swaps| ==> swaps[i].first < n && swaps[i].second < n
  }

  function ApplyAll<T>(s: seq<T>, swaps: seq<Exchange>): (r: seq<T>)
    requires Within(swaps, |s|)
    ensures |r| == |s|
  {
    if swaps == [] then s else Swapped(ApplyAll(s, swaps[..|swaps| - 1]), swaps[|swaps| - 1])
  }

  lemma SwapTwice<T>(s: seq<T>, x: Exchange)
    requires x.first < |s| && x.second < |s|
    ensures Swapped(Swapped(s, x), x) == s
  {
  }

  function Identity(n: nat): (p: seq<nat>)
    ensures |p| == n && forall i :: 0 <= i < n ==> p[i] == i
  {
    seq(n, i => i)
  }

  /** Every number below the length occurs, and none twice. */
  predicate IsPermutation(p: seq<nat>) {
    && (forall i :: 0 <= i < |p| ==> p[i] < |p|)
    && (forall i, j :: 0 <= i < j < |p| ==> p[i] != p[j])
    && (forall v :: 0 <= v < |p| ==> v in p)
  }

  lemma SwapKeepsPermutation(p: seq<nat>, x: Exchange)
    requires IsPermutation(p) && x.first < |p| && x.second < |p|
    ensures IsPermutation(Swapped(p, x))
  {
    var q := Swapped(p, x);
    forall v | 0 <= v < |p| ensures v in q {
      assert v in p;
      var i :| 0 <= i < |p| && p[i] == v;
      if i == x.first {
        assert q[x.second] == v;
      } else if i == x.second {
        assert q[x.first] == v;
      } else {
        assert q[i] == v;
      }
    }
  }

  /** Swapping elements is reading them through a permutation that does not depend on the elements. */
  lemma {:induction false} ApplyThroughPermutation<T>(s: seq<T>, swaps: seq<Exchange>)
    requires Within(swaps, |s|)
    ensures var p := ApplyAll(Identity(|s|), swaps);
            && IsPermutation(p)
            && forall k :: 0 <= k < |s| ==> ApplyAll(s, swaps)[k] == s[p[k]]
  {
    if swaps == [] {
      var p := Identity(|s|);
      forall v | 0 <= v < |s| ensures v in p {
        assert p[v] == v;
      }
    } else {
      var front := swaps[..|swaps| - 1];
      ApplyThroughPermutation(s, front);
      SwapKeepsPermutation(ApplyAll(Identity(|s|), front), swaps[|swaps| - 1]);
    }
  }

  /** `Math.floor(Math.random() * length)`: any number below the length, and 0 when there is none. */
  method RandomInt(length: nat) returns (r: nat)
    ensures r < length || r == length == 0
  {
    if length == 0 {
      return 0;
    }
    r :| r < length;
  }

  /** `size` elements from `start` on, going round at the end; slices stop at the end of the array. */
  function Window<T>(s: seq<T>, start: nat, size: nat): seq<T>
    requires start <= |s|
  {
    s[start..Min(start + size, |s|)] + (if start + size > |s| then s[..Min(start + size - |s|, |s|)] else [])
  }

  lemma WindowIndex<T>(s: seq<T>, start: nat, size: nat, k: nat)
    requires start <= |s| && k < |Window(s, start, size)|
    ensures Window(s, start, size)[k] == if start + k < |s| then s[start + k] else s[start + k - |s|]
  {
  }

  /** Up to the length of the array the window has `size` different places. */
  lemma WindowOfPermutation(p: seq<nat>, start: nat, size: nat)
    requires IsPermutation(p) && start <= |p| && size <= |p|
    ensures |Window(p, start, size)| == size
    ensures forall i, j :: 0 <= i < j < size ==> Window(p, start, size)[i] != Window(p, start, size)[j]
  {
    forall i, j | 0 <= i < j < size ensures Window(p, start, size)[i] != Window(p, start, size)[j] {
      WindowIndex(p, start, size, i);
      WindowIndex(p, start, size, j);
    }
  }

  /** Beyond the length of the array the window has every place. */
  lemma LongWindowHasAll(p: seq<nat>, start: nat, size: nat, v: nat)
    requires IsPermutation(p) && start <= |p| <= size && v < |p|
    ensures v in Window(p, start, size)
  {
    assert v in p;
    var i :| 0 <= i < |p| && p[i] == v;
    var w := Window(p, start, size);
    if start <= i {
      WindowIndex(p, start, size, i - start);
      assert w[i - start] == v;
    } else {
      WindowIndex(p, start, size, i + |p| - start);
      assert w[i + |p| - start] == v;
    }
  }

  /**
   The array is put back exactly, for all random choices. The sample is read at `positions` of the array:
   `size` different ones when there are as many, and otherwise all of them, some more than once.
   */
  method GetRandomSample<T>(a: array<T>, size: nat) returns (sample: seq<T>, ghost positions: seq<nat>)
    requires size == 0 || 0 < a.Length
    modifies a
    ensures a[..] == old(a[..])
    ensures |positions| == |sample|
    ensures forall k :: 0 <= k < |sample| ==> positions[k] < a.Length && sample[k] == a[positions[k]]
    ensures size <= a.Length ==> |sample| == size && forall i, j :: 0 <= i < j < size ==> positions[i] != positions[j]
    ensures a.Length <= size ==> forall v :: 0 <= v < a.Length ==> v in positions
  {
    ghost var before := a[..];
    var start := RandomInt(a.Length);
    var swaps := Scramble(a, start, size);
    sample := CopyWindow(a, start, size);
    positions := Positions(before, swaps, start, size);
    Unscramble(a, swaps, before);
  }

  method CopyWindow<T>(a: array<T>, start: nat, size: nat) returns (sample: seq<T>)
    requires start <= a.Length
    ensures sample == Window(a[..], start, size)
  {
    var end := start + size;
    sample := a[start..Min(end, a.Length)];
    if end > a.Length {
      sample := sample + a[..Min(end - a.Length, a.Length)];
    }
  }

  lemma WindowLength<T, U>(s: seq<T>, p: seq<U>, start: nat, size: nat)
    requires |p| == |s| && start <= |s|
    ensures |Window(s, start, size)| == |Window(p, start, size)|
  {
  }

  /** A window of the shuffled array reads the original array at a window of the permutation. */
  lemma WindowThroughPermutation<T>(before: seq<T>, shuffled: seq<T>, p: seq<nat>, start: nat, size: nat)
    requires |p| == |before| == |shuffled| && IsPermutation(p) && start <= |before|
    requires forall v :: 0 <= v < |before| ==> shuffled[v] == before[p[v]]
    ensures var positions, sample := Window(p, start, size), Window(shuffled, start, size);
            && |positions| == |sample|
            && forall k :: 0 <= k < |sample| ==> positions[k] < |before| && sample[k] == before[positions[k]]
  {
    WindowLength(shuffled, p, start, size);
    forall k | 0 <= k < |Window(p, start, size)|
      ensures Window(p, start, size)[k] < |before|
      ensures Window(shuffled, start, size)[k] == before[Window(p, start, size)[k]]
    {
      WindowIndex(shuffled, start, size, k);
      WindowIndex(p, start, size, k);
    }
  }

  lemma AllInLongWindow(p: seq<nat>, start: nat, size: nat)
    requires IsPermutation(p) && start <= |p| <= size
    ensures forall v :: 0 <= v < |p| ==> v in Window(p, start, size)
  {
    hide Window, IsPermutation;
    forall v | 0 <= v < |p| ensures v in Window(p, start, size) {
      LongWindowHasAll(p, start, size, v);
    }
  }

  /** The places of the original array at which a window of the shuffled one is read. */
  lemma Positions<T>(before: seq<T>, swaps: seq<Exchange>, start: nat, size: nat) returns (positions: seq<nat>)
    requires Within(swaps, |before|) && start <= |before|
    ensures var sample := Window(ApplyAll(before, swaps), start, size);
            && |positions| == |sample|
            && forall k :: 0 <= k < |sample| ==> positions[k] < |before| && sample[k] == before[positions[k]]
    ensures size <= |before| ==>
              |positions| == size && forall i, j :: 0 <= i < j < size ==> positions[i] != positions[j]
    ensures |before| <= size ==> forall v :: 0 <= v < |before| ==> v in positions
  {
    hide IsPermutation, ApplyAll, Within, Min;
    var p := ApplyAll(Identity(|before|), swaps);
    var shuffled := ApplyAll(before, swaps);
    ApplyThroughPermutation(before, swaps);
    positions := Window(p, start, size);
    WindowThroughPermutation(before, shuffled, p, start, size);
    if size <= |p| {
      WindowOfPermutation(p, start, size);
    }
    if |p| <= size {
      AllInLongWindow(p, start, size);
    }
  }

  method Scramble<T>(a: array<T>, start: nat, size: nat) returns (swaps: seq<Exchange>)
    requires size == 0 || start < a.Length
    modifies a
    ensures |swaps| == size && Within(swaps, a.Length)
    ensures a[..] == ApplyAll(old(a[..]), swaps)
  {
    swaps := [];
    var i := size;
    while i != 0
      invariant 0 <= i <= size && |swaps| == size - i
      invariant Within(swaps, a.Length)
      invariant a[..] == ApplyAll(old(a[..]), swaps)
    {
      i := i - 1;
      var index := (start + i) % a.Length;
      var rindex := RandomInt(a.Length);
      Exchanged(a, rindex, index, Exchange(index, rindex));
      assert (swaps + [Exchange(index, rindex)])[..|swaps|] == swaps;
      swaps := swaps + [Exchange(index, rindex)];
    }
  }

  method Exchanged<T>(a: array<T>, i: nat, j: nat, ghost x: Exchange)
    requires i < a.Length && j < a.Length
    requires x == Exchange(i, j) || x == Exchange(j, i)
    modifies a
    ensures a[..] == Swapped(old(a[..]), x)
  {
    var temp := a[i];
    a[i] := a[j];
    a[j] := temp;
  }

  method Unscramble<T>(a: array<T>, swaps: seq<Exchange>, ghost before: seq<T>)
    requires |before| == a.Length && Within(swaps, a.Length)
    requires a[..] == ApplyAll(before, swaps)
    modifies a
    ensures a[..] == before
  {
    var left := swaps;
    while left != []
      invariant Within(left, a.Length)
      invariant a[..] == ApplyAll(before, left)
    {
      var pop := left[|left| - 1];
      left := left[..|left| - 1];
      SwapTwice(ApplyAll(before, left), pop);
      Exchanged(a, pop.first, pop.second, pop);
    }
  }
}
