/** ShuffleSegments of cd2n-node/actors/resource_actor.go. The random numbers are given in advance:
    choices[i] is the one drawn below i + 1 when position i is filled; choices[0] is never drawn and stands at 0. */
module Shuffle {
  import opened Common

  predicate Drawn(choices: seq<nat>) {
    forall i :: 0 <= i < |choices| ==> choices[i] <= i
  }

  function Swap<T>(s: seq<T>, i: nat, j: nat): seq<T>
    requires i < |s| && j < |s|
  {
    s[i := s[j]][j := s[i]]
  }

  /** Fill the positions from the end of `choices` down. */
  function Shuffled<T>(s: seq<T>, choices: seq<nat>): (r: seq<T>)
    requires |choices| <= |s| && Drawn(choices)
    ensures |r| == |s|
    decreases |choices|
  {
    if |choices| <= 1 then s
    else
      var i := |choices| - 1;
      Shuffled(Swap(s, i, choices[i]), choices[..i])
  }

  method ShuffleSegments<T>(segments: array<T>, choices: seq<nat>)
    requires |choices| == segments.Length && Drawn(choices)
    modifies segments
    ensures segments[..] == Shuffled(old(segments[..]), choices)
  {
    var i := segments.Length - 1;
    assert choices[..|choices|] == choices;
    while i > 0
      invariant -1 <= i < segments.Length
      invariant Shuffled(segments[..], choices[..i + 1]) == Shuffled(old(segments[..]), choices)
    {
      var j := choices[i];
      ghost var before := segments[..];
      segments[i], segments[j] := segments[j], segments[i];
      assert segments[..] == Swap(before, i, j);
      assert choices[..i + 1][..i] == choices[..i];
      i := i - 1;
    }
  }

  lemma {:induction false} SuffixStays<T>(s: seq<T>, choices: seq<nat>)
    requires |choices| <= |s| && Drawn(choices)
    ensures Shuffled(s, choices)[|choices|..] == s[|choices|..]
    decreases |choices|
  {
    if |choices| > 1 {
      var i := |choices| - 1;
      var t := Swap(s, i, choices[i]);
      SuffixStays(t, choices[..i]);
      assert Shuffled(t, choices[..i])[i..][1..] == t[i..][1..] == s[i + 1..];
      assert Shuffled(t, choices[..i])[i..][1..] == Shuffled(s, choices)[i + 1..];
    }
  }

  lemma SwapIsPermutation<T>(s: seq<T>, i: nat, j: nat)
    requires i < |s| && j < |s|
    ensures multiset(Swap(s, i, j)) == multiset(s)
  {
  }

  /** Every run is a permutation of the input. */
  lemma {:induction false} ShuffleIsPermutation<T>(s: seq<T>, choices: seq<nat>)
    requires |choices| <= |s| && Drawn(choices)
    ensures multiset(Shuffled(s, choices)) == multiset(s)
    decreases |choices|
  {
    if |choices| > 1 {
      var i := |choices| - 1;
      SwapIsPermutation(s, i, choices[i]);
      ShuffleIsPermutation(Swap(s, i, choices[i]), choices[..i]);
    }
  }

  lemma LastChoiceShows<T>(s: seq<T>, choices: seq<nat>)
    requires 1 < |choices| <= |s| && Drawn(choices)
    ensures Shuffled(s, choices)[|choices| - 1] == s[choices[|choices| - 1]]
  {
    var i := |choices| - 1;
    var t := Swap(s, i, choices[i]);
    SuffixStays(t, choices[..i]);
    assert Shuffled(t, choices[..i])[i..][0] == t[i..][0];
  }

  /** Different choices give different results, when the elements differ. */
  lemma {:induction false} ShuffleIsInjective<T>(s: seq<T>, choices: seq<nat>, others: seq<nat>)
    requires |choices| == |others| <= |s| && Drawn(choices) && Drawn(others) && Distinct(s)
    requires Shuffled(s, choices) == Shuffled(s, others)
    ensures choices == others
    decreases |choices|
  {
    if |choices| > 1 {
      var i := |choices| - 1;
      LastChoiceShows(s, choices);
      LastChoiceShows(s, others);
      assert choices[i] == others[i];
      SwapKeepsDistinct(s, i, choices[i]);
      ShuffleIsInjective(Swap(s, i, choices[i]), choices[..i], others[..i]);
      assert choices == choices[..i] + [choices[i]] && others == others[..i] + [others[i]];
    }
  }

  lemma SwapKeepsDistinct<T>(s: seq<T>, i: nat, j: nat)
    requires i < |s| && j < |s| && Distinct(s)
    ensures Distinct(Swap(s, i, j))
  {
  }

  lemma SwapMovesToEnd<T>(s: seq<T>, n: nat, j: nat)
    requires j < n <= |s|
    ensures multiset(Swap(s, n - 1, j)[..n - 1]) == multiset(s[..n]) - multiset{s[j]}
  {
    var t := Swap(s, n - 1, j);
    assert t[..n] == Swap(s[..n], n - 1, j);
    SwapIsPermutation(s[..n], n - 1, j);
    assert t[..n] == t[..n - 1] + [s[j]];
  }

  /** The choice that brings the right element to position n - 1. */
  lemma ChooseLast<T>(s: seq<T>, target: seq<T>, n: nat) returns (j: nat)
    requires 0 < n <= |s| == |target|
    requires multiset(target[..n]) == multiset(s[..n]) && target[n..] == s[n..]
    ensures j < n
    ensures multiset(target[..n - 1]) == multiset(Swap(s, n - 1, j)[..n - 1])
    ensures target[n - 1..] == Swap(s, n - 1, j)[n - 1..]
  {
    var last := target[n - 1];
    assert target[..n] == target[..n - 1] + [last];
    assert last in multiset(target[..n]);
    assert last in s[..n];
    j :| 0 <= j < n && s[..n][j] == last;
    SwapMovesToEnd(s, n, j);
    assert target[n - 1..] == [last] + target[n..];
    assert Swap(s, n - 1, j)[n - 1..] == [last] + s[n..];
  }

  /** Every permutation of the first n elements is reached. */
  lemma {:induction false} ShuffleReaches<T>(s: seq<T>, target: seq<T>, n: nat) returns (choices: seq<nat>)
    requires n <= |s| == |target|
    requires multiset(target[..n]) == multiset(s[..n]) && target[n..] == s[n..]
    ensures |choices| == n && Drawn(choices) && Shuffled(s, choices) == target
    decreases n
  {
    if n == 0 {
      choices := [];
      assert s[0..] == s && target[0..] == target;
    } else {
      var j := ChooseLast(s, target, n);
      if n == 1 {
        choices := [0];
        assert Swap(s, 0, j) == s && s[0..] == s && target[0..] == target;
      } else {
        var rest := ShuffleReaches(Swap(s, n - 1, j), target, n - 1);
        choices := rest + [j];
        assert choices[..n - 1] == rest;
      }
    }
  }

  predicate Rearranges<T(==)>(target: seq<T>, s: seq<T>) { multiset(target) == multiset(s) }

  predicate ChoicesFor<T>(choices: seq<nat>, s: seq<T>) { |choices| == |s| && Drawn(choices) }

  /** The shuffle is a bijection from choices to orderings: with uniform choices every ordering is equally likely. */
  lemma ShuffleIsBijection<T(!new)>(s: seq<T>)
    requires Distinct(s)
    ensures forall choices :: ChoicesFor(choices, s) ==> Rearranges(Shuffled(s, choices), s)
    ensures forall target: seq<T> :: Rearranges(target, s) ==>
              exists choices: seq<nat> :: ChoicesFor(choices, s) && Shuffled(s, choices) == target
    ensures forall choices: seq<nat>, others: seq<nat> ::
              ChoicesFor(choices, s) && ChoicesFor(others, s) && Shuffled(s, choices) == Shuffled(s, others)
              ==> choices == others
  {
    forall choices | ChoicesFor(choices, s) ensures Rearranges(Shuffled(s, choices), s) {
      ShuffleIsPermutation(s, choices);
    }
    forall target: seq<T> | Rearranges(target, s)
      ensures exists choices: seq<nat> :: ChoicesFor(choices, s) && Shuffled(s, choices) == target
    {
      assert |target| == |multiset(target)| == |s|;
      assert s[..|s|] == s && target[..|s|] == target;
      var choices := ShuffleReaches(s, target, |s|);
      assert ChoicesFor(choices, s);
    }
    forall choices: seq<nat>, others: seq<nat> |
      ChoicesFor(choices, s) && ChoicesFor(others, s) && Shuffled(s, choices) == Shuffled(s, others)
      ensures choices == others
    {
      ShuffleIsInjective(s, choices, others);
    }
  }
}
