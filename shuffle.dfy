/** `shuffle(array)`, the in-place Fisher–Yates shuffle (generate-assignments.js
    and run-draw.js carry the same copy). The value of
    `Math.floor(Math.random() * (i + 1))` at step `i` is supplied as `draws[i]`. */
module Shuffle {

  /** A random index for each of the first `n` positions (at least): `draws[i]` is in
      `0..i`, as `Math.floor(Math.random() * (i + 1))` is. Entries past the array's
      length are never read. */
  predicate ValidDraws(draws: seq<nat>, n: nat) {
    |draws| >= n && forall i :: 0 <= i < |draws| ==> draws[i] <= i
  }

  /** `s` with positions `i` and `j` exchanged. */
  function Swap<T>(s: seq<T>, i: nat, j: nat): (r: seq<T>)
    requires i < |s| && j < |s|
    ensures |r| == |s|
    ensures r[i] == s[j] && r[j] == s[i]
    ensures forall k :: 0 <= k < |s| && k != i && k != j ==> r[k] == s[k]
  {
    s[i := s[j]][j := s[i]]
  }

  /** The steps of the shuffle loop for `i`, `i - 1`, ..., `1`. */
  function ShuffleDown<T>(s: seq<T>, draws: seq<nat>, i: nat): (r: seq<T>)
    requires ValidDraws(draws, |s|) && i < |s|
    ensures |r| == |s|
    decreases i
  {
    if i == 0 then s else ShuffleDown(Swap(s, i, draws[i]), draws, i - 1)
  }

  /** The steps for `i` down to 1 rearrange the elements and lose none. */
  lemma {:induction false} ShuffleDownPermutes<T>(s: seq<T>, draws: seq<nat>, i: nat)
    requires ValidDraws(draws, |s|) && i < |s|
    ensures multiset(ShuffleDown(s, draws, i)) == multiset(s)
    decreases i
  {
    if i > 0 {
      SwapPermutes(s, i, draws[i]);
      ShuffleDownPermutes(Swap(s, i, draws[i]), draws, i - 1);
    }
  }

  /** Exchanging two positions keeps the multiset of elements. */
  lemma SwapPermutes<T>(s: seq<T>, i: nat, j: nat)
    requires i < |s| && j < |s|
    ensures multiset(Swap(s, i, j)) == multiset(s)
  {
  }

  /** What `shuffle` leaves in an array that held `s`. */
  function Shuffled<T>(s: seq<T>, draws: seq<nat>): (r: seq<T>)
    requires ValidDraws(draws, |s|)
    ensures |r| == |s| && multiset(r) == multiset(s)
    ensures |s| <= 1 ==> r == s
  {
    if |s| == 0 then s
    else
      ShuffleDownPermutes(s, draws, |s| - 1);
      ShuffleDown(s, draws, |s| - 1)
  }

  /** `shuffle`: for `i` from the last index down to 1, swap `array[i]` with `array[draws[i]]`. */
  method Shuffle<T>(a: array<T>, draws: seq<nat>)
    requires ValidDraws(draws, a.Length)
    modifies a
    ensures a[..] == Shuffled(old(a[..]), draws)
  {
    if a.Length == 0 {
      return;
    }
    ghost var goal := Shuffled(a[..], draws);
    var i := a.Length - 1;
    while i > 0
      invariant 0 <= i < a.Length
      invariant ShuffleDown(a[..], draws, i) == goal
    {
      var j := draws[i];
      ghost var before := a[..];
      var t := a[i];
      a[i] := a[j];
      a[j] := t;
      assert a[..] == Swap(before, i, j);
      i := i - 1;
    }
  }

  /** The steps for `i` down to 1 read only `draws[..i + 1]`. */
  lemma {:induction false} ShuffleDownReadsPrefix<T>(s: seq<T>, d1: seq<nat>, d2: seq<nat>, i: nat)
    requires ValidDraws(d1, |s|) && ValidDraws(d2, |s|) && i < |s|
    requires forall k :: 0 <= k <= i ==> d1[k] == d2[k]
    ensures ShuffleDown(s, d1, i) == ShuffleDown(s, d2, i)
    decreases i
  {
    if i > 0 {
      ShuffleDownReadsPrefix(Swap(s, i, d1[i]), d1, d2, i - 1);
    }
  }

  /** Draws that turn `s` into `t` in the steps for `i` down to 1, when the two agree
      after position `i` and hold the same elements up to it. */
  lemma {:induction false} ReachDown<T>(s: seq<T>, t: seq<T>, i: nat) returns (draws: seq<nat>)
    requires i < |s| == |t|
    requires multiset(s[..i + 1]) == multiset(t[..i + 1]) && s[i + 1..] == t[i + 1..]
    ensures ValidDraws(draws, |s|) && ShuffleDown(s, draws, i) == t
    decreases i
  {
    if i == 0 {
      assert s[..1] == [s[0]] && t[..1] == [t[0]];
      assert s[0] in multiset(t[..1]);
      assert s == [s[0]] + s[1..] && t == [t[0]] + t[1..];
      draws := seq(|s|, k => 0);
    } else {
      assert t[i] in multiset(s[..i + 1]) by {
        assert t[i] in t[..i + 1];
      }
      var j :| 0 <= j < i + 1 && s[..i + 1][j] == t[i];
      var s' := Swap(s, i, j);
      SwapTowardTarget(s, t, i, j);
      var d' := ReachDown(s', t, i - 1);
      draws := d'[i := j];
      ShuffleDownReadsPrefix(s', draws, d', i - 1);
    }
  }

  /** Bringing `t[i]` into position `i` leaves a shorter instance of the same problem. */
  lemma SwapTowardTarget<T>(s: seq<T>, t: seq<T>, i: nat, j: nat)
    requires j <= i < |s| == |t|
    requires multiset(s[..i + 1]) == multiset(t[..i + 1]) && s[i + 1..] == t[i + 1..]
    requires s[j] == t[i]
    ensures multiset(Swap(s, i, j)[..i]) == multiset(t[..i])
    ensures Swap(s, i, j)[i..] == t[i..]
  {
    var s' := Swap(s, i, j);
    assert s'[..i + 1] == Swap(s[..i + 1], i, j);
    SwapPermutes(s[..i + 1], i, j);
    assert s'[..i + 1] == s'[..i] + [t[i]];
    assert t[..i + 1] == t[..i] + [t[i]];
    assert multiset(s'[..i]) + multiset{t[i]} == multiset(t[..i]) + multiset{t[i]} by {
      assert multiset(s'[..i + 1]) == multiset(s'[..i]) + multiset{t[i]};
      assert multiset(t[..i + 1]) == multiset(t[..i]) + multiset{t[i]};
    }
    forall y ensures multiset(s'[..i])[y] == multiset(t[..i])[y] {
      assert (multiset(s'[..i]) + multiset{t[i]})[y] == (multiset(t[..i]) + multiset{t[i]})[y];
    }
    assert multiset(s'[..i]) == multiset(t[..i]);
    assert s'[i..] == [t[i]] + s[i + 1..];
    assert t[i..] == [t[i]] + t[i + 1..];
  }

  /** Every rearrangement of the array is the outcome of some choice of random draws:
      modelling `Math.random` by an index oracle rules out no result of the shuffle. */
  lemma EveryPermutationReachable<T>(s: seq<T>, t: seq<T>)
    requires multiset(s) == multiset(t)
    ensures exists draws :: ValidDraws(draws, |s|) && Shuffled(s, draws) == t
  {
    assert |s| == |multiset(s)| == |multiset(t)| == |t|;
    if |s| == 0 {
      assert ValidDraws([], 0) && Shuffled(s, []) == t;
    } else {
      assert s[..|s|] == s && t[..|t|] == t;
      var draws := ReachDown(s, t, |s| - 1);
      assert Shuffled(s, draws) == t;
    }
  }
}
