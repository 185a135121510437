/** The in-place Fisher–Yates shuffle that puts the variants in a random
    order.  The random number generator is replaced by the sequence of its
    answers, `draws`: the `t`-th call, made when `n` has come down to
    `Length - 1 - t`, answers some `k` with `0 <= k <= n`. */
module Shuffling {

  /** `draws` holds an answer for each of the `n - 1` calls a shuffle of `n`
      elements makes, each within the range the generator promises. */
  predicate Draws(draws: seq<nat>, n: nat) {
    |draws| >= n - 1 && forall t | 0 <= t < n - 1 :: draws[t] <= n - 1 - t
  }

  /** `s` with the elements at `i` and `j` exchanged. */
  function Swap<T>(s: seq<T>, i: nat, j: nat): (r: seq<T>)
    requires i < |s| && j < |s|
    ensures |r| == |s| && r[i] == s[j] && r[j] == s[i]
    ensures forall m | 0 <= m < |s| && m != i && m != j :: r[m] == s[m]
  {
    s[i := s[j]][j := s[i]]
  }

  /** The shuffle of the first `n` elements of `s`: the last of them is
      exchanged with the one the first draw names, then the first `n - 1`
      are shuffled with the remaining draws. */
  function Shuffled<T>(s: seq<T>, n: nat, draws: seq<nat>): (r: seq<T>)
    requires n <= |s| && Draws(draws, n)
    ensures |r| == |s|
    decreases n
  {
    if n <= 1 then s
    else Shuffled(Swap(s, draws[0], n - 1), n - 1, draws[1..])
  }

  /** The remaining draws after the first. */
  lemma DrawsTail(draws: seq<nat>, n: nat)
    requires n > 1 && Draws(draws, n)
    ensures Draws(draws[1..], n - 1)
  {
    forall t | 0 <= t < n - 2
      ensures draws[1..][t] <= n - 2 - t
    {
      assert draws[1..][t] == draws[t + 1];
    }
  }

  /** Swapping two elements keeps the multiset of the elements. */
  lemma SwapPermutes<T>(s: seq<T>, i: nat, j: nat)
    requires i < |s| && j < |s|
    ensures multiset(Swap(s, i, j)) == multiset(s)
  {
    var t := s[i := s[j]];
    assert multiset(t) == multiset(s) - multiset{s[i]} + multiset{s[j]};
    assert multiset(t[j := s[i]]) == multiset(t) - multiset{t[j]} + multiset{s[i]};
  }

  /** The shuffle is a permutation: it keeps every element with its number
      of occurrences. */
  lemma {:induction false} ShuffledPermutes<T>(s: seq<T>, n: nat, draws: seq<nat>)
    requires n <= |s| && Draws(draws, n)
    ensures multiset(Shuffled(s, n, draws)) == multiset(s)
    decreases n
  {
    if n > 1 {
      DrawsTail(draws, n);
      SwapPermutes(s, draws[0], n - 1);
      ShuffledPermutes(Swap(s, draws[0], n - 1), n - 1, draws[1..]);
    }
  }

  /** Only the first `n` positions take part: everything from `n` on is
      left where it is. */
  lemma {:induction false} ShuffledKeepsTail<T>(s: seq<T>, n: nat, draws: seq<nat>)
    requires n <= |s| && Draws(draws, n)
    ensures Shuffled(s, n, draws)[n..] == s[n..]
    decreases n
  {
    if n > 1 {
      var s' := Swap(s, draws[0], n - 1);
      DrawsTail(draws, n);
      ShuffledKeepsTail(s', n - 1, draws[1..]);
      assert s'[n - 1..] == [s[draws[0]]] + s[n..];
      assert s'[n..] == s[n..];
      assert Shuffled(s, n, draws) == Shuffled(s', n - 1, draws[1..]);
    }
  }

  /** A generator that always answers `n` exchanges every element with
      itself and leaves the order as it was. */
  lemma {:induction false} IdentityDraws<T>(s: seq<T>, n: nat, draws: seq<nat>)
    requires n <= |s| && |draws| >= n - 1
    requires forall t | 0 <= t < n - 1 :: draws[t] == n - 1 - t
    ensures Draws(draws, n) && Shuffled(s, n, draws) == s
    decreases n
  {
    if n > 1 {
      assert Swap(s, draws[0], n - 1) == s;
      forall t | 0 <= t < n - 2
        ensures draws[1..][t] == n - 2 - t
      {
        assert draws[1..][t] == draws[t + 1];
      }
      IdentityDraws(s, n - 1, draws[1..]);
    }
  }

  /** Shuffles `a` in place: while more than one element is left, `n` goes
      down by one and element `n` is exchanged with element `k`, the next
      draw. */
  method Shuffle<T>(a: array<T>, draws: seq<nat>)
    requires Draws(draws, a.Length)
    modifies a
    ensures a[..] == Shuffled(old(a[..]), a.Length, draws)
    ensures multiset(a[..]) == multiset(old(a[..]))
  {
    ghost var original := a[..];
    var n := a.Length;
    var t := 0;
    ShuffledKeepsTail(original, n, draws);
    while n > 1
      invariant 0 <= n <= a.Length && t == a.Length - n && t <= |draws|
      invariant a.Length > 0 ==> n >= 1
      invariant Draws(draws[t..], n)
      invariant Shuffled(a[..], n, draws[t..]) == Shuffled(original, a.Length, draws)
      // positions from `n` on already hold their final elements
      invariant a[n..] == Shuffled(original, a.Length, draws)[n..]
      decreases n
    {
      ghost var before := a[..];
      DrawsTail(draws[t..], n);
      assert draws[t..][1..] == draws[t + 1..];
      n := n - 1;
      var k := draws[t];
      assert 0 <= k <= n;
      a[k], a[n] := a[n], a[k];
      assert a[..] == Swap(before, k, n);
      t := t + 1;
      ShuffledKeepsTail(a[..], n, draws[t..]);
    }
    ShuffledPermutes(original, a.Length, draws);
  }
}
