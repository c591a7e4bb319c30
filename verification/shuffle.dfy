/** `shuffleArray`: the Fisher–Yates shuffle. For `i` from the last index
    down to 1 it swaps element `i` with element `j`, where `j` is drawn
    from `0..i`. The draws are given here as an explicit sequence of
    choices `c`, with `c[i]` the index drawn at step `i`. */
module FisherYates {

  /** The two elements at `i` and `j` exchanged, as the destructuring
      assignment does. */
  function Swap<T>(s: seq<T>, i: nat, j: nat): (r: seq<T>)
    requires i < |s| && j < |s|
    ensures |r| == |s|
    ensures r[i] == s[j] && r[j] == s[i]
    ensures forall k :: 0 <= k < |s| && k != i && k != j ==> r[k] == s[k]
  {
    s[i := s[j]][j := s[i]]
  }

  /** Exchanging two elements keeps every element and its number of copies. */
  lemma SwapPermutes<T>(s: seq<T>, i: nat, j: nat)
    requires i < |s| && j < |s|
    ensures multiset(Swap(s, i, j)) == multiset(s)
  {
    var t := s[i := s[j]];
    assert multiset(t) == multiset(s) - multiset{s[i]} + multiset{s[j]};
    assert multiset(t[j := s[i]]) == multiset(t) - multiset{t[j]} + multiset{s[i]};
  }

  /** Choices a caller of `Math.random` can produce for an array of length
      `n`: step `i` draws an index in `0..i`. */
  predicate ValidChoices(n: nat, c: seq<nat>)
  {
    |c| == n && forall i :: 0 <= i < n ==> c[i] <= i
  }

  /** The array after the steps `|s| - 1` down to `k` have run. */
  function ShuffleDown<T>(s: seq<T>, c: seq<nat>, k: nat): (r: seq<T>)
    requires ValidChoices(|s|, c)
    ensures |r| == |s|
    ensures multiset(r) == multiset(s)
    decreases |s| - k
  {
    if k >= |s| then s
    else
      var before := ShuffleDown(s, c, k + 1);
      SwapPermutes(before, k, c[k]);
      Swap(before, k, c[k])
  }

  /** The array after the whole loop: the last step run is `i == 1`. */
  function Shuffle<T>(s: seq<T>, c: seq<nat>): (r: seq<T>)
    requires ValidChoices(|s|, c)
    ensures |r| == |s|
    ensures multiset(r) == multiset(s)
  {
    ShuffleDown(s, c, 1)
  }

  /** `shuffleArray(array)`: shuffles in place and returns the same array. */
  method ShuffleArray<T>(a: array<T>, c: seq<nat>) returns (b: array<T>)
    requires ValidChoices(a.Length, c)
    modifies a
    ensures b == a
    ensures a[..] == Shuffle(old(a[..]), c)
    ensures multiset(a[..]) == multiset(old(a[..]))
  {
    ghost var s := a[..];
    var i := a.Length - 1;
    while i > 0
      invariant -1 <= i < a.Length
      invariant a[..] == ShuffleDown(s, c, i + 1)
      decreases i
    {
      var j := c[i];
      ghost var before := a[..];
      a[i], a[j] := a[j], a[i];
      assert forall k :: 0 <= k < a.Length ==> a[k] == Swap(before, i, j)[k];
      assert a[..] == ShuffleDown(s, c, i);
      i := i - 1;
    }
    assert a[..] == ShuffleDown(s, c, 1);
    b := a;
  }

  predicate Distinct<T(==)>(s: seq<T>)
  {
    forall i, j :: 0 <= i < j < |s| ==> s[i] != s[j]
  }

  lemma SwapDistinct<T>(s: seq<T>, i: nat, j: nat)
    requires i < |s| && j < |s| && Distinct(s)
    ensures Distinct(Swap(s, i, j))
  {
    var r := Swap(s, i, j);
    forall x, y | 0 <= x < y < |r|
      ensures r[x] != r[y]
    {
      var x' := if x == i then j else if x == j then i else x;
      var y' := if y == i then j else if y == j then i else y;
      assert r[x] == s[x'] && r[y] == s[y'];
      assert x' != y';
      if x' > y' {
        assert s[y'] != s[x'];
      }
    }
  }

  lemma {:induction false} ShuffleDownDistinct<T>(s: seq<T>, c: seq<nat>, k: nat)
    requires ValidChoices(|s|, c) && Distinct(s)
    ensures Distinct(ShuffleDown(s, c, k))
    decreases |s| - k
  {
    if k < |s| {
      ShuffleDownDistinct(s, c, k + 1);
      SwapDistinct(ShuffleDown(s, c, k + 1), k, c[k]);
    }
  }

  /** A list without repeats is shuffled into one without repeats. */
  lemma ShuffleDistinct<T>(s: seq<T>, c: seq<nat>)
    requires ValidChoices(|s|, c) && Distinct(s)
    ensures Distinct(Shuffle(s, c))
  {
    ShuffleDownDistinct(s, c, 1);
  }

  /** The positions `0..n-1`. */
  function Range(n: nat): (r: seq<nat>)
    ensures |r| == n && forall i :: 0 <= i < n ==> r[i] == i
  {
    seq(n, i => i)
  }

  /** Where the steps down to `k` move each position of a list of length
      `n`: the shuffle of `Range(n)`. */
  function PositionsDown(n: nat, c: seq<nat>, k: nat): (p: seq<nat>)
    requires ValidChoices(n, c)
    ensures |p| == n && forall i :: 0 <= i < n ==> p[i] < n
  {
    var p := ShuffleDown(Range(n), c, k);
    assert forall i :: 0 <= i < n ==> p[i] in multiset(Range(n));
    p
  }

  /** After the steps down to `k`, slot `i` holds the element that started
      at position `PositionsDown(|s|, c, k)[i]`: the shuffle moves positions
      and never looks at the elements. */
  lemma {:induction false} ShuffleDownIndex<T>(s: seq<T>, c: seq<nat>, k: nat)
    requires ValidChoices(|s|, c)
    ensures forall i :: 0 <= i < |s| ==> ShuffleDown(s, c, k)[i] == s[PositionsDown(|s|, c, k)[i]]
    decreases |s| - k
  {
    if k < |s| {
      ShuffleDownIndex(s, c, k + 1);
      SwapIndex(s, ShuffleDown(s, c, k + 1), PositionsDown(|s|, c, k + 1), k, c[k]);
    }
  }

  /** Swapping a list read through positions `p` is reading it through the
      swapped positions. */
  lemma SwapIndex<T>(s: seq<T>, r: seq<T>, p: seq<nat>, i: nat, j: nat)
    requires |r| == |p| && i < |r| && j < |r|
    requires forall x :: 0 <= x < |p| ==> p[x] < |s| && r[x] == s[p[x]]
    ensures forall x :: 0 <= x < |p| ==> Swap(p, i, j)[x] < |s| && Swap(r, i, j)[x] == s[Swap(p, i, j)[x]]
  {
  }

  /** `Shuffle(s, c)` is `s` read in the order of `PositionsDown(|s|, c, 1)`,
      an arrangement of the positions of `s` in which none appears twice. */
  lemma ShuffleIndex<T>(s: seq<T>, c: seq<nat>)
    requires ValidChoices(|s|, c)
    ensures Distinct(PositionsDown(|s|, c, 1))
    ensures forall i :: 0 <= i < |s| ==> Shuffle(s, c)[i] == s[PositionsDown(|s|, c, 1)[i]]
  {
    ShuffleDownIndex(s, c, 1);
    assert Distinct(Range(|s|));
    ShuffleDistinct(Range(|s|), c);
  }
}
