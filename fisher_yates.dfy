/** The Fisher–Yates shuffle behind the "Shuffle List" button. `Math.random`
    is replaced by an oracle: `picks[k]` is the index drawn at the k-th turn
    of the loop, when `currentIndex` is still `n - k`. */
module FisherYates {

  /** The draws one run consumes on a list of length `n`: one per turn, each
      below the value `currentIndex` has before it is decremented, as
      `Math.floor(Math.random() * currentIndex)` is. */
  predicate ValidPicks(n: nat, picks: seq<nat>)
  {
    |picks| == n && forall k :: 0 <= k < n ==> picks[k] < n - k
  }

  /** Dropping the first draw leaves the draws of a list one shorter. */
  lemma ValidPicksTail(n: nat, picks: seq<nat>)
    requires n > 0 && ValidPicks(n, picks)
    ensures ValidPicks(n - 1, picks[1..])
  {
    assert forall k :: 0 <= k < n - 1 ==> picks[1..][k] == picks[k + 1];
  }

  /** `[output[i], output[j]] = [output[j], output[i]]` on a list value. */
  function Swap<T>(s: seq<T>, i: nat, j: nat): (r: seq<T>)
    requires i < |s| && j < |s|
    ensures |r| == |s| && multiset(r) == multiset(s)
    ensures r[i] == s[j] && r[j] == s[i]
    ensures forall k :: 0 <= k < |s| && k != i && k != j ==> r[k] == s[k]
  {
    s[i := s[j]][j := s[i]]
  }

  /** The turns of the loop still to run while `currentIndex == n`, with
      `picks` the draws still to come. Positions at or above `n` are already
      final and stay as they are. */
  function Steps<T>(s: seq<T>, n: nat, picks: seq<nat>): (r: seq<T>)
    requires n <= |s| && ValidPicks(n, picks)
    ensures |r| == |s| && multiset(r) == multiset(s)
    ensures r[n..] == s[n..]
    decreases n
  {
    if n == 0 then s
    else
      ValidPicksTail(n, picks);
      var swapped := Swap(s, n - 1, picks[0]);
      var r := Steps(swapped, n - 1, picks[1..]);
      assert r[n..] == r[n - 1..][1..];
      r
  }

  /** The list the shuffle returns for the draws `picks`. */
  function Shuffled<T>(s: seq<T>, picks: seq<nat>): (r: seq<T>)
    requires ValidPicks(|s|, picks)
    ensures |r| == |s| && multiset(r) == multiset(s)
  {
    Steps(s, |s|, picks)
  }

  /** The inner `shuffle` of `onClickShuffle`: copy the list, then walk
      `currentIndex` down from the length to zero, swapping the slot just
      below it with a drawn slot. Every index touched is in bounds, the loop
      ends, the caller's list is never written (only the fresh copy is), and
      the result is a rearrangement of the input. */
  method Shuffle<T>(input: seq<T>, picks: seq<nat>) returns (output: seq<T>)
    requires ValidPicks(|input|, picks)
    ensures output == Shuffled(input, picks)
    ensures |output| == |input| && multiset(output) == multiset(input)
  {
    var copy := new T[|input|](i requires 0 <= i < |input| => input[i]);
    var currentIndex: nat := copy.Length;
    assert copy[..] == input && picks[0..] == picks;
    while currentIndex != 0
      invariant currentIndex <= copy.Length == |input|
      invariant ValidPicks(currentIndex, picks[|input| - currentIndex..])
      invariant Steps(copy[..], currentIndex, picks[|input| - currentIndex..]) == Shuffled(input, picks)
      decreases currentIndex
    {
      var remaining := picks[|input| - currentIndex..];
      ghost var before := copy[..];
      StepsUnfold(before, currentIndex, remaining);
      var randomIndex := remaining[0];
      currentIndex := currentIndex - 1;
      copy[currentIndex], copy[randomIndex] := copy[randomIndex], copy[currentIndex];
      assert copy[..] == Swap(before, currentIndex, randomIndex);
      assert remaining[1..] == picks[|input| - currentIndex..];
    }
    output := copy[..];
  }

  /** All entries of `s` are different. */
  predicate Distinct<T(==)>(s: seq<T>)
  {
    forall i, j :: 0 <= i < j < |s| ==> s[i] != s[j]
  }

  lemma SwapDistinct<T>(s: seq<T>, i: nat, j: nat)
    requires i < |s| && j < |s| && Distinct(s)
    ensures Distinct(Swap(s, i, j))
  {
    var r := Swap(s, i, j);
    // r[k] == s[Moved(k)], where Moved exchanges i and j
    forall a, b | 0 <= a < b < |r| ensures r[a] != r[b] {
      var a' := if a == i then j else if a == j then i else a;
      var b' := if b == i then j else if b == j then i else b;
      assert r[a] == s[a'] && r[b] == s[b'] && a' != b';
    }
  }

  /** The first turn settles position `n - 1` to the entry drawn. */
  lemma StepsTop<T>(s: seq<T>, n: nat, picks: seq<nat>)
    requires 0 < n <= |s| && ValidPicks(n, picks)
    ensures Steps(s, n, picks)[n - 1] == s[picks[0]]
  {
    ValidPicksTail(n, picks);
    var r := Steps(Swap(s, n - 1, picks[0]), n - 1, picks[1..]);
    assert r[n - 1] == r[n - 1..][0];
  }

  /** In a list without repeats, equal entries sit in the same slot. */
  lemma DistinctSlots<T>(s: seq<T>, i: nat, j: nat)
    requires Distinct(s) && i < |s| && j < |s| && s[i] == s[j]
    ensures i == j
  {
  }

  /** One turn of the loop, written out. */
  lemma StepsUnfold<T>(s: seq<T>, n: nat, picks: seq<nat>)
    requires 0 < n <= |s| && ValidPicks(n, picks)
    ensures ValidPicks(n - 1, picks[1..])
    ensures Steps(s, n, picks) == Steps(Swap(s, n - 1, picks[0]), n - 1, picks[1..])
  {
    ValidPicksTail(n, picks);
  }

  /** Two runs with the same outcome on a list without repeats drew the same
      slot first, and their remaining draws give the same outcome on the
      list after that first swap, which still has no repeats. */
  lemma SameFirstDraw<T>(s: seq<T>, n: nat, p: seq<nat>, q: seq<nat>)
    requires 0 < n <= |s| && ValidPicks(n, p) && ValidPicks(n, q) && Distinct(s)
    requires Steps(s, n, p) == Steps(s, n, q)
    ensures p[0] == q[0]
    ensures ValidPicks(n - 1, p[1..]) && ValidPicks(n - 1, q[1..])
    ensures Distinct(Swap(s, n - 1, p[0]))
    ensures Steps(Swap(s, n - 1, p[0]), n - 1, p[1..]) == Steps(Swap(s, n - 1, p[0]), n - 1, q[1..])
  {
    StepsTop(s, n, p);
    StepsTop(s, n, q);
    DistinctSlots(s, p[0], q[0]);
    StepsUnfold(s, n, p);
    StepsUnfold(s, n, q);
    SwapDistinct(s, n - 1, p[0]);
  }

  lemma SameHeadAndTail(p: seq<nat>, q: seq<nat>)
    requires |p| > 0 && |q| > 0 && p[0] == q[0] && p[1..] == q[1..]
    ensures p == q
  {
    assert p == [p[0]] + p[1..];
    assert q == [q[0]] + q[1..];
  }

  /** On a list without repeats, two different runs of draws never give the
      same result: each outcome has exactly one run that produces it. */
  lemma {:induction false} StepsInjective<T>(s: seq<T>, n: nat, p: seq<nat>, q: seq<nat>)
    requires n <= |s| && ValidPicks(n, p) && ValidPicks(n, q) && Distinct(s)
    requires Steps(s, n, p) == Steps(s, n, q)
    ensures p == q
    decreases n
  {
    if n == 0 {
      assert p == [] && q == [];
    } else {
      SameFirstDraw(s, n, p, q);
      var swapped := Swap(s, n - 1, p[0]);
      StepsInjective(swapped, n - 1, p[1..], q[1..]);
      SameHeadAndTail(p, q);
    }
  }

  /** A position of `x` in `s`. */
  function IndexOf<T(==)>(s: seq<T>, x: T): (i: nat)
    requires x in s
    ensures i < |s| && s[i] == x
  {
    if s[0] == x then 0 else 1 + IndexOf(s[1..], x)
  }

  /** Drawing slot `j`, which holds what `t` needs at `n - 1`, leaves a list
      whose first `n - 1` slots hold the same entries as those of `t`, and
      whose slots from `n - 1` on agree with `t`. */
  lemma SwapTowards<T>(s: seq<T>, t: seq<T>, n: nat, j: nat)
    requires 0 < n <= |s| == |t| && j < n && s[j] == t[n - 1]
    requires multiset(s[..n]) == multiset(t[..n]) && s[n..] == t[n..]
    ensures multiset(Swap(s, n - 1, j)[..n - 1]) == multiset(t[..n - 1])
    ensures Swap(s, n - 1, j)[n - 1..] == t[n - 1..]
  {
    var swapped := Swap(s, n - 1, j);
    SwapPrefix(s, n, j);
    MultisetDropLast(swapped[..n], t[..n]);
    assert swapped[..n][..n - 1] == swapped[..n - 1];
    assert t[..n][..n - 1] == t[..n - 1];
    assert swapped[n - 1..] == [t[n - 1]] + s[n..];
    assert t[n - 1..] == [t[n - 1]] + t[n..];
  }

  /** A swap inside the first `n` slots keeps the entries of those slots. */
  lemma SwapPrefix<T>(s: seq<T>, n: nat, j: nat)
    requires 0 < n <= |s| && j < n
    ensures multiset(Swap(s, n - 1, j)[..n]) == multiset(s[..n])
  {
    assert Swap(s, n - 1, j)[..n] == Swap(s[..n], n - 1, j);
  }

  /** Two lists with the same entries and the same last entry have the same
      entries before it. */
  lemma MultisetDropLast<T>(a: seq<T>, b: seq<T>)
    requires |a| == |b| > 0 && a[|a| - 1] == b[|b| - 1] && multiset(a) == multiset(b)
    ensures multiset(a[..|a| - 1]) == multiset(b[..|b| - 1])
  {
    var x := a[|a| - 1];
    assert a == a[..|a| - 1] + [x];
    assert b == b[..|b| - 1] + [x];
    assert multiset(a[..|a| - 1]) == multiset(a) - multiset{x};
    assert multiset(b[..|b| - 1]) == multiset(b) - multiset{x};
  }

  /** The entry `t` needs at position `n - 1` is among the first `n` slots of `s`. */
  lemma NeededEntryAvailable<T>(s: seq<T>, t: seq<T>, n: nat)
    requires 0 < n <= |s| == |t| && multiset(s[..n]) == multiset(t[..n])
    ensures t[n - 1] in s[..n]
  {
    assert t[n - 1] in multiset(t[..n]);
  }

  /** A draw below `n` followed by the draws of a list one shorter is a valid
      run for a list of length `n`. */
  lemma ValidPicksCons(n: nat, j: nat, rest: seq<nat>)
    requires 0 < n && j < n && ValidPicks(n - 1, rest)
    ensures ValidPicks(n, [j] + rest) && ([j] + rest)[0] == j && ([j] + rest)[1..] == rest
  {
    var picks := [j] + rest;
    assert picks[1..] == rest;
    forall k | 0 <= k < n ensures picks[k] < n - k {
      if k > 0 { assert picks[k] == rest[k - 1]; }
    }
  }

  /** Draws that turn `s` into `t` when their first `n` slots hold the same
      entries and the rest already agree: at each turn, draw the slot that
      holds what `t` needs at position `n - 1`. */
  function PicksFor<T(==)>(s: seq<T>, t: seq<T>, n: nat): (picks: seq<nat>)
    requires n <= |s| == |t|
    requires multiset(s[..n]) == multiset(t[..n]) && s[n..] == t[n..]
    ensures ValidPicks(n, picks) && Steps(s, n, picks) == t
    decreases n
  {
    if n == 0 then
      assert s == s[0..] && t == t[0..];
      []
    else
      NeededEntryAvailable(s, t, n);
      var j := IndexOf(s[..n], t[n - 1]);
      SwapTowards(s, t, n, j);
      var rest := PicksFor(Swap(s, n - 1, j), t, n - 1);
      ValidPicksCons(n, j, rest);
      StepsUnfold(s, n, [j] + rest);
      [j] + rest
  }

  /** Every rearrangement of the list is the outcome of some run of draws. */
  lemma ShuffleReachesEveryPermutation<T>(s: seq<T>, t: seq<T>)
    requires multiset(s) == multiset(t)
    ensures exists picks :: ValidPicks(|s|, picks) && Shuffled(s, picks) == t
  {
    assert |s| == |multiset(s)| == |t|;
    assert s[..|s|] == s && t[..|t|] == t;
    var picks := PicksFor(s, t, |s|);
    assert ValidPicks(|s|, picks) && Shuffled(s, picks) == t;
  }
}
