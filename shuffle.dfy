/** The shuffle of memory-game.js: a loop over the positions from the last
    down to 1 that swaps position i with a randomly drawn partner j. */
module Shuffling {
  import opened Draws

  /** s with positions i and j exchanged (the destructuring swap). */
  function Swap<T>(s: seq<T>, i: nat, j: nat): (r: seq<T>)
    requires i < |s| && j < |s|
    ensures |r| == |s| && r[i] == s[j] && r[j] == s[i]
    ensures forall k :: 0 <= k < |s| && k != i && k != j ==> r[k] == s[k]
  {
    s[i := s[j]][j := s[i]]
  }

  /** A swap keeps every item: it is a permutation. */
  lemma SwapKeepsItems<T>(s: seq<T>, i: nat, j: nat)
    requires i < |s| && j < |s|
    ensures multiset(Swap(s, i, j)) == multiset(s)
  {
  }

  /** js gives, for every position i of an n-item array, the position it is
      swapped with; a legal partner lies in 0..i. */
  predicate Partners(js: seq<nat>, n: nat)
  {
    |js| == n && forall i :: 0 <= i < n ==> js[i] <= i
  }

  /** The array after the iterations for positions m - 1, m - 2, ..., 1,
      each swapping position i with js[i]. */
  function Passes<T>(s: seq<T>, js: seq<nat>, m: nat): (r: seq<T>)
    requires m <= |s| && Partners(js, |s|)
    ensures |r| == |s|
    decreases m
  {
    if m <= 1 then s else Passes(Swap(s, m - 1, js[m - 1]), js, m - 1)
  }

  /** The arrangement the whole loop leaves behind, with as many items as it had. */
  function Shuffled<T>(s: seq<T>, js: seq<nat>): (r: seq<T>)
    requires Partners(js, |s|)
    ensures |r| == |s|
  {
    Passes(s, js, |s|)
  }

  /** Once the iteration for position i is over, positions i.. are never
      written again: the iterations for m - 1 down to 1 leave s[m..] alone. */
  lemma {:induction false} PassesKeepSuffix<T>(s: seq<T>, js: seq<nat>, m: nat)
    requires m <= |s| && Partners(js, |s|)
    ensures Passes(s, js, m)[m..] == s[m..]
    decreases m
  {
    if m > 1 {
      var t := Swap(s, m - 1, js[m - 1]);
      PassesKeepSuffix(t, js, m - 1);
      assert Passes(t, js, m - 1)[m..] == Passes(t, js, m - 1)[m - 1..][1..];
      assert t[m..] == s[m..];
    }
  }

  /** The iterations keep every item and add none: the result is a permutation. */
  lemma {:induction false} PassesArePermutation<T>(s: seq<T>, js: seq<nat>, m: nat)
    requires m <= |s| && Partners(js, |s|)
    ensures multiset(Passes(s, js, m)) == multiset(s)
    decreases m
  {
    if m > 1 {
      SwapKeepsItems(s, m - 1, js[m - 1]);
      PassesArePermutation(Swap(s, m - 1, js[m - 1]), js, m - 1);
    }
  }

  /** The shuffle returns a permutation of its input, of the same length. */
  lemma ShuffledIsPermutation<T>(s: seq<T>, js: seq<nat>)
    requires Partners(js, |s|)
    ensures |Shuffled(s, js)| == |s|
    ensures multiset(Shuffled(s, js)) == multiset(s)
  {
    PassesArePermutation(s, js, |s|);
  }

  /** An array of zero or one items comes back unchanged: the loop body never runs. */
  lemma ShortArrayUnchanged<T>(s: seq<T>, js: seq<nat>)
    requires |s| <= 1 && Partners(js, |s|)
    ensures Shuffled(s, js) == s
  {
  }

  /** The partners memory-game.js draws: Math.floor(Math.random() * i),
      which lies in 0..i-1 (draws[i] is the draw made for position i). */
  function AsWrittenPartners(draws: seq<Draw>): (js: seq<nat>)
    ensures Partners(js, |draws|)
    ensures forall i :: 0 < i < |js| ==> js[i] < i
  {
    seq(|draws|, i requires 0 <= i < |draws| => Scale(draws[i], i))
  }

  /** The partners Fisher–Yates draws: Math.floor(Math.random() * (i + 1)),
      which lies in 0..i, as the comment in the loop says. */
  function FisherYatesPartners(draws: seq<Draw>): (js: seq<nat>)
    ensures Partners(js, |draws|)
  {
    seq(|draws|, i requires 0 <= i < |draws| => Scale(draws[i], i + 1))
  }

  /** [items[i], items[j]] = [items[j], items[i]] */
  method SwapItems<T>(items: array<T>, i: nat, j: nat)
    requires i < items.Length && j < items.Length
    modifies items
    ensures items[..] == Swap(old(items[..]), i, j)
  {
    items[i], items[j] := items[j], items[i];
  }

  /** shuffle(items) as written: swaps in place and returns the same array. */
  method Shuffle<T>(items: array<T>, draws: seq<Draw>) returns (shuffled: array<T>)
    requires |draws| == items.Length
    modifies items
    ensures shuffled == items
    ensures items[..] == Shuffled(old(items[..]), AsWrittenPartners(draws))
  {
    ghost var js := AsWrittenPartners(draws);
    ghost var result := Shuffled(items[..], js);
    var i := items.Length - 1;
    while i > 0
      invariant -1 <= i < items.Length
      invariant Passes(items[..], js, i + 1) == result
      invariant items[i + 1..] == result[i + 1..]
      decreases i
    {
      var j := Scale(draws[i], i);
      assert 0 <= j < i <= items.Length - 1;
      SwapItems(items, i, j);
      i := i - 1;
      PassesKeepSuffix(items[..], js, i + 1);
    }
    shuffled := items;
  }

  /** The Fisher–Yates shuffle the comments of memory-game.js describe:
      the partner of position i is drawn from 0..i. */
  method FisherYatesShuffle<T>(items: array<T>, draws: seq<Draw>) returns (shuffled: array<T>)
    requires |draws| == items.Length
    modifies items
    ensures shuffled == items
    ensures items[..] == Shuffled(old(items[..]), FisherYatesPartners(draws))
  {
    ghost var js := FisherYatesPartners(draws);
    ghost var result := Shuffled(items[..], js);
    var i := items.Length - 1;
    while i > 0
      invariant -1 <= i < items.Length
      invariant Passes(items[..], js, i + 1) == result
      invariant items[i + 1..] == result[i + 1..]
      decreases i
    {
      var j := Scale(draws[i], i + 1);
      assert 0 <= j <= i <= items.Length - 1;
      SwapItems(items, i, j);
      i := i - 1;
      PassesKeepSuffix(items[..], js, i + 1);
    }
    shuffled := items;
  }

  // As written, the partner of position i is drawn from 0..i-1 only
  // (Sattolo's algorithm), so the item at position i can never stay there.

  /** With distinct items, no sequence of draws leaves the last item in place. */
  lemma LastItemNeverStays<T>(s: seq<T>, draws: seq<Draw>)
    requires |s| >= 2 && |draws| == |s|
    requires forall a, b :: 0 <= a < b < |s| ==> s[a] != s[b]
    ensures Shuffled(s, AsWrittenPartners(draws))[|s| - 1] != s[|s| - 1]
  {
    var js := AsWrittenPartners(draws);
    var n := |s| - 1;
    var t := Swap(s, n, js[n]);
    PassesKeepSuffix(t, js, n);
    assert Shuffled(s, js)[n..] == t[n..];
    assert Shuffled(s, js)[n] == t[n] == s[js[n]];
  }

  /** A deck of two cards always comes back in the other order, so its own
      order is never produced. */
  lemma TwoCardDeckAlwaysSwapped<T>(x: T, y: T, draws: seq<Draw>)
    requires |draws| == 2
    ensures Shuffled([x, y], AsWrittenPartners(draws)) == [y, x]
  {
    var js := AsWrittenPartners(draws);
    assert js[1] == 0;
    assert Swap([x, y], 1, 0) == [y, x];
  }

  /** Partners past position m - 1 play no part in the iterations for m - 1 down to 1. */
  lemma {:induction false} PassesReadPrefix<T>(s: seq<T>, js: seq<nat>, ks: seq<nat>, m: nat)
    requires m <= |s| && Partners(js, |s|) && Partners(ks, |s|)
    requires js[..m] == ks[..m]
    ensures Passes(s, js, m) == Passes(s, ks, m)
    decreases m
  {
    if m > 1 {
      assert js[m - 1] == js[..m][m - 1] == ks[m - 1];
      assert js[..m - 1] == js[..m][..m - 1];
      assert ks[..m - 1] == ks[..m][..m - 1];
      PassesReadPrefix(Swap(s, m - 1, js[m - 1]), js, ks, m - 1);
    }
  }

  /** Every arrangement t of s that agrees with s from position m on is
      produced by the iterations for m - 1 down to 1, for some legal partners. */
  lemma {:induction false} PassesReachEveryOrder<T>(s: seq<T>, t: seq<T>, m: nat)
    requires m <= |s| == |t| && s[m..] == t[m..]
    requires multiset(s[..m]) == multiset(t[..m])
    ensures exists js :: Partners(js, |s|) && Passes(s, js, m) == t
    decreases m
  {
    var zeros := seq(|s|, i => 0);
    assert Partners(zeros, |s|);
    if m <= 1 {
      ShortArrangementIsUnique(s[..m], t[..m]);
      assert s == s[..m] + s[m..] && t == t[..m] + t[m..];
      assert Passes(s, zeros, m) == t;
    } else {
      var n := m - 1;
      assert t[n] in multiset(s[..m]);
      var j :| 0 <= j < m && s[..m][j] == t[n];
      var u := Swap(s, n, j);
      MovedToPosition(s, t, m, j);
      PassesReachEveryOrder(u, t, n);
      var rest: seq<nat> :| Partners(rest, |s|) && Passes(u, rest, n) == t;
      var js := rest[n := j];
      assert Partners(js, |s|);
      assert js[..n] == rest[..n];
      PassesReadPrefix(u, js, rest, n);
      assert Passes(s, js, m) == Passes(u, js, n);
    }
  }

  /** With at most one item there is only one arrangement. */
  lemma ShortArrangementIsUnique<T>(s: seq<T>, t: seq<T>)
    requires |s| <= 1 && multiset(t) == multiset(s)
    ensures t == s
  {
    assert |t| == |multiset(t)| == |multiset(s)| == |s|;
    if |s| == 1 {
      assert t[0] in multiset(s);
    }
  }

  /** Moving the item t[m - 1] from position j < m of s into position m - 1
      leaves the same items as t before position m - 1, and the same items
      from position m - 1 on. */
  lemma MovedToPosition<T>(s: seq<T>, t: seq<T>, m: nat, j: nat)
    requires 0 < m <= |s| == |t| && s[m..] == t[m..] && j < m
    requires multiset(s[..m]) == multiset(t[..m]) && s[j] == t[m - 1]
    ensures Swap(s, m - 1, j)[m - 1..] == t[m - 1..]
    ensures multiset(Swap(s, m - 1, j)[..m - 1]) == multiset(t[..m - 1])
  {
    var n := m - 1;
    var u := Swap(s, n, j);
    assert u[..m] == Swap(s[..m], n, j);
    SwapKeepsItems(s[..m], n, j);
    assert u[m..] == s[m..];
    assert u[n..] == [u[n]] + u[m..] && t[n..] == [t[n]] + t[m..];
    SameLastSamePrefix(u[..m], t[..m]);
    assert u[..m][..n] == u[..n] && t[..m][..n] == t[..n];
  }

  /** Two arrangements of the same items that agree on the last item
      arrange the same items before it. */
  lemma SameLastSamePrefix<T>(u: seq<T>, t: seq<T>)
    requires |u| == |t| > 0 && multiset(u) == multiset(t) && u[|u| - 1] == t[|t| - 1]
    ensures multiset(u[..|u| - 1]) == multiset(t[..|t| - 1])
  {
    var n := |u| - 1;
    assert u == u[..n] + [u[n]];
    assert t == t[..n] + [t[n]];
    var a, b := multiset(u[..n]), multiset(t[..n]);
    assert multiset(u) == a + multiset{u[n]};
    assert multiset(t) == b + multiset{u[n]};
    forall x
      ensures a[x] == b[x]
    {
      assert (a + multiset{u[n]})[x] == (b + multiset{u[n]})[x];
    }
    assert a == b;
  }

  /** Every arrangement of the items has legal partners that produce it. */
  lemma EveryOrderHasPartners<T>(s: seq<T>, t: seq<T>)
    requires multiset(t) == multiset(s)
    ensures exists js :: Partners(js, |s|) && Shuffled(s, js) == t
  {
    assert |t| == |multiset(t)| == |multiset(s)| == |s|;
    assert s[..|s|] == s && t[..|t|] == t;
    PassesReachEveryOrder(s, t, |s|);
  }

  /** The corrected shuffle can produce every arrangement of the items. */
  lemma EveryOrderReachable<T>(s: seq<T>, t: seq<T>)
    requires multiset(t) == multiset(s)
    ensures exists draws: seq<Draw> :: |draws| == |s| && Shuffled(s, FisherYatesPartners(draws)) == t
  {
    EveryOrderHasPartners(s, t);
    var js: seq<nat> :| Partners(js, |s|) && Shuffled(s, js) == t;
    var draws := DrawsFor(js);
    assert FisherYatesPartners(draws) == js;
    assert |draws| == |s| && Shuffled(s, FisherYatesPartners(draws)) == t;
  }

  /** No item occurs twice. */
  predicate Distinct<T(==)>(s: seq<T>)
  {
    forall a, b :: 0 <= a < b < |s| ==> s[a] != s[b]
  }

  /** A swap of distinct items leaves them distinct. */
  lemma SwapKeepsDistinct<T>(s: seq<T>, i: nat, j: nat)
    requires i < |s| && j < |s| && Distinct(s)
    ensures Distinct(Swap(s, i, j))
  {
    var r := Swap(s, i, j);
    forall a, b | 0 <= a < b < |r|
      ensures r[a] != r[b]
    {
      var a' := if a == i then j else if a == j then i else a;
      var b' := if b == i then j else if b == j then i else b;
      assert r[a] == s[a'] && r[b] == s[b'] && a' != b';
    }
  }

  /** With distinct items, the iterations for m - 1 down to 1 produce the
      same arrangement only from the same partners at positions 1..m-1. */
  lemma {:induction false} PartnersUnique<T>(s: seq<T>, js: seq<nat>, ks: seq<nat>, m: nat)
    requires m <= |s| && Partners(js, |s|) && Partners(ks, |s|) && Distinct(s)
    requires Passes(s, js, m) == Passes(s, ks, m)
    ensures forall i :: 1 <= i < m ==> js[i] == ks[i]
    decreases m
  {
    if m > 1 {
      var n := m - 1;
      var u, v := Swap(s, n, js[n]), Swap(s, n, ks[n]);
      PassesKeepSuffix(u, js, n);
      PassesKeepSuffix(v, ks, n);
      assert Passes(s, js, m)[n..][0] == u[n] == s[js[n]];
      assert Passes(s, ks, m)[n..][0] == v[n] == s[ks[n]];
      assert js[n] == ks[n];
      SwapKeepsDistinct(s, n, js[n]);
      PartnersUnique(u, js, ks, n);
    }
  }

  /** With distinct items, each arrangement comes from exactly one choice of
      partners at the positions 1..n-1 the loop visits; with
      EveryOrderHasPartners this matches arrangements one to one with partner
      choices. */
  lemma ShuffledPartnersUnique<T>(s: seq<T>, js: seq<nat>, ks: seq<nat>)
    requires Partners(js, |s|) && Partners(ks, |s|) && Distinct(s)
    requires Shuffled(s, js) == Shuffled(s, ks)
    ensures forall i :: 1 <= i < |s| ==> js[i] == ks[i]
  {
    PartnersUnique(s, js, ks, |s|);
  }

  /** Draws that make the corrected shuffle pick the partners js. */
  function DrawsFor(js: seq<nat>): (draws: seq<Draw>)
    requires Partners(js, |js|)
    ensures |draws| == |js|
    ensures forall i :: 0 <= i < |js| ==> Scale(draws[i], i + 1) == js[i]
  {
    seq(|js|, i requires 0 <= i < |js| => DrawFor(js[i], i + 1))
  }
}
