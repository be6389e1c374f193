/** The deck of memory-game.js: five random colours, each pushed twice. */
module Colors {
  import opened Draws

  /** One RGB channel: Math.floor(Math.random() * 256) lies in 0..255. */
  type Channel = c: int | 0 <= c < 256

  /** A colour, kept as its three channels rather than the `rgb(r, g, b)` string. */
  datatype Color = Color(r: Channel, g: Channel, b: Channel)

  /** The number of distinct colours drawn (the loop runs for i = 1..5). */
  const PairCount: nat := 5

  /** Math.floor(Math.random() * 256) */
  function RandomChannel(d: Draw): (c: Channel)
    ensures c as real <= d * 256.0 < c as real + 1.0
  {
    Scale(d, 256)
  }

  /** The colour drawn in the k-th iteration (counting from 0): the draws for
      r, g and b are made in that order. */
  function DrawnColor(draws: seq<Draw>, k: nat): (c: Color)
    requires 3 * k + 2 < |draws|
    ensures c.r as real <= draws[3 * k] * 256.0 < c.r as real + 1.0
    ensures c.g as real <= draws[3 * k + 1] * 256.0 < c.g as real + 1.0
    ensures c.b as real <= draws[3 * k + 2] * 256.0 < c.b as real + 1.0
  {
    Color(RandomChannel(draws[3 * k]), RandomChannel(draws[3 * k + 1]), RandomChannel(draws[3 * k + 2]))
  }

  /** Every colour can be drawn. */
  lemma EveryColorDrawable(c: Color)
    ensures exists draws: seq<Draw> :: |draws| == 3 && DrawnColor(draws, 0) == c
  {
    var draws := [DrawFor(c.r, 256), DrawFor(c.g, 256), DrawFor(c.b, 256)];
    assert DrawnColor(draws, 0) == c;
  }

  /** The deck generateRandomColors builds: entries 2k and 2k + 1 are both
      the colour of the k-th iteration. */
  function Deck(draws: seq<Draw>): (deck: seq<Color>)
    requires |draws| == 3 * PairCount
    ensures |deck| == 2 * PairCount && Paired(deck)
  {
    seq(2 * PairCount, k requires 0 <= k < 2 * PairCount => DrawnColor(draws, k / 2))
  }

  /** Each colour sits next to its twin: positions 2k and 2k + 1 hold equal values. */
  predicate Paired<T(==)>(deck: seq<T>)
  {
    |deck| % 2 == 0 && forall k :: 0 <= k < |deck| && k % 2 == 1 ==> deck[k] == deck[k - 1]
  }

  /** Every value occurs an even number of times. */
  predicate EvenCounts<T(==)>(deck: seq<T>)
  {
    forall x :: x in multiset(deck) ==> multiset(deck)[x] % 2 == 0
  }

  /** A paired deck holds every value an even number of times. */
  lemma {:induction false} PairedHasEvenCounts<T>(deck: seq<T>)
    requires Paired(deck)
    ensures EvenCounts(deck)
    decreases |deck|
  {
    if deck != [] {
      var rest := deck[2..];
      assert Paired(rest) by {
        forall k | 0 <= k < |rest| && k % 2 == 1
          ensures rest[k] == rest[k - 1]
        {
          assert deck[k + 2] == deck[k + 1];
        }
      }
      PairedHasEvenCounts(rest);
      assert deck == [deck[0], deck[0]] + rest by {
        assert deck[1] == deck[0];
      }
      forall x
        ensures multiset(deck)[x] % 2 == 0
      {
        assert multiset(deck) == multiset{deck[0], deck[0]} + multiset(rest);
      }
    }
  }

  /** Rearranging a deck keeps every count, so it keeps them even. */
  lemma PermutationKeepsEvenCounts<T>(deck: seq<T>, shuffled: seq<T>)
    requires EvenCounts(deck) && multiset(shuffled) == multiset(deck)
    ensures EvenCounts(shuffled)
  {
  }

  /** generateRandomColors(): for i = 1..5 it draws r, g and b and pushes the
      colour twice, so the deck has ten entries in five adjacent equal pairs. */
  method GenerateRandomColors(draws: seq<Draw>) returns (randColors: seq<Color>)
    requires |draws| == 3 * PairCount
    ensures randColors == Deck(draws)
    ensures |randColors| == 2 * PairCount && Paired(randColors)
    ensures EvenCounts(randColors)
  {
    randColors := [];
    var i := 1;
    while i <= PairCount
      invariant 1 <= i <= PairCount + 1
      invariant |randColors| == 2 * (i - 1)
      invariant forall k :: 0 <= k < |randColors| ==> randColors[k] == DrawnColor(draws, k / 2)
    {
      var r := RandomChannel(draws[3 * (i - 1)]);
      var g := RandomChannel(draws[3 * (i - 1) + 1]);
      var b := RandomChannel(draws[3 * (i - 1) + 2]);
      randColors := randColors + [Color(r, g, b), Color(r, g, b)];
      i := i + 1;
    }
    PairedHasEvenCounts(randColors);
  }
}
