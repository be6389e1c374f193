/** Start-up of memory-game.js: build the paired deck, shuffle it and lay
    out one face-down card per colour. */
module MemoryGame {
  import opened Draws
  import opened Colors
  import opened Shuffling
  import opened Board

  /** const colors = shuffle(generateRandomColors()); createCards(colors);
      with the shuffle as written, whose partner of position i lies in 0..i-1. */
  method SetUpGame(colorDraws: seq<Draw>, shuffleDraws: seq<Draw>) returns (board: GameBoard)
    requires |colorDraws| == 3 * PairCount && |shuffleDraws| == 2 * PairCount
    ensures fresh(board) && fresh(board.cards)
    ensures board.Valid() && board.pending == []
    ensures ColorsOf(board.cards[..]) == Shuffled(Deck(colorDraws), AsWrittenPartners(shuffleDraws))
    ensures board.cards.Length == 2 * PairCount
    ensures multiset(ColorsOf(board.cards[..])) == multiset(Deck(colorDraws))
    ensures EvenCounts(ColorsOf(board.cards[..]))
    ensures forall i :: 0 <= i < board.cards.Length ==> board.cards[i].hidden && !board.cards[i].visible
  {
    var randColors := GenerateRandomColors(colorDraws);
    var items := new Color[|randColors|](i requires 0 <= i < |randColors| => randColors[i]);
    assert items[..] == randColors;
    var colors := Shuffle(items, shuffleDraws);
    board := new GameBoard(colors[..]);
    ghost var dealt := ColorsOf(board.cards[..]);
    assert dealt == colors[..];
    ShuffledIsPermutation(randColors, AsWrittenPartners(shuffleDraws));
    PermutationKeepsEvenCounts(randColors, dealt);
  }
}
