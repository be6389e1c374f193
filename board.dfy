/** The cards of memory-game.js and their face state. Each card element
    carries the class `hidden` or `visible` and the background colour it was
    created with; a click flips it face up and schedules a flip back. */
module Board {
  import opened Colors

  /** A card element: its background colour and its two face classes. */
  datatype Card = Card(color: Color, visible: bool, hidden: bool)

  /** A card as createCards makes it: class list "card hidden". */
  function NewCard(color: Color): (c: Card)
    ensures c.color == color && c.hidden && !c.visible
  {
    Card(color, false, true)
  }

  /** Exactly one of the classes `visible` and `hidden` is present. */
  predicate OneFace(c: Card)
  {
    c.visible != c.hidden
  }

  /** classList.toggle("visible"); classList.toggle("hidden") */
  function Toggled(c: Card): (r: Card)
    ensures r.color == c.color
    ensures OneFace(r) <==> OneFace(c)
    ensures OneFace(c) ==> (r.visible <==> c.hidden)
  {
    c.(visible := !c.visible, hidden := !c.hidden)
  }

  /** Toggling twice restores the card. */
  lemma ToggledTwiceIsSame(c: Card)
    ensures Toggled(Toggled(c)) == c
  {
  }

  /** The colours of a row of cards, in order. */
  function ColorsOf(cards: seq<Card>): (colors: seq<Color>)
    ensures |colors| == |cards|
    ensures forall i :: 0 <= i < |cards| ==> colors[i] == cards[i].color
  {
    seq(|cards|, i requires 0 <= i < |cards| => cards[i].color)
  }

  /** The game board: the card elements in the order they were appended, and
      the un-flips that setTimeout has scheduled and not yet run, each given
      by the position of the card it will toggle. */
  class GameBoard {
    const cards: array<Card>
    var pending: seq<nat>

    /** Every card shows exactly one face, and a card is face up exactly when
        an odd number of un-flips for it are still to run. */
    ghost predicate Valid()
      reads this, cards
    {
      && (forall t :: 0 <= t < |pending| ==> pending[t] < cards.Length)
      && (forall i :: 0 <= i < cards.Length ==> OneFace(cards[i]))
      && (forall i :: 0 <= i < cards.Length ==> (cards[i].visible <==> multiset(pending)[i] % 2 == 1))
    }

    /** createCards(colors): one card per colour, in order, each face down. */
    constructor (colors: seq<Color>)
      ensures Valid() && fresh(cards) && pending == []
      ensures cards[..] == seq(|colors|, i requires 0 <= i < |colors| => NewCard(colors[i]))
    {
      var row := new Card[|colors|];
      for k := 0 to |colors|
        invariant forall i :: 0 <= i < k ==> row[i] == NewCard(colors[i])
      {
        row[k] := NewCard(colors[k]);
      }
      cards := row;
      pending := [];
    }

    /** flipCard(card): toggles both face classes of the card at position i. */
    method FlipCard(i: nat)
      requires i < cards.Length
      modifies cards
      ensures cards[..] == old(cards[..])[i := Toggled(old(cards[i]))]
    {
      cards[i] := Toggled(cards[i]);
    }

    /** unFlipCard(card): schedules the toggle of the card at position i; the
        toggle itself happens later, in RunScheduledFlip. */
    method UnFlipCard(i: nat)
      requires i < cards.Length
      modifies this
      ensures pending == old(pending) + [i]
    {
      pending := pending + [i];
    }

    /** The callback of unFlipCard, run by the timer: toggles the card that
        the t-th scheduled un-flip names. Any pending un-flip may be the one
        that runs, so every firing order is covered. */
    method RunScheduledFlip(t: nat)
      requires Valid() && t < |pending|
      modifies this, cards
      ensures Valid()
      ensures pending == old(pending[..t] + pending[t + 1..])
      ensures cards[..] == old(cards[..])[old(pending[t]) := Toggled(old(cards[pending[t]]))]
    {
      var i := pending[t];
      ghost var before := pending;
      cards[i] := Toggled(cards[i]);
      pending := pending[..t] + pending[t + 1..];
      assert before == before[..t] + [i] + before[t + 1..];
      assert multiset(before) == multiset(pending) + multiset{i};
      forall k | 0 <= k < |pending|
        ensures pending[k] < cards.Length
      {
        if k < t {
          assert pending[k] == before[k];
        } else {
          assert pending[k] == before[k + 1];
        }
      }
    }

    /** handleCardClick(evt): flips the clicked card at position i face up
        and schedules its flip back. */
    method HandleCardClick(i: nat)
      requires Valid() && i < cards.Length
      modifies this, cards
      ensures Valid()
      ensures cards[..] == old(cards[..])[i := Toggled(old(cards[i]))]
      ensures pending == old(pending) + [i]
    {
      FlipCard(i);
      UnFlipCard(i);
      assert multiset(pending) == multiset(old(pending)) + multiset{i};
    }

    /** With no un-flip left to run, every card is face down. */
    lemma AllFaceDownWhenIdle()
      requires Valid() && pending == []
      ensures forall i :: 0 <= i < cards.Length ==> cards[i].hidden && !cards[i].visible
    {
    }
  }

  /** A click followed by the un-flip it scheduled leaves the board as it
      was: every card and every other scheduled un-flip are as before. */
  method ClickAndWait(board: GameBoard, i: nat)
    requires board.Valid() && i < board.cards.Length
    modifies board, board.cards
    ensures board.Valid()
    ensures board.cards[..] == old(board.cards[..])
    ensures board.pending == old(board.pending)
  {
    board.HandleCardClick(i);
    board.RunScheduledFlip(|board.pending| - 1);
    ToggledTwiceIsSame(old(board.cards[i]));
  }
}
