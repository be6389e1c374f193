# Memory game: deck set-up and card faces, in Dafny

This project models the logic of `memory-game.js`, a browser memory game.
At start-up the script draws five random RGB colours and pushes each one
twice, giving a deck of ten. It shuffles the deck in place and creates one
card element per colour, in order, each with the class `hidden`. A click on
a card toggles its `visible` and `hidden` classes. The click also schedules,
through `setTimeout`, a second toggle that turns the card back.

The model is imperative, like the script:

- `Draws`: every `Math.random()` result is a value the caller supplies, a
  real in [0, 1). `Math.floor(d * n)` is `Scale(d, n)`.
- `Colors`: a colour is a triple of channels in 0..255, not the
  `rgb(r, g, b)` string. `GenerateRandomColors` is the counted loop that
  pushes each colour twice. It is proved against the function `Deck`.
- `Shuffling`: `Shuffle` is the in-place swap loop over an `array`. It is
  proved against `Shuffled`, which applies the swaps for positions n-1 down
  to 1 to a sequence, and the lemmas about `Shuffled` state what the shuffle
  guarantees. `draws[i]` is the draw made in the iteration for position `i`.
  There is no iteration for position 0, so `draws[0]` is never read: the
  script makes `items.length - 1` draws.
- `Board`: a card is a record of its colour and its two classes. The board
  is a class holding the array of cards and the list of un-flips that
  `setTimeout` has scheduled but not yet run. A timer firing is its own step,
  `RunScheduledFlip`, and any scheduled un-flip may be the one that fires.
  The invariant `Valid` says that every card has exactly one of the two
  classes, and that a card is face up exactly when an odd number of its
  un-flips are still scheduled.
- `MemoryGame`: the start-up wiring of lines 19-20.

The shuffle draws its swap partner from 0..i-1, not from 0..i as its comment
says (see "## Findings"). `Shuffle` models the loop as written.
`FisherYatesShuffle` is the corrected loop. `SetUpGame` models the start-up
as the script runs it, so it uses `Shuffle`.

## Model

| member | source | states |
|---|---|---|
| `Draws.Scale` | memory-game.js:33 | `Math.floor(d * n)` for a draw `d` in [0, 1) is a slot in 0..n-1 (0 when n is 0), and it is the floor of `d * n`. |
| `Colors.RandomChannel` | memory-game.js:11-13 | A channel `Math.floor(Math.random() * 256)` lies in 0..255 and is the floor of the draw times 256. |
| `Colors.DrawnColor` | memory-game.js:11-13 | The colour of one iteration takes r, g and b, in that order, from three consecutive draws, each channel the floor of its draw times 256. |
| `Colors.EveryColorDrawable` | memory-game.js:11-13 | Every colour with channels in 0..255 is the colour drawn by some three draws, so the channel range is exactly 0..255. |
| `Colors.Deck` | memory-game.js:8-17 | The deck has ten entries, and entries 2k and 2k+1 are equal. |
| `Colors.GenerateRandomColors` | memory-game.js:8-17 | The loop for i = 1..5 returns exactly `Deck(draws)`: ten colours in five adjacent equal pairs, in which every colour occurs an even number of times. |
| `Colors.PairedHasEvenCounts` | memory-game.js:14 | A deck of adjacent equal pairs holds every value an even number of times. |
| `Colors.PermutationKeepsEvenCounts` | memory-game.js:19 | A rearrangement of a deck with even counts still has even counts, so the shuffled deck does too. |
| `Shuffling.Swap` | memory-game.js:35 | Exchanging positions i and j keeps the length, puts the old item at j at position i and the old item at i at position j, and leaves every other position alone. |
| `Shuffling.Passes` | memory-game.js:31-36 | The iterations for positions m-1 down to 1 keep the array's length. |
| `Shuffling.Shuffled` | memory-game.js:31-36 | The arrangement the whole loop leaves, with as many items as its input; `Shuffle` and `FisherYatesShuffle` are proved to leave it in the array. |
| `Shuffling.PassesKeepSuffix` | memory-game.js:31-36 | The iterations for m-1 down to 1 never write positions m and beyond, so once the iteration for i is over, positions i.. are final. |
| `Shuffling.PassesArePermutation` | memory-game.js:35 | The swaps keep every item and add none: the multiset of items is unchanged. |
| `Shuffling.ShuffledIsPermutation` | memory-game.js:31-36 | The shuffled array has the same length and the same multiset of items as its input. |
| `Shuffling.ShortArrayUnchanged` | memory-game.js:31 | Arrays of length 0 or 1 come back unchanged, because the loop body never runs. |
| `Shuffling.AsWrittenPartners` | memory-game.js:33 | The partner `Math.floor(Math.random() * i)` of position i > 0 lies in 0..i-1, so every swap is in bounds. |
| `Shuffling.FisherYatesPartners` | memory-game.js:32 | The partner `Math.floor(Math.random() * (i + 1))` lies in 0..i, the range the comment describes. |
| `Shuffling.SwapItems` | memory-game.js:35 | The destructuring swap exchanges positions i and j of the array and changes nothing else. |
| `Shuffling.Shuffle` | memory-game.js:25-39 | `shuffle` works in place and returns the array it was given. The array then holds `Shuffled` of its old contents under the drawn partners. |
| `Shuffling.LastItemNeverStays` | memory-game.js:33 | As written, with distinct items and two or more of them, no draws leave the last item in place. |
| `Shuffling.TwoCardDeckAlwaysSwapped` | memory-game.js:33 | As written, a two-card deck `[x, y]` comes back as `[y, x]` for every draw. |
| `Shuffling.FisherYatesShuffle` | memory-game.js:26-36 | The corrected loop works in place, returns its argument, and leaves `Shuffled` of the old contents under partners drawn from 0..i. |
| `Shuffling.PassesReachEveryOrder` | memory-game.js:26-32 | Any arrangement that agrees with the array from position m on is produced by the iterations for m-1 down to 1, for some partners in range. |
| `Shuffling.EveryOrderHasPartners` | memory-game.js:26-32 | Every permutation of the input is the result of the loop for some choice of partners, each in 0..i. |
| `Shuffling.EveryOrderReachable` | memory-game.js:26-32 | Every permutation of the input is produced by the corrected shuffle for some sequence of draws. |
| `Shuffling.PartnersUnique` | memory-game.js:31-35 | With distinct items, two partner choices that give the same arrangement after the iterations for m-1 down to 1 agree at every position 1..m-1. |
| `Shuffling.ShuffledPartnersUnique` | memory-game.js:26-35 | With distinct items, each arrangement the loop produces comes from exactly one choice of partners at positions 1..n-1, so with `EveryOrderHasPartners` orders and partner choices match one to one. |
| `Board.NewCard` | memory-game.js:54 | A new card has the colour it was made from, the class `hidden` and not the class `visible`. |
| `Board.Toggled` | memory-game.js:66-69 | Toggling both classes keeps the colour, keeps "exactly one of visible/hidden", and turns a face-down card face up and back. |
| `Board.ToggledTwiceIsSame` | memory-game.js:66-77 | Two toggles restore the card. |
| `Board.GameBoard.constructor` | memory-game.js:48-62 | `createCards` makes one card per colour, in input order, each face down, with nothing scheduled, and the board invariant holds. |
| `Board.GameBoard.FlipCard` | memory-game.js:66-69 | `flipCard` toggles the card at position i and leaves every other card unchanged. |
| `Board.GameBoard.UnFlipCard` | memory-game.js:73-78 | `unFlipCard` schedules one toggle of card i and changes no card now. |
| `Board.GameBoard.RunScheduledFlip` | memory-game.js:74-77 | The timer callback toggles the card the fired un-flip names, removes that un-flip, and keeps the board invariant. |
| `Board.GameBoard.HandleCardClick` | memory-game.js:82-86 | A click toggles card i now, schedules its un-flip, and keeps the board invariant. |
| `Board.GameBoard.AllFaceDownWhenIdle` | memory-game.js:54 | Under the board invariant, when no un-flip is scheduled, every card is face down. |
| `Board.ClickAndWait` | memory-game.js:82-86 | A click followed by the un-flip it scheduled leaves every card and the schedule as they were. |
| `MemoryGame.SetUpGame` | memory-game.js:19-20 | Start-up lays out ten face-down cards whose colours are `Shuffled` of the generated deck under the as-written partners (each in 0..i-1). They are a permutation of the generated deck, every colour occurs an even number of times, and nothing is scheduled. |

## Left out

- The DOM is not modelled: the `game` element, `createElement`, the `img`
  child with its `src` and `alt`, `style.background`, `addEventListener`
  and the string handling of `classList`. A card is an abstract record.
- `Board.GameBoard.HandleCardClick` takes the position of the clicked card.
  It assumes `evt.target` is the card's `div`. A click that lands on the
  inner `img` would toggle the image's classes instead, and that case is
  not modelled.
- `Math.random` is replaced by supplied draws in [0, 1). The promise of an
  unbiased shuffle in the comment at lines 26-29 is probabilistic and is not
  stated. Two non-probabilistic facts behind it are proved. For the
  corrected loop, every order can be produced
  (`Shuffling.EveryOrderReachable`). For any partners in range, with
  distinct items, each order comes from one choice of partners only
  (`Shuffling.ShuffledPartnersUnique`). Together they match orders one to
  one with the corrected loop's partner choices.
- `setTimeout` timing and `FOUND_MATCH_WAIT_MSECS` (1000 ms) are not
  modelled. A scheduled un-flip runs only when `RunScheduledFlip` is called.
  Since any scheduled un-flip may be chosen, the browser's first-in,
  first-out order is one of the orders covered.
- `memory-game.js` has no pair matching, board lock, flip count, timer
  display or best score, so none of these is modelled.
- Floating-point rounding is not modelled: a draw is an exact real, and
  `Scale(d, n)` is the floor of the exact product `d * n`, while the script
  multiplies doubles.
- The `rgb(r, g, b)` string is not modelled; a colour is its three channels.
- `Colors.GenerateRandomColors`: it does not say that the five colours are
  distinct, because the script does not make them so. Two pairs may share a
  colour, so a colour occurs an even number of times rather than exactly
  twice.

## Findings

| source | as written | input that shows it | evidently intended | confidence | as-written member | corrected member |
|---|---|---|---|---|---|---|
| memory-game.js:33 | `Math.floor(Math.random() * i)` draws the partner of position i from 0..i-1 (Sattolo's algorithm), so the item at position i always moves | a deck of two distinct cards `[x, y]`: every draw gives `[y, x]`, and `[x, y]` never comes out | `Math.floor(Math.random() * (i + 1))`, a partner in 0..i as the comment at line 32 says, which is the Fisher–Yates shuffle named at line 28 and can produce every order | high; not executed | `Shuffling.TwoCardDeckAlwaysSwapped` | `Shuffling.EveryOrderReachable` |
