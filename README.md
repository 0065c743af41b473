# Card-matching game controller

This project models the game logic of a memory game. The root view
(`src/App.tsx`) keeps a square grid of face-down cards. Each fetched
character is put on two cards. The player turns up two cards at a time.
A pair of the same character stays up and is marked matched. Any other pair
is turned face down again after a delay. The game is won when every card of
a non-empty deck is matched.

The model has three modules:

- `Cards` (`card.dfy`) holds the records: a fetched `Character`, a deck
  `Card` (`src/interfaces/Card.ts`), and `Option` for the outcome of the
  catalog fetch.
- `Deck` (`deck.dfy`) holds the pure parts of the controller:
  - the number of pairs for a grid;
  - building the deck from the fetched characters;
  - the shuffle;
  - the three per-event rewrites of the card list (turn up, mark matched,
    turn back down);
  - the win test.

  Each comes with lemmas about what it preserves and what it reaches.
- `App` (`app.dfy`) holds the component state as `class Game`, with one
  method per event:
  - a card click;
  - a scheduled flip-back firing;
  - a grid size change;
  - the fetched batch arriving.

  The effect that re-runs the win check whenever the deck changes runs at
  the end of each method that sets the deck. `Game.Valid` is the invariant
  every event keeps:
  - at most two cards are selected;
  - whenever two are selected, the newest pending flip-back is the one
    scheduled for them (any flip-back that fires clears the selection, so
    an older, stale one can clear it first);
  - card ids are distinct;
  - the win flag agrees with the deck.

Three behaviours of the code are modelled as written:

- **Repeated characters.** Each request picks a random catalog index, so
  the batch can hold the same character twice. A character then appears on
  four cards, not two (`Deck.RepeatedCharacterShowsOnFourCards`).
- **Stale flip-backs.** A mismatch schedules a callback. The callback
  captures the deck as it was at the second click and later writes that
  deck back, with the two cards turned down. Nothing cancels it. It still
  fires after a grid change or a newly loaded deck and replaces the current
  deck with the captured one. `Game.pending` is the queue of these
  callbacks, and `Game.ResolveMismatch` states exactly which deck it writes.
- **Stale batches.** A fetch fixes how many characters it requests from the
  grid size when it starts. The size buttons stay usable while it runs, and
  whichever batch lands sets the deck. A batch requested for an earlier size
  can therefore land last and leave a deck that does not fill the current
  grid. `Game.LoadDeck` accepts a batch of any length, whatever `gridSize`
  is, so this ordering is allowed.

Nothing in the code limits a character to two cards; the model follows the
code.

## Model

| member | source | states |
|---|---|---|
| Deck.DeckSizeForGrid | src/App.tsx:34-35 | The number of requested pairs is half the cell count, rounded down as an array length: twice it is n*n for an even side and n*n-1 for an odd one |
| Deck.OfferedGridIsFilled | src/App.tsx:124-126 | For the offered sizes 4, 6 and 8, twice the pair count equals the number of cells |
| Deck.FullBatchFillsGrid | src/App.tsx:34-50 | A complete batch of PairCount(n) characters for an offered size n gives a deck of exactly n*n cards |
| Deck.BuildDeck | src/App.tsx:44-47 | Duplicating k characters yields 2k cards |
| Deck.BuildDeckAt | src/App.tsx:44-47 | Card i of the built deck has id ids[i], the character i/2 (both copies of a character are adjacent, in fetch order), and is face down and unmatched |
| Deck.BuildDeckPairs | src/App.tsx:44-47 | Every character id is on twice as many cards as it has entries in the batch |
| Deck.RepeatedCharacterShowsOnFourCards | src/App.tsx:35-47 | A character that occurs twice anywhere in the batch is on four cards of the deck |
| Deck.BuildDeckDistinct | src/App.tsx:44-47 | With distinct card ids drawn, no two built cards share an id |
| Deck.Shuffle | src/App.tsx:50 | The shuffled deck is a permutation of the input: same length, same multiset of cards |
| Deck.ShuffleReachesEveryPermutation | src/App.tsx:50 | Every permutation of the deck is the result of some sequence of random choices |
| Deck.ShuffleKeepsDistinctIds | src/App.tsx:50 | Shuffling keeps card ids distinct |
| Deck.ShuffleKeepsCount | src/App.tsx:50 | Shuffling keeps the number of cards of every character |
| Deck.LoadedDeckIsFresh | src/App.tsx:44-50 | The shuffled new deck has distinct ids and every card face down and unmatched |
| Deck.NewDeck | src/App.tsx:44-50 | The new deck has two cards per fetched character, is a permutation of the built deck, has distinct ids, and every card is face down and unmatched |
| Deck.NewDeckPairs | src/App.tsx:44-50 | In the new deck every character id is on twice as many cards as it has entries in the batch |
| Deck.FlipCard | src/App.tsx:62-64 | Only the flipped flag can change; a card is face up afterwards iff it was face up before or carries the clicked id |
| Deck.FlipCardOnlyClicked | src/App.tsx:62-64 | With distinct ids, turning up the card at position i changes that card alone |
| Deck.SelectedPair | src/App.tsx:73 | For a two-card selection, an id is selected iff it is the id of one of the two cards |
| Deck.MarkMatched | src/App.tsx:72-76 | Only the matched flag can change; a card is matched afterwards iff it was matched before or its id is in the selection |
| Deck.MarkMatchedExactlyPair | src/App.tsx:70-78 | With distinct ids, marking a selection of the cards at i and j changes exactly those two cards |
| Deck.MatchProgress | src/App.tsx:70-78 | A match of two distinct unmatched cards raises the matched count by exactly two |
| Deck.FlipBack | src/App.tsx:82-86 | Only the flipped flag can change; a card is face up afterwards iff it was face up before and its id is not in the selection |
| Deck.FlipBackExactlyPair | src/App.tsx:81-88 | With distinct ids, flipping back a selection of the cards at i and j turns down exactly those two cards |
| Deck.MismatchRoundTrip | src/App.tsx:58-89 | Turning up two face-down cards and then flipping them back restores the deck exactly |
| Deck.WonIffAllMatched | src/App.tsx:101-107 | The matched count never exceeds the deck size; the deck is won iff it is non-empty and its matched count equals its size |
| App.Game.constructor | src/App.tsx:12-16 | The initial state is a 4x4 grid with no deck, no selection, not won, and nothing scheduled |
| App.Game.CheckIfGameWon | src/App.tsx:101-107 | The win flag is set iff the deck is non-empty and every card is matched |
| App.Game.HandleCardClick | src/App.tsx:58-92 | An ignored click changes nothing. A first card is turned up and selected. A matching second card marks both cards matched and clears the selection. A non-matching second card is turned up, both cards stay selected, and a flip-back of the current deck is queued. Valid is kept |
| App.Game.ResolveMismatch | src/App.tsx:81-89 | The oldest flip-back fires: the deck becomes its captured deck with the two selected cards turned down, the selection is cleared, and the queue loses its head. Valid is kept |
| App.Game.HandleGridSizeChange | src/App.tsx:94-99 | The grid size is set and the deck, selection and win flag are reset; pending flip-backs stay pending. Valid is kept |
| App.Game.LoadDeck | src/App.tsx:31-56 | A failed batch leaves the deck and win flag unchanged. A complete batch installs the new deck, which is not won. The selection and pending flip-backs are untouched. Valid is kept |

## Left out

- The catalog requests are not modelled. Their combined outcome is the `fetched` parameter of `LoadDeck`: `None` when any request failed, otherwise the characters in request order. The random catalog index of each request is not modelled either; any batch of characters, of any length, is allowed.
- `Math.random` is not modelled.
  - Card ids are a parameter of `LoadDeck`.
  - The random sort comparator is a sequence of choices (`Shuffle`). It is proved to be able to produce every permutation. The model does not claim the browser's sort does so, or does so uniformly.
- App.Game.LoadDeck: the batch length is not tied to `gridSize`, because in the code the request size is fixed when the fetch starts (src/App.tsx:21-25, 34-35) and a batch started for an earlier size can land last (src/App.tsx:50). The model does not record which size a batch was requested for; `Deck.FullBatchFillsGrid` gives n*n cards only for a batch of `PairCount(n)` characters, that is, one requested for size n.
- App.Game.LoadDeck: requires the drawn card ids to be distinct. Random floating-point ids collide only with negligible probability, so the model assumes they do not.
- Timing is not modelled. The 1000 ms delay becomes a queue of pending flip-backs. A flip-back fires only when `ResolveMismatch` is called, and pending flip-backs fire oldest first.
- Effect scheduling is not modelled.
  - The effect that fetches a deck on a grid size change becomes the separate event `LoadDeck`.
  - Overlapping fetches can complete in any order, and any interleaving of these events is allowed.
  - The `gridSize` truthiness guard is not modelled.
  - Choosing the current grid size again empties the deck but starts no fetch, because the fetch effect depends only on `gridSize` (src/App.tsx:21-25); the deck then stays empty. The model lets `LoadDeck` happen at any point and so does not capture that no load follows such a change.
- The `loading` flag is not modelled. It is one flag, set when a fetch starts and cleared when any fetch ends (src/App.tsx:32, 54, 131-148). With overlapping fetches the grid is therefore shown and clickable while a later batch is still outstanding, and a selection made on the earlier deck survives into the later one (`LoadDeck` keeps `flippedCards`). The model allows clicks at any time.
- Rendering is not modelled: the JSX, `src/components/CharacterCard.tsx`, and the win banner.
- `toggleAudio` and the `isPlaying` flag are not modelled. They play the theme music and have no bearing on the game.
- App.Game.HandleCardClick: takes the position of the clicked card in the current deck, not a card object. A click handler built from an older render is not modelled.
- `src/interfaces/Character.ts` is not part of this model. A character is modelled by its numeric id plus a name and an image.
- The logging of a fetch error is not modelled.
