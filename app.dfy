/** The game controller of the root view (src/App.tsx): its state and the
    events that change it. Each event handler is a method; the effect that
    recomputes the win flag whenever the deck changes runs at the end of
    every handler that sets the deck. */
module App {
  import opened Cards
  import opened Deck

  /** A flip-back scheduled after a mismatch: the deck as it was when the
      second card was turned up, and the two selected cards. The callback
      works on this captured deck, not on the deck current when it fires. */
  datatype FlipBackTimer = FlipBackTimer(snapshot: seq<Card>, selection: seq<Card>) {
    predicate Valid() {
      |selection| == 2 && DistinctIds(snapshot)
      && selection[0].character.id != selection[1].character.id
    }
  }

  class Game {
    var gridSize: int
    var cards: seq<Card>
    var flippedCards: seq<Card>
    var gameWon: bool
    /** Scheduled flip-backs not yet run, oldest first. They all wait the
        same delay, so they run in the order they were scheduled; nothing
        cancels them. */
    var pending: seq<FlipBackTimer>

    /** The selection holds at most two cards, and whenever it holds two a
        flip-back that will clear it is pending; the win flag agrees with
        the deck; card ids are distinct. */
    ghost predicate Valid()
      reads this
    {
      |flippedCards| <= 2
      && gameWon == IsWon(cards)
      && DistinctIds(cards)
      && (forall t :: t in pending ==> t.Valid())
      && (|flippedCards| == 2 ==> |pending| > 0 && pending[|pending| - 1].selection == flippedCards)
    }

    /** The initial state: a 4x4 grid, no deck yet, nothing selected. */
    constructor ()
      ensures Valid()
      ensures gridSize == 4 && cards == [] && flippedCards == [] && !gameWon && pending == []
    {
      gridSize := 4;
      cards := [];
      flippedCards := [];
      gameWon := false;
      pending := [];
    }

    /** The win check: won exactly when the deck is non-empty and every card
        in it is matched. */
    method CheckIfGameWon()
      modifies this`gameWon
      ensures gameWon == IsWon(cards)
    {
      if |cards| > 0 && forall k :: 0 <= k < |cards| ==> cards[k].matched {
        gameWon := true;
      } else {
        gameWon := false;
      }
    }

    /** A click on card `i` is ignored when two cards are already selected or
        the card is face up or matched. */
    ghost predicate Ignored(i: nat)
      reads this
      requires i < |cards|
    {
      |flippedCards| == 2 || cards[i].flipped || cards[i].matched
    }

    /** A click on the card at position `i` of the deck. */
    method HandleCardClick(i: nat)
      requires Valid() && i < |cards|
      modifies this
      ensures Valid()
      ensures gridSize == old(gridSize) && |cards| == old(|cards|)
      // An ignored click changes nothing.
      ensures old(Ignored(i)) ==>
                cards == old(cards) && flippedCards == old(flippedCards) && pending == old(pending)
      // A first card is turned up, alone, and selected.
      ensures !old(Ignored(i)) && old(|flippedCards|) == 0 ==>
                cards == old(cards[i := cards[i].(flipped := true)])
                && flippedCards == [old(cards[i])] && pending == old(pending)
      // A second card of the same character: both cards are matched and the
      // selection is cleared at once.
      ensures !old(Ignored(i)) && old(|flippedCards|) == 1
              && old(flippedCards[0].character.id == cards[i].character.id) ==>
                flippedCards == [] && pending == old(pending)
                && cards[i] == old(cards[i]).(flipped := true, matched := true)
                && forall k :: 0 <= k < |cards| && k != i ==>
                     cards[k] == if old(cards[k].id == flippedCards[0].id)
                                 then old(cards[k]).(matched := true) else old(cards[k])
      // A second card of another character: it is turned up, both cards stay
      // selected, and a flip-back of the current deck is scheduled.
      ensures !old(Ignored(i)) && old(|flippedCards|) == 1
              && old(flippedCards[0].character.id != cards[i].character.id) ==>
                cards == old(cards[i := cards[i].(flipped := true)])
                && flippedCards == old(flippedCards + [cards[i]])
                && pending == old(pending) + [FlipBackTimer(cards, flippedCards)]
    {
      if |flippedCards| == 2 || cards[i].flipped || cards[i].matched {
        return;
      }
      var clickedCard := cards[i];
      var newFlippedCards := flippedCards + [clickedCard];
      var updatedCards := FlipCard(cards, clickedCard.id);
      FlipCardOnlyClicked(cards, i);
      SameIdsKeepDistinct(cards, updatedCards);

      cards := updatedCards;
      flippedCards := newFlippedCards;

      if |newFlippedCards| == 2 {
        if newFlippedCards[0].character.id == newFlippedCards[1].character.id {
          var matchedCards := MarkMatched(updatedCards, newFlippedCards);
          forall k | 0 <= k < |updatedCards| {
            SelectedPair(newFlippedCards, updatedCards[k].id);
          }
          SameIdsKeepDistinct(updatedCards, matchedCards);
          cards := matchedCards;
          flippedCards := [];
        } else {
          pending := pending + [FlipBackTimer(updatedCards, newFlippedCards)];
        }
      }
      CheckIfGameWon();
    }

    /** The oldest scheduled flip-back fires: the two cards it selected are
        turned face down in the deck it captured, that deck becomes the deck,
        and the selection is cleared. */
    method ResolveMismatch()
      requires Valid() && pending != []
      modifies this
      ensures Valid()
      ensures gridSize == old(gridSize) && flippedCards == [] && pending == old(pending[1..])
      ensures var t := old(pending[0]);
        |t.selection| == 2 && |cards| == |t.snapshot|
        && forall k :: 0 <= k < |cards| ==>
             cards[k] == if t.snapshot[k].id == t.selection[0].id || t.snapshot[k].id == t.selection[1].id
                         then t.snapshot[k].(flipped := false) else t.snapshot[k]
    {
      var t := pending[0];
      assert t in pending;
      pending := pending[1..];
      var resetCards := FlipBack(t.snapshot, t.selection);
      forall k | 0 <= k < |t.snapshot| {
        SelectedPair(t.selection, t.snapshot[k].id);
      }
      SameIdsKeepDistinct(t.snapshot, resetCards);
      cards := resetCards;
      flippedCards := [];
      CheckIfGameWon();
    }

    /** A new grid size is chosen: the deck, the selection and the win flag
        are reset. Flip-backs already scheduled stay scheduled. */
    method HandleGridSizeChange(size: int)
      requires Valid()
      modifies this
      ensures Valid()
      ensures gridSize == size && cards == [] && flippedCards == [] && !gameWon
      ensures pending == old(pending)
    {
      gridSize := size;
      cards := [];
      flippedCards := [];
      gameWon := false;
      CheckIfGameWon();
    }

    /** The batch of catalog requests completes. `fetched` is None when any
        request failed: the failure is only logged and nothing changes.
        Otherwise each fetched character becomes two cards with ids from
        `ids`, and `choices` drives the shuffle. */
    method LoadDeck(fetched: Option<seq<Character>>, ids: seq<nat>, choices: seq<nat>)
      requires Valid()
      requires fetched.Some? ==> |ids| == 2 * |fetched.value| && Distinct(ids)
      modifies this
      ensures Valid()
      ensures gridSize == old(gridSize) && flippedCards == old(flippedCards) && pending == old(pending)
      ensures fetched.None? ==> cards == old(cards) && gameWon == old(gameWon)
      ensures fetched.Some? ==> cards == NewDeck(fetched.value, ids, choices) && !gameWon
    {
      if fetched.Some? {
        var gameCards := NewDeck(fetched.value, ids, choices);
        cards := gameCards;
        CheckIfGameWon();
        assert !gameWon by {
          if |cards| > 0 { assert !cards[0].matched; }
        }
      }
    }
  }

}
