/** The pure transformations of the game controller (src/App.tsx): building
    and shuffling the deck, the three per-event rewrites of the card list,
    and the win test. */
module Deck {
  import opened Cards

  /** No two cards of the list share a card id. */
  predicate DistinctIds(cards: seq<Card>) {
    forall i, j :: 0 <= i < j < |cards| ==> cards[i].id != cards[j].id
  }

  /** No two entries of the list are equal. */
  predicate Distinct(ids: seq<nat>) {
    forall i, j :: 0 <= i < j < |ids| ==> ids[i] != ids[j]
  }

  // ---------------------------------------------------------------------------
  // Deck construction
  // ---------------------------------------------------------------------------

  /** The number of characters requested for a grid of side `gridSize`:
      half of its cells, truncated as an array length is. */
  function PairCount(gridSize: int): (pairs: nat) {
    var cells: nat := gridSize * gridSize;
    cells / 2
  }

  /** An even grid side gives exactly one pair per two cells; an odd one
      leaves one cell without a card. */
  lemma DeckSizeForGrid(n: int)
    ensures 2 * PairCount(n) == if n % 2 == 0 then n * n else n * n - 1
  {
    var q := n / 2;
    if n % 2 == 0 {
      assert n * n == 2 * (2 * q * q) by {
        assert n == 2 * q;
      }
    } else {
      assert n * n == 2 * (2 * q * q + 2 * q) + 1 by {
        assert n == 2 * q + 1;
      }
    }
  }

  /** For the grid sizes the game offers, the deck fills the grid. */
  lemma OfferedGridIsFilled(n: int)
    requires n == 4 || n == 6 || n == 8
    ensures 2 * PairCount(n) == n * n
  {
    DeckSizeForGrid(n);
  }

  /** Each fetched character becomes two fresh cards, in fetch order; card
      `i` takes its id from `ids[i]`. */
  function BuildDeck(chars: seq<Character>, ids: seq<nat>): (deck: seq<Card>)
    requires |ids| == 2 * |chars|
    ensures |deck| == 2 * |chars|
    decreases |chars|
  {
    if chars == [] then []
    else
      [Card(ids[0], chars[0], false, false), Card(ids[1], chars[0], false, false)]
      + BuildDeck(chars[1..], ids[2..])
  }

  /** Cards `2c` and `2c + 1` of the built deck are the two cards of
      character `c`, face down and unmatched, with their own ids. */
  lemma {:induction false} BuildDeckAt(chars: seq<Character>, ids: seq<nat>, i: nat)
    requires |ids| == 2 * |chars| && i < 2 * |chars|
    ensures BuildDeck(chars, ids)[i] == Card(ids[i], chars[i / 2], false, false)
    decreases i
  {
    if i >= 2 {
      BuildDeckAt(chars[1..], ids[2..], i - 2);
    }
  }

  /** The number of cards that show the character with id `cid`. */
  function CountCharacter(cards: seq<Card>, cid: int): (count: nat) {
    if cards == [] then 0
    else (if cards[0].character.id == cid then 1 else 0) + CountCharacter(cards[1..], cid)
  }

  /** The number of fetched characters whose id is `cid`. */
  function Occurrences(chars: seq<Character>, cid: int): (count: nat) {
    if chars == [] then 0
    else (if chars[0].id == cid then 1 else 0) + Occurrences(chars[1..], cid)
  }

  /** Every fetch of a character contributes exactly two cards of it. */
  lemma {:induction false} BuildDeckPairs(chars: seq<Character>, ids: seq<nat>, cid: int)
    requires |ids| == 2 * |chars|
    ensures CountCharacter(BuildDeck(chars, ids), cid) == 2 * Occurrences(chars, cid)
  {
    if chars != [] {
      var deck := BuildDeck(chars, ids);
      var rest := BuildDeck(chars[1..], ids[2..]);
      assert deck[1..][1..] == rest;
      BuildDeckPairs(chars[1..], ids[2..], cid);
    }
  }

  /** Character ids are drawn at random and may repeat: a character fetched
      twice, anywhere in the batch, shows on four cards, not two. */
  lemma RepeatedCharacterShowsOnFourCards(chars: seq<Character>, ids: seq<nat>, cid: int)
    requires |ids| == 2 * |chars| && Occurrences(chars, cid) == 2
    ensures CountCharacter(BuildDeck(chars, ids), cid) == 4
  {
    BuildDeckPairs(chars, ids, cid);
  }

  /** Distinct card ids give a deck with distinct card ids. */
  lemma BuildDeckDistinct(chars: seq<Character>, ids: seq<nat>)
    requires |ids| == 2 * |chars| && Distinct(ids)
    ensures DistinctIds(BuildDeck(chars, ids))
  {
    var deck := BuildDeck(chars, ids);
    forall i, j | 0 <= i < j < |deck| ensures deck[i].id != deck[j].id {
      BuildDeckAt(chars, ids, i);
      BuildDeckAt(chars, ids, j);
    }
  }

  // ---------------------------------------------------------------------------
  // Shuffle
  // ---------------------------------------------------------------------------

  /** `s` without its element at position `k`. */
  function Remove<T>(s: seq<T>, k: nat): (r: seq<T>)
    requires k < |s|
    ensures |r| == |s| - 1
    ensures forall m :: 0 <= m < |r| ==> r[m] == if m < k then s[m] else s[m + 1]
    ensures multiset(r) + multiset{s[k]} == multiset(s)
  {
    assert s == s[..k] + [s[k]] + s[k + 1..];
    s[..k] + s[k + 1..]
  }

  /** The choices left after the first one is used. */
  function Later(choices: seq<nat>): (rest: seq<nat>) {
    if choices == [] then [] else choices[1..]
  }

  /** A random reordering of the deck. The random source is the sequence
      `choices`: each entry picks the next card among those not yet placed
      (a missing entry picks the first). */
  function Shuffle<T>(deck: seq<T>, choices: seq<nat>): (r: seq<T>)
    ensures |r| == |deck|
    ensures multiset(r) == multiset(deck)
    decreases |deck|
  {
    if deck == [] then []
    else
      var k := if choices == [] then 0 else choices[0] % |deck|;
      [deck[k]] + Shuffle(Remove(deck, k), Later(choices))
  }

  /** Every reordering of the deck is the outcome of some random choices, so
      `Shuffle` stands for an arbitrary permutation. */
  lemma {:induction false} ShuffleReachesEveryPermutation<T>(deck: seq<T>, target: seq<T>)
    requires multiset(deck) == multiset(target)
    ensures exists choices :: Shuffle(deck, choices) == target
    decreases |deck|
  {
    if deck == [] {
      assert |target| == |multiset(target)| == 0;
      assert Shuffle(deck, []) == target;
    } else {
      var k: nat :| k < |deck| && deck[k] == target[0] by {
        assert |target| == |multiset(target)| == |deck| > 0;
        assert target[0] in multiset(target);
      }
      var rest := Remove(deck, k);
      assert multiset(rest) == multiset(target[1..]) by {
        RemoveFirstOfPermutation(deck, target, k);
      }
      ShuffleReachesEveryPermutation(rest, target[1..]);
      var later :| Shuffle(rest, later) == target[1..];
      ShuffleFirstChoice(deck, target, k, later);
    }
  }

  /** A first choice `k` that picks the first card of `target`, followed by
      choices that give the rest of `target`, gives `target`. */
  lemma ShuffleFirstChoice<T>(deck: seq<T>, target: seq<T>, k: nat, later: seq<nat>)
    requires k < |deck| && 0 < |target| && deck[k] == target[0]
    requires Shuffle(Remove(deck, k), later) == target[1..]
    ensures Shuffle(deck, [k] + later) == target
  {
    var choices := [k] + later;
    ModOfSmaller(k, |deck|);
    assert Later(choices) == later;
    assert target == [target[0]] + target[1..];
  }

  /** A natural below the modulus is its own remainder. Kept apart so that
      the division fact is proved without the unfolded shuffle in scope. */
  lemma ModOfSmaller(k: nat, n: nat)
    requires k < n
    ensures k % n == k
  {
  }

  /** Taking the first card of a reordering out of both lists leaves two
      lists that are still reorderings of each other. */
  lemma RemoveFirstOfPermutation<T>(deck: seq<T>, target: seq<T>, k: nat)
    requires multiset(deck) == multiset(target)
    requires 0 < |target| && k < |deck| && deck[k] == target[0]
    ensures multiset(Remove(deck, k)) == multiset(target[1..])
  {
    assert target == [target[0]] + target[1..];
    assert multiset(target) == multiset{target[0]} + multiset(target[1..]);
    assert multiset(Remove(deck, k)) == multiset(deck) - multiset{deck[k]};
    assert multiset(target[1..]) == multiset(target) - multiset{target[0]};
  }

  /** Removing a card keeps the ids distinct, and the removed id is gone. */
  lemma RemoveKeepsDistinctIds(deck: seq<Card>, k: nat)
    requires k < |deck| && DistinctIds(deck)
    ensures DistinctIds(Remove(deck, k))
    ensures forall m :: 0 <= m < |deck| - 1 ==> Remove(deck, k)[m].id != deck[k].id
  {
  }

  /** Shuffling keeps the card ids distinct. */
  lemma {:induction false} ShuffleKeepsDistinctIds(deck: seq<Card>, choices: seq<nat>)
    requires DistinctIds(deck)
    ensures DistinctIds(Shuffle(deck, choices))
    decreases |deck|
  {
    if deck != [] {
      var k := if choices == [] then 0 else choices[0] % |deck|;
      var rest := Remove(deck, k);
      RemoveKeepsDistinctIds(deck, k);
      ShuffleKeepsDistinctIds(rest, Later(choices));
      var s := Shuffle(rest, Later(choices));
      forall j | 0 <= j < |s| ensures s[j].id != deck[k].id {
        RemovedIdIsGone(deck, k, s, j);
      }
      assert Shuffle(deck, choices) == [deck[k]] + s;
      PrependKeepsDistinctIds(deck[k], s);
    }
  }

  /** A reordering of the deck without card `k` holds no card with the id of
      card `k`. */
  lemma RemovedIdIsGone(deck: seq<Card>, k: nat, s: seq<Card>, j: nat)
    requires DistinctIds(deck) && k < |deck| && j < |s|
    requires multiset(s) == multiset(Remove(deck, k))
    ensures s[j].id != deck[k].id
  {
    var rest := Remove(deck, k);
    assert s[j] in multiset(s);
    assert s[j] in rest;
    var m :| 0 <= m < |rest| && rest[m] == s[j];
    RemoveKeepsDistinctIds(deck, k);
  }

  /** A card whose id is new to a list with distinct ids can be put in front. */
  lemma PrependKeepsDistinctIds(c: Card, s: seq<Card>)
    requires DistinctIds(s)
    requires forall j :: 0 <= j < |s| ==> s[j].id != c.id
    ensures DistinctIds([c] + s)
  {
    var r := [c] + s;
    forall i, j | 0 <= i < j < |r| ensures r[i].id != r[j].id {
      assert r[j] == s[j - 1];
      if i > 0 { assert r[i] == s[i - 1]; }
    }
  }

  /** Removing a card lowers the count of its character by one and leaves
      the other counts alone. */
  lemma {:induction false} CountCharacterRemove(s: seq<Card>, k: nat, cid: int)
    requires k < |s|
    ensures CountCharacter(Remove(s, k), cid) + (if s[k].character.id == cid then 1 else 0)
            == CountCharacter(s, cid)
    decreases k
  {
    if k > 0 {
      var tail := Remove(s[1..], k - 1);
      assert Remove(s, k) == [s[0]] + tail;
      assert ([s[0]] + tail)[1..] == tail;
      CountCharacterRemove(s[1..], k - 1, cid);
    } else {
      assert Remove(s, 0) == s[1..];
    }
  }

  /** Shuffling keeps the number of cards of every character. */
  lemma {:induction false} ShuffleKeepsCount(deck: seq<Card>, choices: seq<nat>, cid: int)
    ensures CountCharacter(Shuffle(deck, choices), cid) == CountCharacter(deck, cid)
    decreases |deck|
  {
    if deck != [] {
      var k := if choices == [] then 0 else choices[0] % |deck|;
      var rest := Remove(deck, k);
      var s := Shuffle(rest, Later(choices));
      ShuffleKeepsCount(rest, Later(choices), cid);
      CountCharacterRemove(deck, k, cid);
      assert Shuffle(deck, choices) == [deck[k]] + s;
      assert ([deck[k]] + s)[1..] == s;
    }
  }

  /** A freshly loaded deck has distinct card ids and only face-down,
      unmatched cards. */
  lemma LoadedDeckIsFresh(chars: seq<Character>, ids: seq<nat>, choices: seq<nat>)
    requires |ids| == 2 * |chars| && Distinct(ids)
    ensures var r := Shuffle(BuildDeck(chars, ids), choices);
      DistinctIds(r) && forall k :: 0 <= k < |r| ==> !r[k].flipped && !r[k].matched
  {
    var deck := BuildDeck(chars, ids);
    var r := Shuffle(deck, choices);
    BuildDeckDistinct(chars, ids);
    ShuffleKeepsDistinctIds(deck, choices);
    forall k | 0 <= k < |r| ensures !r[k].flipped && !r[k].matched {
      assert r[k] in multiset(deck);
      var m :| 0 <= m < |deck| && deck[m] == r[k];
      BuildDeckAt(chars, ids, m);
    }
  }

  /** The deck a successful fetch produces: two fresh cards per fetched
      character, shuffled. */
  function NewDeck(chars: seq<Character>, ids: seq<nat>, choices: seq<nat>): (deck: seq<Card>)
    requires |ids| == 2 * |chars| && Distinct(ids)
    ensures |deck| == 2 * |chars| && DistinctIds(deck)
    ensures multiset(deck) == multiset(BuildDeck(chars, ids))
    ensures forall k :: 0 <= k < |deck| ==> !deck[k].flipped && !deck[k].matched
  {
    LoadedDeckIsFresh(chars, ids, choices);
    Shuffle(BuildDeck(chars, ids), choices)
  }

  /** In a new deck every fetch of a character gives two cards of it; a
      character fetched twice shows on four cards. */
  lemma NewDeckPairs(chars: seq<Character>, ids: seq<nat>, choices: seq<nat>, cid: int)
    requires |ids| == 2 * |chars| && Distinct(ids)
    ensures CountCharacter(NewDeck(chars, ids, choices), cid) == 2 * Occurrences(chars, cid)
  {
    BuildDeckPairs(chars, ids, cid);
    ShuffleKeepsCount(BuildDeck(chars, ids), choices, cid);
  }

  /** A full batch of fetches for one of the offered grid sizes gives a deck
      that fills the grid. */
  lemma FullBatchFillsGrid(n: int, chars: seq<Character>, ids: seq<nat>, choices: seq<nat>)
    requires n == 4 || n == 6 || n == 8
    requires |chars| == PairCount(n) && |ids| == 2 * |chars| && Distinct(ids)
    ensures |NewDeck(chars, ids, choices)| == n * n
  {
    OfferedGridIsFilled(n);
  }

  // ---------------------------------------------------------------------------
  // Per-event rewrites of the card list
  // ---------------------------------------------------------------------------

  /** Some card of the selection has card id `id`. */
  predicate Selected(selection: seq<Card>, id: nat) {
    exists j :: 0 <= j < |selection| && selection[j].id == id
  }

  /** Turns face up every card whose id is `id`. */
  function FlipCard(cards: seq<Card>, id: nat): (r: seq<Card>)
    ensures |r| == |cards|
    ensures forall k :: 0 <= k < |r| ==> r[k].(flipped := cards[k].flipped) == cards[k]
    ensures forall k :: 0 <= k < |r| ==> r[k].flipped == (cards[k].flipped || cards[k].id == id)
  {
    seq(|cards|, k requires 0 <= k < |cards| =>
      if cards[k].id == id then cards[k].(flipped := true) else cards[k])
  }

  /** Marks as matched every card that belongs to the selection. */
  function MarkMatched(cards: seq<Card>, selection: seq<Card>): (r: seq<Card>)
    ensures |r| == |cards|
    ensures forall k :: 0 <= k < |r| ==> r[k].(matched := cards[k].matched) == cards[k]
    ensures forall k :: 0 <= k < |r| ==>
              r[k].matched == (cards[k].matched || Selected(selection, cards[k].id))
  {
    seq(|cards|, k requires 0 <= k < |cards| =>
      if Selected(selection, cards[k].id) then cards[k].(matched := true) else cards[k])
  }

  /** Turns face down every card that belongs to the selection. */
  function FlipBack(cards: seq<Card>, selection: seq<Card>): (r: seq<Card>)
    ensures |r| == |cards|
    ensures forall k :: 0 <= k < |r| ==> r[k].(flipped := cards[k].flipped) == cards[k]
    ensures forall k :: 0 <= k < |r| ==>
              r[k].flipped == (cards[k].flipped && !Selected(selection, cards[k].id))
  {
    seq(|cards|, k requires 0 <= k < |cards| =>
      if Selected(selection, cards[k].id) then cards[k].(flipped := false) else cards[k])
  }

  /** Rewrites that leave every card id in place keep the ids distinct. */
  lemma SameIdsKeepDistinct(cards: seq<Card>, r: seq<Card>)
    requires DistinctIds(cards) && |r| == |cards|
    requires forall k :: 0 <= k < |r| ==> r[k].id == cards[k].id
    ensures DistinctIds(r)
  {
    forall i, j | 0 <= i < j < |r| ensures r[i].id != r[j].id {
      assert r[i].id == cards[i].id && r[j].id == cards[j].id;
    }
  }

  /** With distinct card ids, flipping by the id of card `i` turns up card
      `i` and nothing else. */
  lemma FlipCardOnlyClicked(cards: seq<Card>, i: nat)
    requires DistinctIds(cards) && i < |cards|
    ensures FlipCard(cards, cards[i].id) == cards[i := cards[i].(flipped := true)]
  {
    var r := FlipCard(cards, cards[i].id);
    forall k | 0 <= k < |r| ensures r[k] == cards[i := cards[i].(flipped := true)][k] {
      if k != i {
        assert cards[k].id != cards[i].id by {
          if k < i { assert cards[k].id != cards[i].id; } else { assert cards[i].id != cards[k].id; }
        }
      }
    }
  }

  /** A selection of two cards is the two card ids it holds. */
  lemma SelectedPair(selection: seq<Card>, id: nat)
    requires |selection| == 2
    ensures Selected(selection, id) <==> id == selection[0].id || id == selection[1].id
  {
  }

  /** With distinct card ids, a match marks exactly the two selected cards. */
  lemma MarkMatchedExactlyPair(cards: seq<Card>, selection: seq<Card>, i: nat, j: nat)
    requires DistinctIds(cards) && i < |cards| && j < |cards|
    requires |selection| == 2 && selection[0].id == cards[i].id && selection[1].id == cards[j].id
    ensures MarkMatched(cards, selection)
            == cards[i := cards[i].(matched := true)][j := cards[j].(matched := true)]
  {
    var r := MarkMatched(cards, selection);
    var e := cards[i := cards[i].(matched := true)][j := cards[j].(matched := true)];
    forall k | 0 <= k < |r| ensures r[k] == e[k] {
      SelectedPair(selection, cards[k].id);
      assert Selected(selection, cards[k].id) <==> k == i || k == j by {
        if k != i { assert cards[k].id != cards[i].id by { IdsDiffer(cards, k, i); } }
        if k != j { assert cards[k].id != cards[j].id by { IdsDiffer(cards, k, j); } }
      }
    }
  }

  /** With distinct card ids, a flip-back turns down exactly the two
      selected cards. */
  lemma FlipBackExactlyPair(cards: seq<Card>, selection: seq<Card>, i: nat, j: nat)
    requires DistinctIds(cards) && i < |cards| && j < |cards|
    requires |selection| == 2 && selection[0].id == cards[i].id && selection[1].id == cards[j].id
    ensures FlipBack(cards, selection)
            == cards[i := cards[i].(flipped := false)][j := cards[j].(flipped := false)]
  {
    var r := FlipBack(cards, selection);
    var e := cards[i := cards[i].(flipped := false)][j := cards[j].(flipped := false)];
    forall k | 0 <= k < |r| ensures r[k] == e[k] {
      SelectedPair(selection, cards[k].id);
      assert Selected(selection, cards[k].id) <==> k == i || k == j by {
        if k != i { assert cards[k].id != cards[i].id by { IdsDiffer(cards, k, i); } }
        if k != j { assert cards[k].id != cards[j].id by { IdsDiffer(cards, k, j); } }
      }
    }
  }

  /** Two different positions of a list with distinct ids hold different ids. */
  lemma IdsDiffer(cards: seq<Card>, a: nat, b: nat)
    requires DistinctIds(cards) && a < |cards| && b < |cards| && a != b
    ensures cards[a].id != cards[b].id
  {
    if a > b { assert cards[b].id != cards[a].id; }
  }

  /** Turning up two face-down cards and then flipping the pair back down
      restores the deck: a mismatch leaves no trace once resolved. */
  lemma MismatchRoundTrip(cards: seq<Card>, i: nat, j: nat)
    requires DistinctIds(cards) && i < |cards| && j < |cards|
    requires !cards[i].flipped && !cards[j].flipped
    ensures FlipBack(FlipCard(FlipCard(cards, cards[i].id), cards[j].id), [cards[i], cards[j]]) == cards
  {
    var once := FlipCard(cards, cards[i].id);
    FlipCardOnlyClicked(cards, i);
    SameIdsKeepDistinct(cards, once);
    var twice := FlipCard(once, once[j].id);
    FlipCardOnlyClicked(once, j);
    SameIdsKeepDistinct(once, twice);
    FlipBackExactlyPair(twice, [cards[i], cards[j]], i, j);
  }

  // ---------------------------------------------------------------------------
  // Winning
  // ---------------------------------------------------------------------------

  /** The game is won when the deck is not empty and every card is matched. */
  predicate IsWon(cards: seq<Card>) {
    |cards| > 0 && forall k :: 0 <= k < |cards| ==> cards[k].matched
  }

  /** The number of matched cards. */
  function MatchedCount(cards: seq<Card>): (count: nat) {
    if cards == [] then 0
    else (if cards[0].matched then 1 else 0) + MatchedCount(cards[1..])
  }

  /** The win test is the same as "every card of a non-empty deck is counted
      as matched". */
  lemma {:induction false} WonIffAllMatched(cards: seq<Card>)
    ensures MatchedCount(cards) <= |cards|
    ensures IsWon(cards) <==> |cards| > 0 && MatchedCount(cards) == |cards|
  {
    if cards != [] {
      WonIffAllMatched(cards[1..]);
      if IsWon(cards) && |cards| > 1 {
        assert IsWon(cards[1..]) by {
          forall k | 0 <= k < |cards| - 1 ensures cards[1..][k].matched {
            assert cards[1..][k] == cards[k + 1];
          }
        }
      }
      if MatchedCount(cards) == |cards| {
        forall k | 0 <= k < |cards| ensures cards[k].matched {
          if k > 0 { assert cards[k] == cards[1..][k - 1]; }
        }
      }
    }
  }

  /** Replacing one card changes the matched count by the difference of the
      two cards' flags. */
  lemma {:induction false} MatchedCountUpdate(cards: seq<Card>, i: nat, c: Card)
    requires i < |cards|
    ensures MatchedCount(cards[i := c]) + (if cards[i].matched then 1 else 0)
            == MatchedCount(cards) + (if c.matched then 1 else 0)
  {
    if i > 0 {
      assert cards[i := c][1..] == cards[1..][i - 1 := c];
      MatchedCountUpdate(cards[1..], i - 1, c);
    } else {
      assert cards[i := c][1..] == cards[1..];
    }
  }

  /** A match of two different unmatched cards brings the game two cards
      closer to a win. */
  lemma MatchProgress(cards: seq<Card>, selection: seq<Card>, i: nat, j: nat)
    requires DistinctIds(cards) && i < |cards| && j < |cards| && i != j
    requires |selection| == 2 && selection[0].id == cards[i].id && selection[1].id == cards[j].id
    requires !cards[i].matched && !cards[j].matched
    ensures MatchedCount(MarkMatched(cards, selection)) == MatchedCount(cards) + 2
  {
    MarkMatchedExactlyPair(cards, selection, i, j);
    var once := cards[i := cards[i].(matched := true)];
    MatchedCountUpdate(cards, i, cards[i].(matched := true));
    MatchedCountUpdate(once, j, cards[j].(matched := true));
  }
}
