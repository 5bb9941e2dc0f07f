# Five-card draw: hand evaluation, winner selection, deck and hand state

This project models the game logic of a browser five-card-draw poker client in Dafny.

- **The card alphabet.** The four suit glyphs and the thirteen rank tokens, written as `rank token + suit glyph` strings. It also covers the key set of the card-face table.
- **Decks.** The 52-card deck is built suits-outer, ranks-inner. A legacy variant builds the same deck from mis-decoded suit strings.
- **`rankHand`.** It rejects anything but five cards, parses each card, and sorts the values descending. It tests for a flush and a straight (ace high only), counts each value, and classifies the hand from Royal Flush down to High Card. The result is a category rank, a name and a tiebreaker vector.
- **`determineWinner`.** It ranks every hand and keeps the hands of the highest category. Among them it picks the lexicographically greatest tiebreaker and reports every player holding it.
- **Dealing.** `shuffleAndDealCards` reorders the caller's deck array and splices five cards per player off its front, in place. The legacy `dealCards` does the same on a copy.
- **Replacing cards.** `replaceCards` pops cards off the end of the caller's deck into chosen positions of one player's hand. It throws once the deck is empty. The legacy variant works on copies and writes `undefined` instead of throwing.
- **`useHand`.** The per-hand selection state: toggle, lock, replace, keep-all, card click, reset and `isSelection`.

The pure parts are datatypes, functions and lemmas. The parts that change state in place are methods with loops:

- The deck the current `replaceCards` pops and `shuffleAndDealCards` splices is a `Pile` object. Its `cards` field the methods reassign.
- The hook's state is a `HandState` object.
- Each method is proved against a specification function: `Deal` for dealing, `Fill` for replacement, `Toggled` for selection.
- The properties of each specification function are lemmas.

A JavaScript hand array that can hold `undefined` or holes is `seq<Option<T>>`.

Three details of the source that a reader might not expect:

- **Two Pair tiebreaker.** client/src/utils/game/rankHand.ts:134 sorts the two pair values descending, so the unit-test hand gives `[10, 9, 2]` (`TwoPairTestHand`). The unit test at client/src/utils/game/__tests__/rankHand.test.ts:70 asks for `[9, 10, 2]`, which does not match the code; the model follows the code.
- **Hand size.** client/src/utils/game/replaceCards.ts:25 grows the hand when an index is past its end, leaving holes in between. That is modelled (`Replacing.Write`, `Replacing.FillLength`).
- **Category ranks.** The doc comment at client/src/utils/game/rankHand.ts:8 says 1 is Royal Flush. The unit tests at client/src/utils/game/__tests__/rankHand.test.ts:8-88 instead give Royal Flush 10 down to High Card 1, and the model follows them (`HandEvaluator.HandRanking`).

## Model

| member | source | states |
|---|---|---|
| Cards.CardString | client/src/utils/game/initializeDeck.ts:10 | a card is written as its rank token followed by its one-character suit glyph: two or three characters |
| Cards.TokenValue | client/src/utils/game/rankHand.ts:31-37 | a token has a value exactly when it is one of the thirteen rank tokens, and the value prints back to that token (2..10, J=11, Q=12, K=13, A=14) |
| Cards.SuitOfGlyph | client/src/utils/game/rankHand.ts:27 | the last character names a suit exactly when it is one of the four glyphs, and that suit prints back to it |
| Cards.ParsePrint | client/src/utils/game/rankHand.ts:26-37 | `ParseCard` (everything but the last character as the rank token, the last character as the suit) gives back the card a printed form came from |
| Cards.PrintParse | client/src/utils/game/rankHand.ts:26-37 | a string `ParseCard` accepts is exactly the printed form of the card it parses to, so parsing is injective |
| Cards.SuitsAreDistinctGlyphs | client/src/constants/card.ts:9 | there are four suits, each one character long, pairwise distinct |
| Cards.RankTokensAscend | client/src/constants/card.ts:10 | the thirteen rank tokens are distinct, and token i has value i + 2, so the list is in increasing order of value |
| Cards.BackIsNotACard | client/src/constants/card.ts:6 | `Back` does not parse as a card and is no card's printed form |
| Cards.CardStringIsKey | client/src/constants/card.ts:1-7 | every card's printed form is a key of the face-image table |
| Cards.CardUnicodeKeysAreTheAlphabet | client/src/constants/card.ts:1-7 | the table's keys are exactly `Back` and the 52 printed cards, and every key except `Back` parses |
| Deck.SuitMajorMembers | client/src/utils/game/initializeDeck.ts:10 | the suits-by-ranks `flatMap` contains exactly the strings `rank + suit` for a listed rank and suit |
| Deck.SuitMajorDistinct | client/src/utils/game/initializeDeck.ts:10 | with distinct suits of one length and distinct ranks, the `flatMap` has no duplicates |
| Deck.InitializeDeckLayout | client/src/utils/game/initializeDeck.ts:10 | `InitializeDeck()` has 52 cards, card 13s + r is rank r followed by suit s, and no card appears twice |
| Deck.InitializeDeckIsTheAlphabet | client/src/utils/game/initializeDeck.ts:10 | every card is in the deck, every deck entry parses and prints back, and the face-table keys are the deck plus `Back` |
| Deck.DistinctPermutation | client/src/utils/game/shuffleAndDealCards.ts:14 | a reordering of a deck without duplicates has no duplicates, so the shuffle keeps every card of the full deck distinct |
| Deck.LegacySuitsAreMisdecodedGlyphs | client/src/utils/card/initializeDeck.ts:2 | each legacy suit string is the UTF-8 bytes of the matching glyph read back one byte per character as Windows-1252 |
| Deck.LegacySuitsDistinct | client/src/utils/card/initializeDeck.ts:2 | the four legacy suit strings are distinct and three characters long |
| Deck.LegacyInitializeDeckLayout | client/src/utils/card/initializeDeck.ts:2-4 | the legacy rank list equals the current one; `LegacyInitializeDeck()` has 52 entries, entry 13s + r is rank r followed by legacy suit s, and there are no duplicates |
| Deck.LegacyCardsDoNotParse | client/src/utils/card/initializeDeck.ts:2-4 | no legacy deck entry parses as `rank token + suit glyph` |
| HandEvaluator.RankingIdentifiesCategory | client/src/utils/game/rankHand.ts:52-157 | the category rank and the category name each identify the category: two categories share a rank, or a name, only when they are the same |
| HandEvaluator.SortDesc | client/src/utils/game/rankHand.ts:38 | the sort's result is descending and a permutation of its input |
| HandEvaluator.DescendingUnique | client/src/utils/game/rankHand.ts:38 | two descending sequences with the same elements are equal, so the sorted values depend only on the multiset |
| HandEvaluator.SortedValues | client/src/utils/game/rankHand.ts:26-38 | the values are as many as the cards, descending, a permutation of the cards' values, and each in 2..14 |
| HandEvaluator.Without | client/src/utils/game/rankHand.ts:135-136 | the filter keeps every occurrence of each value not removed and no occurrence of a removed one |
| HandEvaluator.WithoutDescending | client/src/utils/game/rankHand.ts:147 | filtering a descending sequence keeps it descending |
| HandEvaluator.FirstWithCount | client/src/utils/game/rankHand.ts:74-90 | a value the key search returns lies in range, has the asked-for count and is not the skipped value |
| HandEvaluator.FirstWithCountLeast | client/src/utils/game/rankHand.ts:74-90 | the value found is the least one that qualifies, and the search finds nothing only when no value qualifies |
| HandEvaluator.FirstWithCountIsLeast | client/src/utils/game/rankHand.ts:74-90 | conversely, when m qualifies and no smaller value does, the search returns m |
| HandEvaluator.FirstWithCountNone | client/src/utils/game/rankHand.ts:74-90 | when no value from k to 14 qualifies, the search returns nothing |
| HandEvaluator.FirstWithCountFinds | client/src/utils/game/rankHand.ts:74-90 | the ascending search over 2..14 finds a value with count c exactly when the hand has one |
| HandEvaluator.SecondPairFinds | client/src/utils/game/rankHand.ts:129-132 | after a first pair, the second-pair search succeeds exactly when two distinct values are pairs, and what it finds is above the first pair |
| HandEvaluator.SearchFacts | client/src/utils/game/rankHand.ts:74-131 | each search succeeds exactly when the hand has a value of that count, and what it finds has that count; with one pair and no second, no other value is a pair |
| HandEvaluator.RankHand | client/src/utils/game/rankHand.ts:13-158 | it fails with the size error exactly when the hand does not have five cards, succeeds exactly when five cards all parse, and a success has rank 1..10 |
| HandEvaluator.FlushOfPermutation | client/src/utils/game/rankHand.ts:46 | permuting the cards does not change whether all suits match |
| HandEvaluator.RankCardsOfPermutation | client/src/utils/game/rankHand.ts:26-157 | permuting five parsed cards does not change the rank, name or tiebreaker |
| HandEvaluator.RankHandOfPermutation | client/src/utils/game/rankHand.ts:19-157 | permuting the card strings does not change rankHand's result, error included |
| HandEvaluator.ClassifyFollowsLadder | client/src/utils/game/rankHand.ts:52-157 | the category `Evaluate` (the first-match ladder `Classify` over the key searches) assigns equals the poker ladder stated by counts alone: the strongest category whose pattern of equal values, flush and straight the hand shows |
| HandEvaluator.RoyalFlushExactly | client/src/utils/game/rankHand.ts:46-61 | a hand is a Royal Flush exactly when it is a flush with values 14, 13, 12, 11, 10; Straight Flush exactly when it is a flush straight not topped by 14 |
| HandEvaluator.StraightRun | client/src/utils/game/rankHand.ts:47-49 | a straight is five consecutive values counting down from the highest |
| HandEvaluator.NoLowAceStraight | client/src/utils/game/rankHand.ts:47-49 | a hand holding both an ace and a two is never a straight, so A-2-3-4-5 is not one |
| HandEvaluator.FourOfAKindTiebreaker | client/src/utils/game/rankHand.ts:74-80 | Four of a Kind has the single value that occurs four times as tiebreaker |
| HandEvaluator.FullHouseTiebreaker | client/src/utils/game/rankHand.ts:93-102 | Full House has [three-of value, pair value], and the hand's values are exactly three of one and two of the other |
| HandEvaluator.ThreeOfAKindTiebreaker | client/src/utils/game/rankHand.ts:117-124 | Three of a Kind has the value occurring three times, and no value is a pair |
| HandEvaluator.TwoPairTiebreaker | client/src/utils/game/rankHand.ts:129-142 | Two Pair has [higher pair, lower pair, kicker]: the first strictly above the second, both occurring exactly twice, the kicker different from both, and the hand's values are those two pairs and the kicker |
| HandEvaluator.OnePairTiebreaker | client/src/utils/game/rankHand.ts:146-152 | One Pair has the pair value, occurring exactly twice and the only value that does, followed by the other three values descending, none of them the pair value; the hand's values are exactly these |
| HandEvaluator.FiveValueTiebreaker | client/src/utils/game/rankHand.ts:105-157 | the flush-straight, flush, straight and high-card categories use all five values descending; a High Card hand has no pair or three of a kind |
| HandEvaluator.TiebreakerLengthOfCategory | client/src/utils/game/rankHand.ts:52-157 | the tiebreaker's length is fixed by the category: 1, 2, 1, 3, 4 or 5 |
| HandEvaluator.TwoPairTestHand | client/src/utils/game/__tests__/rankHand.test.ts:64-72 | the test hand 10, 10, 9, 9, 2 ranks 3, "Two Pair", with tiebreaker [10, 9, 2] |
| DetermineWinner.LexIrreflexive | client/src/utils/game/determineWinner.ts:68-75 | no tiebreaker sorts before itself |
| DetermineWinner.LexAsymmetric | client/src/utils/game/determineWinner.ts:68-75 | of two tiebreakers at most one sorts first |
| DetermineWinner.LexTransitive | client/src/utils/game/determineWinner.ts:68-75 | the order on tiebreakers is transitive |
| DetermineWinner.LexTotal | client/src/utils/game/determineWinner.ts:68-75 | of two different tiebreakers of one length, one sorts first |
| DetermineWinner.LexAtFirstDifference | client/src/utils/game/determineWinner.ts:69-72 | the order is decided by the first position where the two tiebreakers differ |
| DetermineWinner.CompareTiebreakers | client/src/utils/game/determineWinner.ts:68-75 | the comparator is negative exactly when a beats b, positive exactly when b beats a, and zero exactly when they are equal |
| DetermineWinner.RankResults | client/src/utils/game/determineWinner.ts:43-46 | one rankHand result per player, in player order |
| DetermineWinner.CollectSucceeds | client/src/utils/game/determineWinner.ts:43-46 | the map succeeds exactly when every hand is accepted |
| DetermineWinner.CollectEntries | client/src/utils/game/determineWinner.ts:43-46 | a successful map's entry i is player i with rankHand's fields for hand i |
| DetermineWinner.CollectFailsFirst | client/src/utils/game/determineWinner.ts:45 | a failed map carries the error of the first rejected hand, and every hand before it was accepted |
| DetermineWinner.RankAllSucceeds | client/src/utils/game/determineWinner.ts:43-46 | ranking all hands succeeds exactly when rankHand accepts every hand |
| DetermineWinner.RankAllEntries | client/src/utils/game/determineWinner.ts:43-46 | when `RankAll` succeeds, entry i has player index i and the rank, name and tiebreaker of rankHand(players[i]) |
| DetermineWinner.RankAllFailsFirst | client/src/utils/game/determineWinner.ts:45 | a failure is the error of the first hand rankHand rejects |
| DetermineWinner.RankAllShape | client/src/utils/game/determineWinner.ts:43-46 | the ranked hands list the players in order, and hands of one rank have tiebreakers of one length |
| DetermineWinner.SameRankSameLength | client/src/utils/game/determineWinner.ts:69 | two accepted hands of equal rank have tiebreakers of equal length, so the comparator's loop reads no position past either end |
| DetermineWinner.MaxRank | client/src/utils/game/determineWinner.ts:51 | the highest rank bounds every hand's rank and is some hand's rank |
| DetermineWinner.WithRank | client/src/utils/game/determineWinner.ts:56-58 | the contenders are exactly the ranked hands of that rank |
| DetermineWinner.WithRankKeepsOrder | client/src/utils/game/determineWinner.ts:56-58 | filtering keeps the contenders in increasing player order |
| DetermineWinner.ContendersShareLength | client/src/utils/game/determineWinner.ts:56-75 | all contenders' tiebreakers have the first contender's length |
| DetermineWinner.BestTiebreaker | client/src/utils/game/determineWinner.ts:68-80 | the tiebreaker that sorts first is held by some contender and beaten by none |
| DetermineWinner.IndicesWith | client/src/utils/game/determineWinner.ts:81-83 | the winners are exactly the player indices of contenders whose tiebreaker equals the best one |
| DetermineWinner.IndicesWithKeepsOrder | client/src/utils/game/determineWinner.ts:81-83 | contenders in increasing player order give winners in increasing order |
| DetermineWinner.DetermineWinner | client/src/utils/game/determineWinner.ts:31-86 | no players gives the empty-list error, and a rejected hand gives its error. Otherwise every hand is reported, and the winners are non-empty, ascending, valid indices, and exactly the players whose hand has the top rank and is beaten by no hand of that rank |
| DetermineWinner.WinnersAreOrdered | client/src/utils/game/determineWinner.ts:56-83 | the winner list is never empty, so the guard at line 60 never fires, and it is in ascending player order as the stable sort leaves it |
| DetermineWinner.WinnersAreIndices | client/src/utils/game/determineWinner.ts:81-83 | every winner is the index of a ranked hand |
| DetermineWinner.WinnersAreUnbeaten | client/src/utils/game/determineWinner.ts:80-83 | every reported winner has the top rank and no hand of that rank beats it |
| DetermineWinner.WinnerHoldsBest | client/src/utils/game/determineWinner.ts:68-80 | an unbeaten hand of the top rank that does not beat the best tiebreaker holds it |
| DetermineWinner.UnbeatenAreWinners | client/src/utils/game/determineWinner.ts:80-83 | every player with the top rank whom no hand of that rank beats is reported |
| DetermineWinner.TiedHandsShareTheOutcome | client/src/utils/game/determineWinner.ts:80-83 | two hands with the same rank and tiebreaker both win or both lose |
| Piles.Pile.Pop | client/src/utils/game/replaceCards.ts:25 | `pop()` returns and removes the last card, or returns `undefined` and leaves an empty array empty |
| Piles.Pile.SpliceFront | client/src/utils/game/shuffleAndDealCards.ts:16 | `splice(0, count)` returns the first min(count, length) cards and leaves the rest, in order |
| Dealing.Deal | client/src/utils/game/shuffleAndDealCards.ts:15-17 | exactly one hand per player |
| Dealing.SpliceStep | client/src/utils/game/shuffleAndDealCards.ts:16 | splicing five off what is left after i hands takes hand i (positions 5i..5i+4, cut at the end) and leaves what follows it |
| Dealing.DealPrefix | client/src/utils/game/shuffleAndDealCards.ts:15-17 | the first i hands, one after the other, are the deck up to position 5i |
| Dealing.DealSizes | client/src/utils/game/shuffleAndDealCards.ts:15-19 | every hand has at most five cards; with at least 5n cards each has exactly five and the rest has length − 5n |
| Dealing.DealConserves | client/src/utils/game/shuffleAndDealCards.ts:14-19 | the hands followed by the remaining deck are the shuffled deck itself: no card lost, added or moved |
| Dealing.DealDisjoint | client/src/utils/card/dealCards.ts:2-3 | from a deck without duplicates, no card is in two hands and no dealt card is left in the rest |
| Dealing.ShuffleAndDealCards | client/src/utils/game/shuffleAndDealCards.ts:10-20 | the caller's array is reordered into the shuffle and consumed. The hands are the deal of the shuffle, the returned deck is the caller's own object holding the rest, and hands plus deck are a permutation of the original deck |
| Dealing.DealCards | client/src/utils/card/dealCards.ts:1-5 | the legacy deal returns the deal of a shuffled copy and changes nothing the caller holds |
| Dealing.FullDeckFourPlayers | client/src/utils/game/__tests__/shuffleAndDealCards.test.ts:4-15 | four players dealt from any shuffle of the 52-card deck get five cards each, no card is in two hands or also left in the deck, and 32 remain |
| Replacing.Write | client/src/utils/game/replaceCards.ts:25 | `hand[index] = v` sets that position, grows the array with holes for an index past the end, ignores a negative index, and leaves every other position as it was |
| Replacing.FillDeck | client/src/utils/game/replaceCards.ts:21-26 | the replacement loop takes the last \|indices\| cards off the deck, or all of them |
| Replacing.FillLength | client/src/utils/game/replaceCards.ts:19-26 | the hand never shrinks, and keeps its length when every index is in range |
| Replacing.FillKeeps | client/src/utils/game/replaceCards.ts:19-26 | a position that is not listed keeps its card |
| Replacing.FillWrites | client/src/utils/game/replaceCards.ts:21-26 | in `Fill` (the replacement loop over the listed positions), a listed position ends with the card of the j-th pop for its last listing j, counted from the end of the deck |
| Replacing.ReplaceCards | client/src/utils/game/replaceCards.ts:13-33 | no hand at the index is an error with the deck untouched. Too few cards empties the deck and throws. Otherwise only the target hand changes, into the filled hand, and the caller's deck loses its last \|cardIndices\| cards |
| Replacing.LegacyReplaceCards | client/src/utils/card/replaceCards.ts:1-17 | no hand at the index is an error. Otherwise only the target hand changes, into the hand filled from a copy with `undefined` past its end, and the copy's remainder is returned with the caller's deck untouched |
| Replacing.DrawFromTheEnd | client/src/utils/game/__tests__/replaceCards.test.ts:4-26 | with deck [Q, K, A] and positions [1, 3], position 1 gets A, position 3 gets K, the rest keep their cards and [Q] is left |
| HandSelection.Removed | client/src/hooks/useHand.ts:61 | the filter keeps exactly the other indices and never lengthens the selection |
| HandSelection.ToggledMembership | client/src/hooks/useHand.ts:59-63 | `Toggled` (remove the index if selected, append it otherwise) flips the membership of the toggled index and of no other |
| HandSelection.RemovedDistinct | client/src/hooks/useHand.ts:61 | filtering a duplicate-free selection keeps it duplicate-free |
| HandSelection.ToggledDistinct | client/src/hooks/useHand.ts:59-63 | toggling never selects an index twice |
| HandSelection.RemovedAbsent | client/src/hooks/useHand.ts:61 | filtering out an index that is not selected changes nothing |
| HandSelection.ToggleTwice | client/src/hooks/useHand.ts:59-63 | toggling an unselected index twice restores the selection exactly; in general the same indices end up selected |
| HandSelection.HandState.constructor | client/src/hooks/useHand.ts:42-52 | nothing selected, flipped or locked at first |
| HandSelection.HandState.IsSelection | client/src/hooks/useHand.ts:119 | true exactly when some position is selected |
| HandSelection.HandState.ToggleCardSelection | client/src/hooks/useHand.ts:59-63 | the selection becomes its toggle, stays duplicate-free, and nothing else changes |
| HandSelection.HandState.HandleLock | client/src/hooks/useHand.ts:69-73 | locks, empties the selection and tells the parent the hand is locked once |
| HandSelection.HandState.HandleReplace | client/src/hooks/useHand.ts:79-84 | asks the parent to replace the selection as it was before the call, then reports the lock. It appends that selection to the flipped positions and ends locked with nothing selected |
| HandSelection.HandState.HandleKeepAll | client/src/hooks/useHand.ts:89-92 | empties the selection and locks, reporting only the lock |
| HandSelection.HandState.HandleCardClick | client/src/hooks/useHand.ts:100-103 | unlocks and toggles the clicked position |
| HandSelection.HandState.ResetEffect | client/src/hooks/useHand.ts:108-114 | on a reset, the flipped and selected positions are cleared and the hand is unlocked; otherwise nothing changes |

## Left out

- The shuffles' `Math.random` comparator sort (client/src/utils/game/shuffleAndDealCards.ts:14, client/src/utils/card/dealCards.ts:2) is not modelled as randomness. The shuffle is a parameter `shuffled` required to be a permutation of the deck. Distribution and fairness are out of scope.
- The `HAND_RANKINGS` module is not part of this model. `HandEvaluator.HandRanking` writes its table out. Nine values come from the unit tests at client/src/utils/game/__tests__/rankHand.test.ts:8-88: Royal Flush 10, Straight Flush 9, Four of a Kind 8, Full House 7, Flush 6, Straight 5, Two Pair 3, One Pair 2, High Card 1. No test gives Three of a Kind. Its 4 is inferred as the only integer between Two Pair 3 and Straight 5, and every winner comparison of a Three of a Kind against another category rests on that value.
- HandEvaluator.RankHand: a five-card hand with a string outside the 52-card alphabet gives a `NotACard` error. The source would instead go on with whatever `parseInt` makes of the token (NaN, or a leading number), and would accept any last character as a suit. Garbage in, garbage out is not modelled.
- DetermineWinner.CompareTiebreakers: requires tiebreakers of equal length. The comparator itself loops over the first one's length and would compare against `undefined` past the second one's end. The requirement always holds for hands `rankHand` accepts (`SameRankSameLength`).
- DetermineWinner.DetermineWinner: the in-place `sort` of the contenders is not modelled. The model selects the tiebreaker that sorts first (`BestTiebreaker`) and filters the contenders in their original order. Because the sort is stable, this yields the same winner list.
- DetermineWinner.DetermineWinner: the `Array.isArray` test is left to the types. The `console.error` messages are left out. The guard at client/src/utils/game/determineWinner.ts:60 has no branch, because `WinnersAreOrdered` proves it unreachable.
- The `tiebreaker.join()` comparison is modelled as equality of the number sequences. For integer tiebreakers the two agree.
- Negative and fractional `numPlayers` are not modelled. JavaScript turns a negative length into 0 and truncates a fraction. The model takes a natural number.
- Card indices are integers. A fractional index, which JavaScript would store as a property, is not modelled. A negative index is modelled and leaves the hand unchanged.
- The hand a failed `replaceCards` was building is discarded, as the thrown error discards it. The deck it popped stays popped, which is modelled.
- React glue is not modelled, nor is state scheduling in `useHand`. Each handler applies its state updates at once, in the order it makes them. The `wasReset` prop is the `ResetEffect` method's parameter, run when the effect would run.
- The rest of the client is not part of this model: the other hooks and components, player-name editing and persistence, the Lottie colour substitution and the build and test configuration.
- The glyph images that `cardUnicodeMap` maps its keys to are display data, and only its key set is modelled.
