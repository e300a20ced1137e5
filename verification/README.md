# FreeCell engine in Dafny

This project models the engine of a FreeCell solitaire implementation: its cards, its 52-card deck, its three kinds of pile and the game model that ties them together. It also proves properties of each part. The engine's classes become immutable Dafny datatypes and pure functions. Operations that throw `IllegalArgumentException` return a `Result` whose `Error` value names the thrown condition. A Java `null` argument becomes `Option.None`.

Modules, one per part of the engine:

- `Wrappers`: `Option` and `Result`.
- `Errors`: one value per rejected input of the engine.
- `Text`: decimal numbers, and joining/splitting on a one-character separator. These are needed to state the text formats and their round trips.
- `Cards` (`Card`, `CardImpl`): the checking constructor, the colour, adjacency and suit predicates, equality, `clone`, and the text form (`A♦`, `10♣`). The readers `ParseCard`, `ParseRank` and `ParseGlyph` have no counterpart in the engine; they exist only to state that the text form loses nothing.
- `Decks` (`Deck`, `DeckImpl`): the default deck, the list constructor, `get`, `isValidDeck` (as a loop with a memo set) and `shuffle`.
- `Piles` (`Pile`, `PileAbstract`, `Foundation`, `Cascade`, `Open`): `add` per kind, `removeTop`, `getTop`, and the text form. The readers `ParsePile` and `ParsePieces` have no counterpart in the engine; they exist only to state the text form's round trip.
- `Engine` (`FreecellModel`):
  - `getDeck`, `startGame` (check order, optional shuffle, round-robin deal), `move` (check order, add to the destination before removing from the source), `isGameOver` and `getGameState`;
  - the invariant every reachable state keeps;
  - scenarios taken from the engine's tests.

The randomness of `shuffle` becomes a parameter `draws`. The m-th draw is the index that `(int) (Math.random() * i)` produced at step m, and it is required to be in range, which `Math.random` guarantees.

The model follows the code where the engine's own documentation disagrees with it. The doc comment of `Card.differentColor` (src/freecell/model/Card.java:45) says it returns true when the colours are the same. The code, the method's name and the pile rules all use "different", and `Cards.DifferentColor` models that.

## Model

| member | source | states |
|---|---|---|
| Cards.NewCard | src/freecell/model/CardImpl.java:19-29 | a card is built exactly when the value is in 1..13 and the suit is present, and it carries those fields; a bad value is reported before a missing suit |
| Cards.DifferentColor | src/freecell/model/CardImpl.java:46-53 | true exactly when one card is red (hearts, diamonds) and the other black |
| Cards.Equals | src/freecell/model/CardImpl.java:115-129 | equal suit and value coincide with structural equality of cards |
| Cards.Clone | src/freecell/model/CardImpl.java:65-68 | the copy has the same value and suit and is equal to the original |
| Cards.ColorRelation | src/freecell/model/CardImpl.java:46-62 | different colour is symmetric, irreflexive, and never holds between cards of the same suit |
| Cards.OneGreaterRelation | src/freecell/model/CardImpl.java:55-58 | one-greater means value exactly one more; it is irreflexive and never holds in both directions |
| Cards.SameSuitRelation | src/freecell/model/CardImpl.java:60-63 | same suit is reflexive, symmetric and transitive |
| Cards.GlyphRoundTrip | src/freecell/model/CardImpl.java:75-88 | each suit has its own glyph, which reads back as that suit |
| Cards.RankRoundTrip | src/freecell/model/CardImpl.java:95-108 | a valid value's rank text is A exactly for 1, K exactly for 13, digits without a leading zero for 2..10, and reads back as the value |
| Cards.CardString | src/freecell/model/CardImpl.java:41-44 | a card's text is at least two characters and ends with its suit glyph |
| Cards.CardStringPlain | src/freecell/model/CardImpl.java:75-108 | a card's text never contains a comma or a newline, the separators of the pile and game texts |
| Cards.ParseCardString | src/freecell/model/CardImpl.java:75-108 | the text of every valid card reads back as that card, so distinct cards have distinct texts |
| Cards.CardStringExamples | test/CardTest.java:130-178 | A♦, 3♣, 10♥ and K♠ render as the tests expect |
| Text.NatToDecimal | src/freecell/model/FreecellModel.java:153 | the decimal form of a pile number is non-empty, made of digits only, and has no leading zero when the number is positive |
| Text.IntToDecimal | src/freecell/model/CardImpl.java:105-106 | Java's int-to-text form: for a non-negative value, digits only that read back as the value, with no leading zero when positive; for a negative one, a minus sign followed by digits that read back as its magnitude |
| Text.DecimalRoundTrip | src/freecell/model/CardImpl.java:105-106 | reading back the decimal digits of a number gives the number |
| Text.SplitJoin | src/freecell/model/FreecellModel.java:152-162 | splitting the separator-joined lines, none of which holds the separator, gives back the lines |
| Text.JoinAvoids | src/freecell/model/PileAbstract.java:40-43 | joining pieces that avoid a character other than the separator yields text that avoids it |
| Decks.CanonicalDeck | src/freecell/model/DeckImpl.java:17-31 | the default deck has 52 cards; card i has value i mod 13 + 1 and suit number i div 13 (diamond, club, heart, spade) |
| Decks.CanonicalDeckValid | src/freecell/model/DeckImpl.java:17-31 | the default deck is a valid deck |
| Decks.CanonicalDeckExamples | test/DeckTest.java:50-67 | get on the default deck gives A♦ at index 0, 2♦ at 1 and K♠ at 51, and the wrong-index error at 52 and 53 |
| Decks.FromList | src/freecell/model/DeckImpl.java:37-45 | the list constructor copies the given cards; a null list gives an empty deck, which is invalid |
| Decks.Get | src/freecell/model/DeckImpl.java:52-58 | get succeeds exactly for indices in 0..51 inside the list and returns that card; indices outside 0..51 give the wrong-index error, and indices in 0..51 past the end give the list's out-of-bounds error |
| Decks.IsValidDeck | src/freecell/model/DeckImpl.java:60-79 | the memo-set loop answers true exactly when the deck has 52 cards, no repeats and every value in 1..13 |
| Decks.NoDuplicatesMultiset | src/freecell/model/DeckImpl.java:66-77 | no repeated position holds the same card exactly when every card occurs at most once in the deck's multiset |
| Decks.PermutationKeepsValid | src/freecell/model/DeckImpl.java:94-95 | a permutation of a valid deck is valid, so the final isValidDeck of shuffle is true |
| Decks.Draw | src/freecell/model/DeckImpl.java:88-94 | drawing every card out of the remaining ones produces a permutation of them |
| Decks.Shuffle | src/freecell/model/DeckImpl.java:81-96 | an invalid deck is left unchanged and false returned; a valid deck becomes a valid permutation of itself and true is returned |
| Piles.Top | src/freecell/model/PileAbstract.java:26-32 | absent exactly on an empty pile, otherwise the last card |
| Piles.Add | src/freecell/model/Pile.java:8-23 | add accepts exactly what the documented rule of the pile's kind allows; then the card is the new top above the unchanged old cards, otherwise the pile is unchanged |
| Piles.FoundationRule | src/freecell/model/Foundation.java:14-32 | an empty foundation accepts exactly an ace; otherwise exactly the next value of the top's suit |
| Piles.CascadeRule | src/freecell/model/Cascade.java:19-33 | an empty cascade accepts any card; otherwise exactly a card of the other colour, one below the top |
| Piles.OpenCapacity | src/freecell/model/Open.java:13-21 | an open pile of at most one card stays so under add and removeTop, and a full one rejects every card |
| Piles.OpenReaccepts | src/freecell/model/Open.java:13-21 | a full open pile rejects a card, and after its top is removed it accepts the card |
| Piles.RemoveTop | src/freecell/model/PileAbstract.java:17-24 | fails exactly on an empty pile, which stays unchanged; otherwise putting the old top back gives the old pile |
| Piles.AddThenRemove | src/freecell/model/Pile.java:23-32 | removing a card just accepted restores the pile |
| Piles.OwnTopRejected | src/freecell/model/FreecellModel.java:113-126 | no pile accepts its own top card, so a move whose source and destination are the same pile object is always refused |
| Piles.FoundationAddKeepsRun | src/freecell/model/Foundation.java:14-32 | add keeps a foundation an ace-up run of one suit |
| Piles.FoundationRemoveKeepsRun | src/freecell/model/PileAbstract.java:17-24 | removeTop keeps a foundation an ace-up run of one suit |
| Piles.FoundationBounds | src/freecell/model/Foundation.java:14-32 | a foundation of valid cards holds at most 13, and shows a king exactly when it holds 13 |
| Piles.Render | src/freecell/model/PileAbstract.java:34-45 | the text of a pile is empty exactly when the pile is |
| Piles.RenderRun | src/freecell/model/PileAbstract.java:40-43 | the accumulating loop's text of a non-empty pile starts with the space put before the first card |
| Piles.RenderIsJoin | src/freecell/model/PileAbstract.java:40-44 | the accumulating loop's text equals the cards' texts, each after a space, joined by commas |
| Piles.RenderPlain | src/freecell/model/PileAbstract.java:34-45 | a pile's text never contains a newline |
| Piles.ParsePiecesOfCards | src/freecell/model/PileAbstract.java:40-43 | the space-prefixed card texts of valid cards read back as those cards |
| Piles.RenderRoundTrip | src/freecell/model/PileAbstract.java:34-45 | the text of a pile of valid cards reads back as exactly those cards in order |
| Engine.GetDeck | src/freecell/model/FreecellModel.java:28-31 | getDeck is a valid deck in the default order |
| Engine.WithPile | src/freecell/model/FreecellModel.java:113-126 | the chosen pile becomes the given cards; the begun flag, the other lists and the other piles of that list are unchanged |
| Engine.DealFrom | src/freecell/model/FreecellModel.java:63-69 | run from any intermediate step whose columns are the round-robin deal of the first i cards, the loop ends with column k holding cards k, k+n, ... of the whole deck and every card dealt once |
| Engine.Deal | src/freecell/model/FreecellModel.java:62-72 | round-robin dealing into n cascades puts cards k, k+n, k+2n, ... into cascade k and loses or adds no card |
| Engine.DealPosition | src/freecell/model/FreecellModel.java:67-69 | deck card i ends up in cascade i mod n at position i div n |
| Engine.StartGame | src/freecell/model/FreecellModel.java:33-84 | the deck, then the cascade count, then the open count are checked in that order; a start succeeds exactly when all three are acceptable; a started game has 4 empty foundations, the requested numbers of empty opens and cascades, and exactly the deck's cards; the cascades are the round-robin deal of the shuffled deck, or of the given deck without shuffle |
| Engine.InitialInv | src/freecell/model/FreecellModel.java:21-26 | the freshly constructed model satisfies the invariant and is not over |
| Engine.StartGameInv | src/freecell/model/FreecellModel.java:33-84 | every successful start reaches a state satisfying the invariant |
| Engine.Transfer | src/freecell/model/FreecellModel.java:122-129 | the move succeeds exactly when the destination's rule accepts the source's top, and is otherwise an illegal move; on success exactly that card moved and nothing else changed |
| Engine.Move | src/freecell/model/FreecellModel.java:86-130 | the game-begun, source-type, destination-type, pile-number, destination-number, empty-source and card-index errors in the code's order; then success exactly when the destination accepts the top card; a success moves only that card and keeps every card in the game |
| Engine.MoveOntoItselfRejected | src/freecell/model/FreecellModel.java:113-129 | moving a pile onto itself always fails |
| Engine.MoveCards | src/freecell/model/FreecellModel.java:125-126 | adding the moved card to the destination and removing it from the source keeps the multiset of all cards |
| Engine.MoveInv | src/freecell/model/FreecellModel.java:86-130 | every successful move keeps the invariant: four one-suit ace-up foundations, opens of at most one card, and 52 distinct valid cards |
| Engine.AllKings | src/freecell/model/FreecellModel.java:137-141 | the loop over the foundations succeeds exactly when every foundation is non-empty with a king on top |
| Engine.IsGameOver | src/freecell/model/FreecellModel.java:132-143 | over exactly when a game has begun and every foundation shows a king |
| Engine.GameOverMeansAllOnFoundations | src/freecell/model/FreecellModel.java:132-143 | in a reachable game, over exactly when the foundations hold all 52 cards, 13 each; the opens and cascades are then empty |
| Engine.TerminatedIsJoin | src/freecell/model/FreecellModel.java:152-162 | appending each line and a newline, then cutting the last character, gives the lines joined by newlines |
| Engine.GetGameState | src/freecell/model/FreecellModel.java:145-163 | empty before a start; afterwards the foundation, open and cascade lines joined by newlines, and splitting at newlines gives exactly those lines back |
| Engine.LinesAvoidNewline | src/freecell/model/FreecellModel.java:152-161 | no line of the state text contains a newline |
| Engine.InvRenders | src/freecell/model/FreecellModel.java:162 | every reachable started game has a pile, so the state text ends with a newline that can be cut |
| Engine.OneCardPerCascade | test/OperationGetStateTest.java:144-170 | with 52 cascades and 52 opens on the unshuffled deck, the lines read F1:, O1:, C1: A♦, C2: 2♦; after the first move of the test's loop (A♦ from the first cascade to the first open) they read O1: A♦ and C1: |
| Engine.DealIgnoresCascadeRule | src/freecell/model/FreecellModel.java:67-71 | the deal stores cascades without the cascade rule: on four cascades the first starts A♦, 5♦, a pair its own add refuses |

## Left out

- Controller and view classes (`FreecellController` and the game-loop interface): user input and output, outside the engine.
- `CardImpl.hashCode`: only the Java hash-set machinery uses it. `Decks.IsValidDeck` uses a Dafny set, whose membership is structural equality; `Cards.Equals` proves that this coincides with the Java `equals`.
- `equals` against an object that is not a card, and a card whose suit is null: values of those types cannot be expressed. A suit is a non-null enumeration, so the null-suit branch of `isValidDeck` is unreachable. A missing suit is modelled only at the constructor (`Cards.NewCard`).
- `switch` default branches (`suitToString`, `typeToPiles`): unreachable over the enumerations.
- The exception message texts: each thrown condition is an `Errors.Error` value, without its message.
- Randomness: `Math.random` becomes the `draws` parameter of `Decks.Shuffle` and `Engine.StartGame`.
- Engine.StartGame: requires in-range draws even when no shuffle is asked for. The draws are then unused, and the engine itself has no such demand.
- Object identity and mutation:
  - Piles are values. `Cascade` adopting the dealt list by reference, and `getDeck` exposing the deck's mutable list, have no counterpart.
  - A failed `startGame` or `move` returns an error and no new game, so the previous state is kept by construction rather than by a stated contract.
- Engine.GetGameState: requires at least one pile in a started game. Otherwise the Java code would cut a character from an empty string. `Engine.InvRenders` shows every reachable game meets this.
- Engine.Transfer: removes the top from the game after the destination's add, as the engine does on its shared pile objects. The aliased case (same source and destination) is always rejected, by `Piles.OwnTopRejected`.
- `Size`, `Last`, `TypeToPiles`, `CardsIn`, `Stride`, `Line`, `Lines` and `StateLines` are definitions the contracts above are written in; they carry no contract of their own. `SameSuit`, `OneGreater`, `Glyph` and `RankString` (`sameSuit`, `oneGreater`, `suitToString`, `valueToString`) carry none either; `Cards.SameSuitRelation`, `Cards.OneGreaterRelation`, `Cards.GlyphRoundTrip` and `Cards.RankRoundTrip` state their properties. `AddFoundation`, `AddCascade` and `AddOpen` (the three `add` overrides) carry none; `Piles.Add`, `Piles.FoundationRule`, `Piles.CascadeRule` and `Piles.OpenCapacity` state what they accept. `Terminated` (the line-by-line appends of `getGameState`) carries none; `Engine.TerminatedIsJoin` relates it to the newline join.
- `Card.value` is an unbounded integer; Java's 32-bit `int` never wraps in the engine (values are compared and subtracted within 1..13, pile numbers are small), so no wrap-around is modelled.
