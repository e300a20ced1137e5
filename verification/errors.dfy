/** The causes for which the engine throws IllegalArgumentException,
    plus the IndexOutOfBoundsException of java.util.List.get. */
module Errors {

  datatype Error =
    | BadCardValue            // card value outside 1..13
    | NullSuit                // card built without a suit
    | BadDeckIndex            // deck index outside 0..51
    | IndexOutOfBounds        // deck index inside 0..51 but past the end of a short list
    | InvalidDeck             // startGame on a deck that fails isValidDeck
    | TooFewCascades          // startGame with fewer than 4 cascades
    | TooFewOpens             // startGame with fewer than 1 open pile
    | NotBegun                // move before any successful startGame
    | NullSourceType          // move with a null source pile type
    | NullDestinationType     // move with a null destination pile type
    | BadPileNumber           // source pile index outside its list
    | BadDestinationPileNumber // destination pile index outside its list
    | EmptyPile               // source pile holds no card
    | BadCardIndex            // card index is not the source's top index
    | IllegalMove             // destination pile rejects the card
}
