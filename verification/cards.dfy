/** A playing card: a value (1 = ace .. 13 = king) and one of four suits,
    with the adjacency, suit and colour predicates the pile rules use and the
    fixed two-part text form ("A♦", "10♣"). */
module Cards {
  import opened Wrappers
  import opened Errors
  import Text

  datatype Suit = Diamond | Club | Heart | Spade

  /** The value is an unbounded int, as the Card interface lets any int through;
      only NewCard and the deck check restrict it to 1..13. */
  datatype Card = Card(value: int, suit: Suit)

  /** Hearts and diamonds are red; clubs and spades are black. */
  predicate IsRed(s: Suit) {
    s == Diamond || s == Heart
  }

  predicate ValidCard(c: Card) {
    1 <= c.value <= 13
  }

  /** The checking constructor: a value outside 1..13 is rejected first, a null suit second. */
  function NewCard(value: int, suit: Option<Suit>): (r: Result<Card, Error>)
    ensures r.Success? <==> 1 <= value <= 13 && suit.Some?
    ensures r.Success? ==> ValidCard(r.value) && r.value.value == value && r.value.suit == suit.value
    ensures r.Failure? && (value < 1 || value > 13) ==> r.error == BadCardValue
    ensures r.Failure? && 1 <= value <= 13 ==> r.error == NullSuit
  {
    if value < 1 || value > 13 then Failure(BadCardValue)
    else if suit.None? then Failure(NullSuit)
    else Success(Card(value, suit.value))
  }

  /** True when exactly one of the two cards is red. */
  function DifferentColor(a: Card, b: Card): (r: bool)
    ensures r <==> IsRed(a.suit) != IsRed(b.suit)
  {
    if a.suit == Diamond || a.suit == Heart then b.suit == Club || b.suit == Spade
    else b.suit == Diamond || b.suit == Heart
  }

  /** True when a's value is exactly one more than b's. */
  function OneGreater(a: Card, b: Card): bool {
    a.value - b.value == 1
  }

  function SameSuit(a: Card, b: Card): bool {
    a.suit == b.suit
  }

  /** Card equality as the Java equals defines it: same suit and same value.
      It coincides with the datatype's own equality. */
  function Equals(a: Card, b: Card): (r: bool)
    ensures r <==> a == b
  {
    SameSuit(b, a) && a.value == b.value
  }

  /** A copy: with value semantics it is indistinguishable from the original. */
  function Clone(c: Card): (r: Card)
    ensures Equals(r, c) && r.value == c.value && r.suit == c.suit
  {
    Card(c.value, c.suit)
  }

  lemma ColorRelation(a: Card, b: Card)
    ensures DifferentColor(a, b) == DifferentColor(b, a)
    ensures SameSuit(a, b) ==> !DifferentColor(a, b)
    ensures !DifferentColor(a, a)
  {
  }

  lemma OneGreaterRelation(a: Card, b: Card)
    ensures OneGreater(a, b) <==> a.value == b.value + 1
    ensures !(OneGreater(a, b) && OneGreater(b, a))
    ensures !OneGreater(a, a)
  {
  }

  /** "A", "J", "Q", "K" for 1, 11, 12, 13; the decimal digits of any other value. */
  function RankString(v: int): string
  {
    match v
    case 1 => "A"
    case 11 => "J"
    case 12 => "Q"
    case 13 => "K"
    case _ => Text.IntToDecimal(v)
  }

  function Glyph(s: Suit): char
  {
    match s
    case Diamond => '♦'
    case Club => '♣'
    case Heart => '♥'
    case Spade => '♠'
  }

  function CardString(c: Card): (r: string)
    ensures |r| >= 2 && r[|r| - 1] == Glyph(c.suit)
  {
    RankString(c.value) + [Glyph(c.suit)]
  }

  /** A card's text holds no separator of the pile or game renderings. */
  lemma CardStringPlain(c: Card)
    ensures ',' !in CardString(c) && '\n' !in CardString(c)
  {
  }

  /** Reads a card's text back; the partner of CardString on valid cards. */
  function ParseCard(s: string): Option<Card>
  {
    if |s| < 2 then None
    else
      var rank := ParseRank(s[..|s| - 1]);
      var suit := ParseGlyph(s[|s| - 1]);
      if rank.Some? && suit.Some? then Some(Card(rank.value, suit.value)) else None
  }

  function ParseRank(s: string): Option<int>
  {
    if s == "A" then Some(1)
    else if s == "J" then Some(11)
    else if s == "Q" then Some(12)
    else if s == "K" then Some(13)
    else if |s| > 0 && s[0] != '0' && Text.AllDigits(s) && 2 <= Text.DecimalValue(s) <= 10 then Some(Text.DecimalValue(s))
    else None
  }

  function ParseGlyph(ch: char): Option<Suit>
  {
    if ch == '♦' then Some(Diamond)
    else if ch == '♣' then Some(Club)
    else if ch == '♥' then Some(Heart)
    else if ch == '♠' then Some(Spade)
    else None
  }

  /** Each suit has its own glyph, and the glyph reads back as the suit. */
  lemma GlyphRoundTrip(s: Suit, t: Suit)
    ensures ParseGlyph(Glyph(s)) == Some(s)
    ensures Glyph(s) == Glyph(t) <==> s == t
  {
  }

  /** The rank text of a valid value: a letter for ace and the face cards, digits
      otherwise, and it reads back as the value. */
  lemma RankRoundTrip(v: int)
    requires 1 <= v <= 13
    ensures ParseRank(RankString(v)) == Some(v)
    ensures RankString(v) == "A" <==> v == 1
    ensures RankString(v) == "K" <==> v == 13
    ensures 2 <= v <= 10 ==> Text.AllDigits(RankString(v))
    ensures 2 <= v <= 10 ==> RankString(v)[0] != '0'
  {
  }

  /** Suit equality is an equivalence: reflexive, symmetric and transitive. */
  lemma SameSuitRelation(a: Card, b: Card, c: Card)
    ensures SameSuit(a, a)
    ensures SameSuit(a, b) <==> SameSuit(b, a)
    ensures SameSuit(a, b) && SameSuit(b, c) ==> SameSuit(a, c)
  {
  }

  /** Every valid card's text reads back as that card, so the rendering is injective. */
  lemma ParseCardString(c: Card)
    requires ValidCard(c)
    ensures ParseCard(CardString(c)) == Some(c)
  {
  }

  lemma CardStringExamples()
    ensures CardString(Card(1, Diamond)) == "A♦"
    ensures CardString(Card(3, Club)) == "3♣"
    ensures CardString(Card(10, Heart)) == "10♥"
    ensures CardString(Card(13, Spade)) == "K♠"
  {
  }
}
