/** Piles: a sequence of cards whose last element is the top. The three kinds
    share removeTop, getTop, size and the rendering, and differ only in which
    cards `add` accepts. */
module Piles {
  import opened Wrappers
  import opened Cards
  import Text

  datatype PileType = Cascade | Foundation | Open

  datatype Pile = Pile(kind: PileType, cards: seq<Card>)

  function Size(p: Pile): nat {
    |p.cards|
  }

  function Last(cards: seq<Card>): Card
    requires |cards| > 0
  {
    cards[|cards| - 1]
  }

  /** The top card, or None (Java's null) for an empty pile. */
  function Top(p: Pile): (r: Option<Card>)
    ensures r.None? <==> Size(p) == 0
    ensures r.Some? ==> r.value == Last(p.cards)
  {
    if |p.cards| == 0 then None else Some(p.cards[|p.cards| - 1])
  }

  /** The acceptance rule of each kind, as the pile interface documents it. */
  predicate Legal(kind: PileType, cards: seq<Card>, c: Card) {
    match kind
    case Cascade =>
      |cards| == 0 || (IsRed(c.suit) != IsRed(Last(cards).suit) && c.value == Last(cards).value - 1)
    case Foundation =>
      if |cards| == 0 then c.value == 1
      else c.suit == Last(cards).suit && c.value == Last(cards).value + 1
    case Open =>
      |cards| == 0
  }

  function AddFoundation(cards: seq<Card>, c: Card): (bool, seq<Card>)
  {
    if |cards| == 0 && c.value == 1 then (true, cards + [c])
    else if |cards| == 0 && c.value != 1 then (false, cards)
    else
      var top := cards[|cards| - 1];
      if OneGreater(c, top) && SameSuit(top, c) then (true, cards + [c]) else (false, cards)
  }

  function AddCascade(cards: seq<Card>, c: Card): (bool, seq<Card>)
  {
    if |cards| == 0 then (true, cards + [c])
    else
      var top := cards[|cards| - 1];
      if DifferentColor(top, c) && OneGreater(top, c) then (true, cards + [c]) else (false, cards)
  }

  function AddOpen(cards: seq<Card>, c: Card): (bool, seq<Card>)
  {
    if |cards| == 0 then (true, cards + [c]) else (false, cards)
  }

  /** add: true exactly when the kind's rule accepts c; then c is the new top
      above the unchanged old cards, otherwise the pile is left as it was. */
  function Add(p: Pile, c: Card): (r: (bool, Pile))
    ensures r.1.kind == p.kind
    ensures r.0 <==> Legal(p.kind, p.cards, c)
    ensures r.0 ==> r.1.cards == p.cards + [c] && Size(r.1) == Size(p) + 1 && Top(r.1) == Some(c)
    ensures !r.0 ==> r.1 == p
  {
    var (ok, cards) :=
      match p.kind
      case Foundation => AddFoundation(p.cards, c)
      case Cascade => AddCascade(p.cards, c)
      case Open => AddOpen(p.cards, c);
    (ok, Pile(p.kind, cards))
  }

  /** removeTop: false on an empty pile, which stays empty; otherwise true, and
      putting the old top back on the result gives the old pile. */
  function RemoveTop(p: Pile): (r: (bool, Pile))
    ensures r.1.kind == p.kind
    ensures r.0 <==> Size(p) > 0
    ensures !r.0 ==> r.1 == p
    ensures r.0 ==> r.1.cards + [Top(p).value] == p.cards && Size(r.1) == Size(p) - 1
  {
    if |p.cards| == 0 then (false, p)
    else (true, Pile(p.kind, p.cards[..|p.cards| - 1]))
  }

  /** Taking back an accepted card restores the pile. */
  lemma AddThenRemove(p: Pile, c: Card)
    requires Add(p, c).0
    ensures RemoveTop(Add(p, c).1) == (true, p)
  {
  }

  /** No pile accepts its own top card again, whatever its kind. */
  lemma OwnTopRejected(p: Pile)
    requires Size(p) > 0
    ensures !Add(p, Top(p).value).0
  {
  }

  /** Foundation: an ace of any suit starts it; afterwards only the next value of the same suit. */
  lemma FoundationRule(cards: seq<Card>, c: Card)
    ensures |cards| == 0 ==> (Add(Pile(Foundation, cards), c).0 <==> c.value == 1)
    ensures |cards| > 0 ==> (Add(Pile(Foundation, cards), c).0 <==> SameSuit(c, Last(cards)) && OneGreater(c, Last(cards)))
  {
  }

  /** Cascade: any card on an empty pile; otherwise a card of the other colour one below the top. */
  lemma CascadeRule(cards: seq<Card>, c: Card)
    ensures |cards| == 0 ==> Add(Pile(Cascade, cards), c).0
    ensures |cards| > 0 ==> (Add(Pile(Cascade, cards), c).0 <==> DifferentColor(Last(cards), c) && OneGreater(Last(cards), c))
  {
  }

  /** The foundation shape: one suit throughout and the card at position i has value i + 1. */
  predicate FoundationRun(cards: seq<Card>) {
    forall i :: 0 <= i < |cards| ==> cards[i].suit == cards[0].suit && cards[i].value == i + 1
  }

  lemma FoundationAddKeepsRun(cards: seq<Card>, c: Card)
    requires FoundationRun(cards)
    ensures FoundationRun(Add(Pile(Foundation, cards), c).1.cards)
  {
  }

  lemma FoundationRemoveKeepsRun(cards: seq<Card>)
    requires FoundationRun(cards)
    ensures FoundationRun(RemoveTop(Pile(Foundation, cards)).1.cards)
  {
  }

  /** A foundation of well-formed cards holds at most thirteen, and shows a king exactly when full. */
  lemma FoundationBounds(cards: seq<Card>)
    requires FoundationRun(cards)
    requires forall i :: 0 <= i < |cards| ==> ValidCard(cards[i])
    ensures |cards| <= 13
    ensures (Top(Pile(Foundation, cards)).Some? && Top(Pile(Foundation, cards)).value.value == 13) <==> |cards| == 13
  {
  }

  /** Open: capacity one, kept by add and removeTop. */
  lemma OpenCapacity(cards: seq<Card>, c: Card)
    requires |cards| <= 1
    ensures |Add(Pile(Open, cards), c).1.cards| <= 1
    ensures |RemoveTop(Pile(Open, cards)).1.cards| <= 1
    ensures |cards| == 1 ==> !Add(Pile(Open, cards), c).0
  {
  }

  /** Emptying an open pile makes it accept a card again. */
  lemma OpenReaccepts(p: Pile, c: Card)
    requires p.kind == Open && Size(p) == 1
    ensures !Add(p, c).0
    ensures Add(RemoveTop(p).1, c).0
  {
  }

  /** The rendering loop: " " before the first card, ", " before every later one. */
  function RenderRun(cards: seq<Card>): (r: string)
    requires |cards| > 0
    ensures |r| > 0 && r[0] == ' '
  {
    if |cards| == 1 then " " + CardString(cards[0])
    else RenderRun(cards[..|cards| - 1]) + ", " + CardString(cards[|cards| - 1])
  }

  /** toString of a pile: "" when empty, else " c1, c2, ..., cn". */
  function Render(cards: seq<Card>): (r: string)
    ensures r == "" <==> |cards| == 0
  {
    if |cards| == 0 then "" else RenderRun(cards)
  }

  /** One card as it appears in a rendering: its text after one space. */
  function Piece(c: Card): string
  {
    " " + CardString(c)
  }

  /** The pieces a rendering is made of, one per card. */
  function Pieces(cards: seq<Card>): seq<string>
  {
    seq(|cards|, i requires 0 <= i < |cards| => Piece(cards[i]))
  }

  /** The rendering is the pieces joined by commas. */
  lemma {:induction false} RenderIsJoin(cards: seq<Card>)
    requires |cards| > 0
    ensures Render(cards) == Text.Join(Pieces(cards), ',')
  {
    var n := |cards|;
    if n > 1 {
      var init := cards[..n - 1];
      RenderIsJoin(init);
      PiecesSnoc(cards);
      Text.JoinSnoc(Pieces(init), Piece(cards[n - 1]), ',');
      RenderSnoc(Text.Join(Pieces(init), ','), CardString(cards[n - 1]));
    }
  }

  lemma PiecesSnoc(cards: seq<Card>)
    requires |cards| > 0
    ensures Pieces(cards) == Pieces(cards[..|cards| - 1]) + [Piece(cards[|cards| - 1])]
  {
    var init := cards[..|cards| - 1];
    var joined := Pieces(init) + [Piece(cards[|cards| - 1])];
    assert |Pieces(cards)| == |joined|;
    forall i | 0 <= i < |cards| ensures Pieces(cards)[i] == joined[i] {
      if i < |init| {
        assert init[i] == cards[i];
      }
    }
  }

  lemma PiecesCons(cards: seq<Card>)
    requires |cards| > 0
    ensures Pieces(cards) == [Piece(cards[0])] + Pieces(cards[1..])
  {
  }

  /** The separator ", " before a card's text is the comma before its piece. */
  lemma RenderSnoc(joined: string, text: string)
    ensures joined + ", " + text == joined + [','] + (" " + text)
  {
  }

  /** A rendering is one line: it holds no newline. */
  lemma RenderPlain(cards: seq<Card>)
    ensures '\n' !in Render(cards)
  {
    if |cards| > 0 {
      RenderIsJoin(cards);
      var ps := Pieces(cards);
      forall i | 0 <= i < |ps| ensures '\n' !in ps[i] {
        CardStringPlain(cards[i]);
        assert ps[i] == Piece(cards[i]);
      }
      Text.JoinAvoids(ps, ',', '\n');
    }
  }

  /** Reads a pile rendering back into its cards. */
  function ParsePile(s: string): Option<seq<Card>>
  {
    if s == "" then Some([]) else ParsePieces(Text.Split(s, ','))
  }

  function ParsePieces(pieces: seq<string>): Option<seq<Card>>
  {
    if |pieces| == 0 then Some([])
    else
      var p := pieces[0];
      if |p| == 0 || p[0] != ' ' then None
      else
        var c := ParseCard(p[1..]);
        var rest := ParsePieces(pieces[1..]);
        if c.Some? && rest.Some? then Some([c.value] + rest.value) else None
  }

  lemma {:induction false} ParsePiecesOfCards(cards: seq<Card>)
    requires forall i :: 0 <= i < |cards| ==> ValidCard(cards[i])
    ensures ParsePieces(Pieces(cards)) == Some(cards)
  {
    if |cards| > 0 {
      var ps := Pieces(cards);
      PiecesCons(cards);
      assert ps[0][1..] == CardString(cards[0]);
      ParseCardString(cards[0]);
      ParsePiecesOfCards(cards[1..]);
      assert cards == [cards[0]] + cards[1..];
    }
  }

  /** Rendering a pile of well-formed cards loses nothing: it reads back as the same cards. */
  lemma RenderRoundTrip(cards: seq<Card>)
    requires forall i :: 0 <= i < |cards| ==> ValidCard(cards[i])
    ensures ParsePile(Render(cards)) == Some(cards)
  {
    if |cards| > 0 {
      RenderIsJoin(cards);
      var ps := Pieces(cards);
      forall i | 0 <= i < |ps| ensures ',' !in ps[i] {
        CardStringPlain(cards[i]);
        assert ps[i] == Piece(cards[i]);
      }
      Text.SplitJoin(ps, ',');
      ParsePiecesOfCards(cards);
    }
  }
}
