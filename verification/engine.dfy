/** The FreeCell engine: three lists of piles (foundations, opens, cascades)
    and a flag telling whether a game has begun. startGame deals a deck,
    move transfers one top card, isGameOver and getGameState observe. A call
    for which FreecellModel throws is a Failure here; the caller keeps the state
    it had, which is how "a rejected call changes nothing" reads in this model. */
module Engine {
  import opened Wrappers
  import opened Errors
  import opened Cards
  import opened Decks
  import opened Piles
  import Text

  datatype Game = Game(
    foundations: seq<seq<Card>>,
    opens: seq<seq<Card>>,
    cascades: seq<seq<Card>>,
    begun: bool)

  /** The state of a freshly constructed engine. */
  const Initial: Game := Game([], [], [], false)

  /** getDeck: the canonical deck, which is valid. */
  function GetDeck(): (r: seq<Card>)
    ensures ValidDeck(r)
    ensures forall i :: 0 <= i < |r| ==> r[i] == Card(i % 13 + 1, SuitAt(i / 13))
  {
    CanonicalDeckValid();
    CanonicalDeck()
  }

  /** typeToPiles: the list of piles of one type. */
  function TypeToPiles(g: Game, t: PileType): seq<seq<Card>>
  {
    match t
    case Cascade => g.cascades
    case Foundation => g.foundations
    case Open => g.opens
  }

  /** The game with pile i of type t replaced by cards. */
  function WithPile(g: Game, t: PileType, i: nat, cards: seq<Card>): (r: Game)
    requires i < |TypeToPiles(g, t)|
    ensures r.begun == g.begun
    ensures TypeToPiles(r, t) == TypeToPiles(g, t)[i := cards]
    ensures forall u :: u != t ==> TypeToPiles(r, u) == TypeToPiles(g, u)
  {
    match t
    case Cascade => g.(cascades := g.cascades[i := cards])
    case Foundation => g.(foundations := g.foundations[i := cards])
    case Open => g.(opens := g.opens[i := cards])
  }

  // ---------------------------------------------------------------------------
  // Cards held by piles

  /** The multiset of all cards in a list of piles. */
  function CardsIn(piles: seq<seq<Card>>): multiset<Card>
  {
    if |piles| == 0 then multiset{}
    else CardsIn(piles[..|piles| - 1]) + multiset(piles[|piles| - 1])
  }

  function AllCards(g: Game): multiset<Card>
  {
    CardsIn(g.foundations) + CardsIn(g.opens) + CardsIn(g.cascades)
  }

  lemma {:induction false} CardsInUpdate(piles: seq<seq<Card>>, k: nat, p: seq<Card>)
    requires k < |piles|
    ensures CardsIn(piles[k := p]) + multiset(piles[k]) == CardsIn(piles) + multiset(p)
  {
    var n := |piles|;
    var q := piles[k := p];
    var P, Q := piles[..n - 1], q[..n - 1];
    if k == n - 1 {
      assert Q == P;
    } else {
      assert Q == P[k := p];
      assert P[k] == piles[k];
      CardsInUpdate(P, k, p);
      assert CardsIn(Q) + multiset(piles[k]) == CardsIn(P) + multiset(p);
      assert CardsIn(q) == CardsIn(Q) + multiset(piles[n - 1]);
      assert CardsIn(piles) == CardsIn(P) + multiset(piles[n - 1]);
      forall x ensures (CardsIn(q) + multiset(piles[k]))[x] == (CardsIn(piles) + multiset(p))[x] {
        assert (CardsIn(Q) + multiset(piles[k]))[x] == (CardsIn(P) + multiset(p))[x];
      }
    }
  }

  /** n empty piles. */
  function Empties(n: nat): seq<seq<Card>>
  {
    seq(n, _ => [])
  }

  lemma {:induction false} CardsInOfEmpties(n: nat)
    ensures CardsIn(Empties(n)) == multiset{}
  {
    if n > 0 {
      assert Empties(n)[..n - 1] == Empties(n - 1);
      CardsInOfEmpties(n - 1);
    }
  }

  /** A list of piles holds no card only when every pile is empty. */
  lemma {:induction false} CardsInNone(piles: seq<seq<Card>>)
    requires |CardsIn(piles)| == 0
    ensures forall k :: 0 <= k < |piles| ==> piles[k] == []
  {
    var n := |piles|;
    if n > 0 {
      CardsInNone(piles[..n - 1]);
      assert forall k :: 0 <= k < n - 1 ==> piles[k] == piles[..n - 1][k];
    }
  }

  /** Piles of at most thirteen cards hold at most thirteen each in total, with
      equality only when every pile has exactly thirteen. */
  lemma {:induction false} CardsInAtMostThirteen(piles: seq<seq<Card>>)
    requires forall k :: 0 <= k < |piles| ==> |piles[k]| <= 13
    ensures |CardsIn(piles)| <= 13 * |piles|
    ensures |CardsIn(piles)| == 13 * |piles| ==> forall k :: 0 <= k < |piles| ==> |piles[k]| == 13
  {
    var n := |piles|;
    if n > 0 {
      var init := piles[..n - 1];
      assert forall k :: 0 <= k < n - 1 ==> init[k] == piles[k];
      CardsInAtMostThirteen(init);
    }
  }

  lemma {:induction false} CardsInAllThirteen(piles: seq<seq<Card>>)
    requires forall k :: 0 <= k < |piles| ==> |piles[k]| == 13
    ensures |CardsIn(piles)| == 13 * |piles|
  {
    var n := |piles|;
    if n > 0 {
      var init := piles[..n - 1];
      assert forall k :: 0 <= k < n - 1 ==> init[k] == piles[k];
      CardsInAllThirteen(init);
    }
  }

  /** Replacing one pile changes the game's cards by exactly the difference of the two piles. */
  lemma WithPileCards(g: Game, t: PileType, i: nat, cards: seq<Card>)
    requires i < |TypeToPiles(g, t)|
    ensures AllCards(WithPile(g, t, i, cards)) + multiset(TypeToPiles(g, t)[i]) == AllCards(g) + multiset(cards)
  {
    var h := WithPile(g, t, i, cards);
    CardsInUpdate(TypeToPiles(g, t), i, cards);
    assert TypeToPiles(h, t) == TypeToPiles(g, t)[i := cards];
    var before, after := multiset(TypeToPiles(g, t)[i]), multiset(cards);
    forall x ensures (AllCards(h) + before)[x] == (AllCards(g) + after)[x] {
      assert (CardsIn(TypeToPiles(h, t)) + before)[x] == (CardsIn(TypeToPiles(g, t)) + after)[x];
      match t
      case Cascade =>
      case Foundation =>
      case Open =>
    }
  }

  // ---------------------------------------------------------------------------
  // Dealing

  /** Cards k, k + n, k + 2n, ... of s, in order. */
  function Stride(s: seq<Card>, n: nat, k: nat): seq<Card>
    requires n > 0
    decreases |s| - k
  {
    if k >= |s| then [] else [s[k]] + Stride(s, n, k + n)
  }

  /** Position j of stride k is card k + j * n, and every such card is in the stride. */
  lemma {:induction false} StrideIndex(s: seq<Card>, n: nat, k: nat, j: nat)
    requires n > 0
    ensures j < |Stride(s, n, k)| <==> k + j * n < |s|
    ensures j < |Stride(s, n, k)| ==> Stride(s, n, k)[j] == s[k + j * n]
    decreases j
  {
    if k < |s| && j > 0 {
      StrideIndex(s, n, k + n, j - 1);
      assert k + n + (j - 1) * n == k + j * n;
    }
  }

  /** Euclidean division is unique: i = m * n + k with 0 <= k < n fixes quotient and remainder. */
  lemma DivModUnique(i: int, n: int, m: int, k: int)
    requires 0 < n && 0 <= k < n && i == m * n + k
    ensures i / n == m && i % n == k
  {
    var q, r := i / n, i % n;
    assert i == q * n + r && 0 <= r < n;
    assert (q - m) * n == k - r;
    if q > m {
      MulAtLeast(q - m, n);
    } else if q < m {
      MulAtLeast(m - q, n);
    }
  }

  lemma MulAtLeast(a: int, n: int)
    requires a >= 1 && n > 0
    ensures a * n >= n
  {
  }

  /** Column k receives card i exactly when k is i mod n. */
  lemma ModColumn(i: nat, n: nat, k: nat)
    requires 0 < n && k < n
    ensures (k <= i && (i - k) % n == 0) <==> k == i % n
  {
    var q, r := i / n, i % n;
    assert i == q * n + r;
    if k == r {
      DivModUnique(i - k, n, q, 0);
    }
    if k <= i && (i - k) % n == 0 {
      var m := (i - k) / n;
      assert i - k == m * n + 0;
      DivModUnique(i, n, m, k);
    }
  }

  /** Appending x to s extends stride k by x exactly when x's position |s| lies on it. */
  lemma {:induction false} StrideSnoc(s: seq<Card>, x: Card, n: nat, k: nat)
    requires n > 0
    ensures Stride(s + [x], n, k) == Stride(s, n, k) + (if k <= |s| && (|s| - k) % n == 0 then [x] else [])
    decreases |s| - k
  {
    var t := s + [x];
    if k < |s| {
      StrideSnoc(s, x, n, k + n);
      assert t[k] == s[k];
      var d := |s| - k;
      if k + n > |s| {
        DivModUnique(d, n, 0, d);
      } else {
        DivModUnique(d, n, (d - n) / n + 1, (d - n) % n);
      }
    } else if k == |s| {
      assert Stride(t, n, k + n) == [];
    }
  }

  /** The dealing loop: card i goes to the end of column i mod n. */
  function DealFrom(deck: seq<Card>, n: nat, i: nat, cols: seq<seq<Card>>): (r: seq<seq<Card>>)
    requires 0 < n && i <= |deck| && |cols| == n
    requires forall k :: 0 <= k < n ==> cols[k] == Stride(deck[..i], n, k)
    requires CardsIn(cols) == multiset(deck[..i])
    ensures |r| == n
    ensures forall k :: 0 <= k < n ==> r[k] == Stride(deck, n, k)
    ensures CardsIn(r) == multiset(deck)
    decreases |deck| - i
  {
    if i == |deck| then
      assert deck[..i] == deck;
      cols
    else
      var c := Clone(deck[i]);
      var next := cols[i % n := cols[i % n] + [c]];
      DealStep(deck, n, i, cols);
      DealFrom(deck, n, i + 1, next)
  }

  lemma DealStep(deck: seq<Card>, n: nat, i: nat, cols: seq<seq<Card>>)
    requires 0 < n && i < |deck| && |cols| == n
    requires forall k :: 0 <= k < n ==> cols[k] == Stride(deck[..i], n, k)
    requires CardsIn(cols) == multiset(deck[..i])
    ensures var next := cols[i % n := cols[i % n] + [deck[i]]];
      && (forall k :: 0 <= k < n ==> next[k] == Stride(deck[..i + 1], n, k))
      && CardsIn(next) == multiset(deck[..i + 1])
  {
    var m := i % n;
    var next := cols[m := cols[m] + [deck[i]]];
    forall k | 0 <= k < n ensures next[k] == Stride(deck[..i + 1], n, k) {
      DealColumn(deck, n, i, cols[k], k);
    }
    DealCards(deck, i, cols, m);
  }

  /** Appending card i to one column adds exactly that card to the dealt multiset. */
  lemma DealCards(deck: seq<Card>, i: nat, cols: seq<seq<Card>>, m: nat)
    requires i < |deck| && m < |cols|
    requires CardsIn(cols) == multiset(deck[..i])
    ensures CardsIn(cols[m := cols[m] + [deck[i]]]) == multiset(deck[..i + 1])
  {
    var col := cols[m];
    var next := cols[m := col + [deck[i]]];
    CardsInUpdate(cols, m, col + [deck[i]]);
    assert deck[..i + 1] == deck[..i] + [deck[i]];
    assert multiset(col + [deck[i]]) == multiset(col) + multiset{deck[i]};
    forall x ensures CardsIn(next)[x] == multiset(deck[..i + 1])[x] {
      assert (CardsIn(next) + multiset(col))[x] == (CardsIn(cols) + multiset(col + [deck[i]]))[x];
    }
  }

  /** One column after dealing card i. */
  lemma DealColumn(deck: seq<Card>, n: nat, i: nat, col: seq<Card>, k: nat)
    requires 0 < n && i < |deck| && k < n
    requires col == Stride(deck[..i], n, k)
    ensures (if k == i % n then col + [deck[i]] else col) == Stride(deck[..i + 1], n, k)
  {
    assert deck[..i + 1] == deck[..i] + [deck[i]];
    StrideSnoc(deck[..i], deck[i], n, k);
    ModColumn(i, n, k);
  }

  /** The round-robin deal into n cascades. */
  function Deal(deck: seq<Card>, n: nat): (r: seq<seq<Card>>)
    requires n > 0
    ensures |r| == n
    ensures forall k :: 0 <= k < n ==> r[k] == Stride(deck, n, k)
    ensures CardsIn(r) == multiset(deck)
  {
    CardsInOfEmpties(n);
    DealFrom(deck, n, 0, Empties(n))
  }

  /** Deck card i lands in cascade i mod n at position i div n. */
  lemma DealPosition(deck: seq<Card>, n: nat, i: nat)
    requires n > 0 && i < |deck|
    ensures i / n < |Deal(deck, n)[i % n]| && Deal(deck, n)[i % n][i / n] == deck[i]
  {
    assert i % n + (i / n) * n == i;
    StrideIndex(deck, n, i % n, i / n);
  }

  // ---------------------------------------------------------------------------
  // startGame

  /** startGame: the deck, then the cascade count, then the open count are
      checked; on success the (optionally shuffled) deck is dealt round-robin
      into the cascades and the foundations and opens start empty. */
  function StartGame(deck: Option<seq<Card>>, numCascades: int, numOpens: int,
                     shuffle: bool, draws: seq<int>): (r: Result<Game, Error>)
    requires DrawsFit(draws, DeckSize)
    ensures !ValidDeck(FromList(deck)) ==> r == Failure(InvalidDeck)
    ensures ValidDeck(FromList(deck)) && numCascades < 4 ==> r == Failure(TooFewCascades)
    ensures ValidDeck(FromList(deck)) && numCascades >= 4 && numOpens < 1 ==> r == Failure(TooFewOpens)
    ensures r.Success? <==> deck.Some? && ValidDeck(deck.value) && numCascades >= 4 && numOpens >= 1
    ensures r.Success? ==>
      && r.value.begun
      && |r.value.foundations| == 4 && (forall k :: 0 <= k < 4 ==> r.value.foundations[k] == [])
      && |r.value.opens| == numOpens && (forall k :: 0 <= k < numOpens ==> r.value.opens[k] == [])
      && |r.value.cascades| == numCascades
      && AllCards(r.value) == multiset(deck.value)
    ensures r.Success? ==>
      var dealt := if shuffle then Shuffle(deck.value, draws).1 else deck.value;
      forall k :: 0 <= k < numCascades ==> r.value.cascades[k] == Stride(dealt, numCascades, k)
    ensures r.Success? && !shuffle ==>
      forall k :: 0 <= k < numCascades ==> r.value.cascades[k] == Stride(deck.value, numCascades, k)
  {
    var myDeck := FromList(deck);
    if !ValidDeck(myDeck) then Failure(InvalidDeck)
    else if numCascades < 4 then Failure(TooFewCascades)
    else if numOpens < 1 then Failure(TooFewOpens)
    else
      var dealt := if shuffle then Shuffle(myDeck, draws).1 else myDeck;
      var g := Game(Empties(4), Empties(numOpens), Deal(dealt, numCascades), true);
      StartedCards(dealt, numCascades, numOpens);
      Success(g)
  }

  /** A freshly dealt game holds exactly the dealt cards. */
  lemma StartedCards(dealt: seq<Card>, numCascades: nat, numOpens: nat)
    requires numCascades > 0
    ensures AllCards(Game(Empties(4), Empties(numOpens), Deal(dealt, numCascades), true)) == multiset(dealt)
  {
    CardsInOfEmpties(4);
    CardsInOfEmpties(numOpens);
  }

  // ---------------------------------------------------------------------------
  // move

  /** What a successful move did: the source's top card now sits on the
      destination, the source lost exactly that card, and nothing else changed. */
  predicate MovedTop(g: Game, h: Game, st: PileType, si: nat, dt: PileType, di: nat)
  {
    && si < |TypeToPiles(g, st)| && di < |TypeToPiles(g, dt)|
    && !(st == dt && si == di)
    && h.begun == g.begun
    && (forall t :: |TypeToPiles(h, t)| == |TypeToPiles(g, t)|)
    && (forall t, j :: 0 <= j < |TypeToPiles(g, t)| && !(t == st && j == si) && !(t == dt && j == di) ==>
          TypeToPiles(h, t)[j] == TypeToPiles(g, t)[j])
    && (var src := TypeToPiles(g, st)[si];
        && |src| > 0
        && TypeToPiles(h, dt)[di] == TypeToPiles(g, dt)[di] + [Last(src)]
        && TypeToPiles(h, st)[si] == src[..|src| - 1])
  }

  /** The part of move after the argument checks: add to the destination
      first, and only if it accepted, remove the top of the source. */
  function Transfer(g: Game, st: PileType, si: nat, dt: PileType, di: nat): (r: Result<Game, Error>)
    requires si < |TypeToPiles(g, st)| && di < |TypeToPiles(g, dt)|
    requires |TypeToPiles(g, st)[si]| > 0
    ensures r.Success? <==> Legal(dt, TypeToPiles(g, dt)[di], Last(TypeToPiles(g, st)[si]))
    ensures r.Failure? ==> r.error == IllegalMove
    ensures r.Success? ==> MovedTop(g, r.value, st, si, dt, di)
    ensures r.Success? ==> AllCards(r.value) == AllCards(g)
  {
    var toMove := Top(Pile(st, TypeToPiles(g, st)[si])).value;
    var (added, dst) := Add(Pile(dt, TypeToPiles(g, dt)[di]), toMove);
    if added then
      var g1 := WithPile(g, dt, di, dst.cards);
      OwnTopRejected(Pile(st, TypeToPiles(g, st)[si]));
      var (_, src) := RemoveTop(Pile(st, TypeToPiles(g1, st)[si]));
      MoveCards(g, st, si, dt, di, toMove, g1, src.cards);
      MovedFrame(g, st, si, dt, di, toMove, g1, src.cards);
      Success(WithPile(g1, st, si, src.cards))
    else
      Failure(IllegalMove)
  }

  /** move: checks, in order, that a game has begun, that both pile types are
      present, that both pile indices are in range, that the source is not
      empty and that cardIndex is its top; then transfers the top card. */
  function Move(g: Game, source: Option<PileType>, pileNumber: int, cardIndex: int,
                destination: Option<PileType>, destPileNumber: int): (r: Result<Game, Error>)
    ensures !g.begun ==> r == Failure(NotBegun)
    ensures g.begun && source.None? ==> r == Failure(NullSourceType)
    ensures g.begun && source.Some? && destination.None? ==> r == Failure(NullDestinationType)
    ensures g.begun && source.Some? && destination.Some? ==>
      var src, dst := TypeToPiles(g, source.value), TypeToPiles(g, destination.value);
      && (!(0 <= pileNumber < |src|) ==> r == Failure(BadPileNumber))
      && (0 <= pileNumber < |src| && !(0 <= destPileNumber < |dst|) ==> r == Failure(BadDestinationPileNumber))
      && (0 <= pileNumber < |src| && 0 <= destPileNumber < |dst| ==>
            && (|src[pileNumber]| == 0 ==> r == Failure(EmptyPile))
            && (|src[pileNumber]| > 0 && cardIndex != |src[pileNumber]| - 1 ==> r == Failure(BadCardIndex))
            && (|src[pileNumber]| > 0 && cardIndex == |src[pileNumber]| - 1 ==>
                  && (r.Success? <==> Legal(destination.value, dst[destPileNumber], Last(src[pileNumber])))
                  && (r.Failure? ==> r.error == IllegalMove)))
    ensures r.Success? ==>
      && source.Some? && destination.Some? && pileNumber >= 0 && destPileNumber >= 0
      && MovedTop(g, r.value, source.value, pileNumber, destination.value, destPileNumber)
      && AllCards(r.value) == AllCards(g)
  {
    if !g.begun then Failure(NotBegun)
    else if source.None? then Failure(NullSourceType)
    else if destination.None? then Failure(NullDestinationType)
    else
      var sourceList := TypeToPiles(g, source.value);
      var destinationList := TypeToPiles(g, destination.value);
      if pileNumber < 0 || pileNumber > |sourceList| - 1 then Failure(BadPileNumber)
      else if destPileNumber < 0 || destPileNumber > |destinationList| - 1 then Failure(BadDestinationPileNumber)
      else
        var sourcePile := Pile(source.value, sourceList[pileNumber]);
        if Size(sourcePile) == 0 then Failure(EmptyPile)
        else if cardIndex != Size(sourcePile) - 1 then Failure(BadCardIndex)
        else Transfer(g, source.value, pileNumber, destination.value, destPileNumber)
  }

  /** Moving a pile's top card onto the same pile is always an illegal move. */
  lemma MoveOntoItselfRejected(g: Game, t: PileType, i: int, cardIndex: int)
    ensures Move(g, Some(t), i, cardIndex, Some(t), i).Failure?
  {
  }

  /** Adding the moved card to the destination and taking it off the source
      leaves the game's multiset of cards as it was. */
  lemma MoveCards(g: Game, st: PileType, si: nat, dt: PileType, di: nat, c: Card, g1: Game, rest: seq<Card>)
    requires si < |TypeToPiles(g, st)| && di < |TypeToPiles(g, dt)| && !(st == dt && si == di)
    requires TypeToPiles(g, st)[si] == rest + [c]
    requires g1 == WithPile(g, dt, di, TypeToPiles(g, dt)[di] + [c])
    ensures si < |TypeToPiles(g1, st)|
    ensures AllCards(WithPile(g1, st, si, rest)) == AllCards(g)
  {
    var src := TypeToPiles(g, st)[si];
    WithPileCards(g, dt, di, TypeToPiles(g, dt)[di] + [c]);
    assert TypeToPiles(g1, st)[si] == src;
    WithPileCards(g1, st, si, rest);
    assert multiset(src) == multiset(rest) + multiset{c};
    var dst := TypeToPiles(g, dt)[di];
    assert multiset(dst + [c]) == multiset(dst) + multiset{c};
    var h := WithPile(g1, st, si, rest);
    forall x ensures AllCards(h)[x] == AllCards(g)[x] {
      assert (AllCards(g1) + multiset(dst))[x] == (AllCards(g) + multiset(dst + [c]))[x];
      assert (AllCards(h) + multiset(src))[x] == (AllCards(g1) + multiset(rest))[x];
    }
  }

  /** The two pile updates of a move touch only its source and destination. */
  lemma MovedFrame(g: Game, st: PileType, si: nat, dt: PileType, di: nat, c: Card, g1: Game, rest: seq<Card>)
    requires si < |TypeToPiles(g, st)| && di < |TypeToPiles(g, dt)| && !(st == dt && si == di)
    requires TypeToPiles(g, st)[si] == rest + [c]
    requires g1 == WithPile(g, dt, di, TypeToPiles(g, dt)[di] + [c])
    ensures si < |TypeToPiles(g1, st)|
    ensures MovedTop(g, WithPile(g1, st, si, rest), st, si, dt, di)
  {
    var src := TypeToPiles(g, st)[si];
    assert TypeToPiles(g1, st)[si] == src;
    assert Last(src) == c && src[..|src| - 1] == rest;
  }

  // ---------------------------------------------------------------------------
  // isGameOver

  /** The loop over the foundations: each must show a king on top. */
  function AllKings(fs: seq<seq<Card>>): (r: bool)
    ensures r <==> forall k :: 0 <= k < |fs| ==> |fs[k]| > 0 && Last(fs[k]).value == 13
  {
    if |fs| == 0 then true
    else
      var top := Top(Pile(Foundation, fs[0]));
      if top.None? || top.value.value != 13 then false
      else
        assert forall k :: 1 <= k < |fs| ==> fs[1..][k - 1] == fs[k];
        AllKings(fs[1..])
  }

  /** isGameOver: false before any start; afterwards every foundation shows a king. */
  function IsGameOver(g: Game): (r: bool)
    ensures r <==> g.begun && forall k :: 0 <= k < |g.foundations| ==> |g.foundations[k]| > 0 && Last(g.foundations[k]).value == 13
  {
    g.begun && AllKings(g.foundations)
  }

  // ---------------------------------------------------------------------------
  // The invariant of every state the engine can reach

  /** Before a start the engine is in its initial state; afterwards there are four
      foundations, each an ace-up run of one suit, at least one open pile of at most
      one card, at least four cascades, and the 52 cards of a valid deck, each once. */
  ghost predicate Inv(g: Game) {
    if !g.begun then g == Initial
    else
      && |g.foundations| == 4 && |g.opens| >= 1 && |g.cascades| >= 4
      && (forall k :: 0 <= k < |g.foundations| ==> FoundationRun(g.foundations[k]))
      && (forall k :: 0 <= k < |g.opens| ==> |g.opens[k]| <= 1)
      && |AllCards(g)| == DeckSize
      && (forall c :: AllCards(g)[c] <= 1)
      && (forall c :: c in AllCards(g) ==> ValidCard(c))
  }

  lemma InitialInv()
    ensures Inv(Initial)
    ensures !IsGameOver(Initial)
  {
  }

  lemma StartGameInv(deck: Option<seq<Card>>, numCascades: int, numOpens: int, shuffle: bool, draws: seq<int>)
    requires DrawsFit(draws, DeckSize)
    requires StartGame(deck, numCascades, numOpens, shuffle, draws).Success?
    ensures Inv(StartGame(deck, numCascades, numOpens, shuffle, draws).value)
  {
    var g := StartGame(deck, numCascades, numOpens, shuffle, draws).value;
    var d := deck.value;
    NoDuplicatesMultiset(d);
    assert |AllCards(g)| == |multiset(d)| == |d|;
    forall c | c in AllCards(g) ensures ValidCard(c) {
      assert c in multiset(d);
      var j :| 0 <= j < |d| && d[j] == c;
    }
  }

  lemma MoveInv(g: Game, source: Option<PileType>, pileNumber: int, cardIndex: int,
                destination: Option<PileType>, destPileNumber: int)
    requires Inv(g)
    ensures var r := Move(g, source, pileNumber, cardIndex, destination, destPileNumber);
      r.Success? ==> Inv(r.value)
  {
    var r := Move(g, source, pileNumber, cardIndex, destination, destPileNumber);
    if r.Success? {
      var h := r.value;
      var st, si, dt, di := source.value, pileNumber as nat, destination.value, destPileNumber as nat;
      assert MovedTop(g, h, st, si, dt, di);
      assert AllCards(h) == AllCards(g);
      var src := TypeToPiles(g, st)[si];
      assert Legal(dt, TypeToPiles(g, dt)[di], Last(src));
      MovedTopInv(g, h, st, si, dt, di);
    }
  }

  /** The invariant survives any accepted transfer of one top card. */
  lemma MovedTopInv(g: Game, h: Game, st: PileType, si: nat, dt: PileType, di: nat)
    requires Inv(g) && g.begun
    requires MovedTop(g, h, st, si, dt, di)
    requires AllCards(h) == AllCards(g)
    requires Legal(dt, TypeToPiles(g, dt)[di], Last(TypeToPiles(g, st)[si]))
    ensures Inv(h)
  {
    assert |h.foundations| == |g.foundations| && |h.opens| == |g.opens| && |h.cascades| == |g.cascades| by {
      assert |TypeToPiles(h, Foundation)| == |TypeToPiles(g, Foundation)|;
      assert |TypeToPiles(h, Open)| == |TypeToPiles(g, Open)|;
      assert |TypeToPiles(h, Cascade)| == |TypeToPiles(g, Cascade)|;
    }
    forall k | 0 <= k < |h.foundations| ensures FoundationRun(h.foundations[k]) {
      FoundationAfterMove(g, h, st, si, dt, di, k);
    }
    forall k | 0 <= k < |h.opens| ensures |h.opens[k]| <= 1 {
      OpenAfterMove(g, h, st, si, dt, di, k);
    }
  }

  lemma FoundationAfterMove(g: Game, h: Game, st: PileType, si: nat, dt: PileType, di: nat, k: nat)
    requires MovedTop(g, h, st, si, dt, di)
    requires Legal(dt, TypeToPiles(g, dt)[di], Last(TypeToPiles(g, st)[si]))
    requires k < |g.foundations| && FoundationRun(g.foundations[k])
    ensures k < |h.foundations| && FoundationRun(h.foundations[k])
  {
    var src := TypeToPiles(g, st)[si];
    var dst := TypeToPiles(g, dt)[di];
    assert |TypeToPiles(h, Foundation)| == |TypeToPiles(g, Foundation)|;
    assert h.foundations[k] == TypeToPiles(h, Foundation)[k];
    assert g.foundations[k] == TypeToPiles(g, Foundation)[k];
    if dt == Foundation && k == di {
      FoundationAddKeepsRun(dst, Last(src));
    } else if st == Foundation && k == si {
      FoundationRemoveKeepsRun(src);
    }
  }

  lemma OpenAfterMove(g: Game, h: Game, st: PileType, si: nat, dt: PileType, di: nat, k: nat)
    requires MovedTop(g, h, st, si, dt, di)
    requires Legal(dt, TypeToPiles(g, dt)[di], Last(TypeToPiles(g, st)[si]))
    requires k < |g.opens| && |g.opens[k]| <= 1
    ensures k < |h.opens| && |h.opens[k]| <= 1
  {
    assert |TypeToPiles(h, Open)| == |TypeToPiles(g, Open)|;
    assert h.opens[k] == TypeToPiles(h, Open)[k];
    assert g.opens[k] == TypeToPiles(g, Open)[k];
  }

  /** In a reachable game, isGameOver holds exactly when the foundations hold all
      52 cards, thirteen each, and then every open pile and cascade is empty. */
  lemma GameOverMeansAllOnFoundations(g: Game)
    requires Inv(g) && g.begun
    ensures IsGameOver(g) <==> |CardsIn(g.foundations)| == DeckSize
    ensures IsGameOver(g) <==> forall k :: 0 <= k < 4 ==> |g.foundations[k]| == 13
    ensures IsGameOver(g) ==>
      && (forall k :: 0 <= k < |g.opens| ==> g.opens[k] == [])
      && (forall k :: 0 <= k < |g.cascades| ==> g.cascades[k] == [])
  {
    var fs := g.foundations;
    forall k | 0 <= k < 4
      ensures |fs[k]| <= 13
      ensures (|fs[k]| > 0 && Last(fs[k]).value == 13) <==> |fs[k]| == 13
    {
      forall i | 0 <= i < |fs[k]| ensures ValidCard(fs[k][i]) {
        CardInPiles(fs, k, i);
      }
      FoundationBounds(fs[k]);
    }
    CardsInAtMostThirteen(fs);
    if forall k :: 0 <= k < 4 ==> |fs[k]| == 13 {
      CardsInAllThirteen(fs);
      assert |CardsIn(g.opens)| + |CardsIn(g.cascades)| == 0;
      CardsInNone(g.opens);
      CardsInNone(g.cascades);
    }
  }

  /** Every card of a pile is among the cards of its list. */
  lemma {:induction false} CardInPiles(piles: seq<seq<Card>>, k: nat, i: nat)
    requires k < |piles| && i < |piles[k]|
    ensures piles[k][i] in CardsIn(piles)
  {
    var n := |piles|;
    if k < n - 1 {
      assert piles[..n - 1][k] == piles[k];
      CardInPiles(piles[..n - 1], k, i);
    }
  }

  // ---------------------------------------------------------------------------
  // getGameState

  /** One line of the state text: tag, 1-based number, colon, pile rendering. */
  function Line(tag: char, i: nat, cards: seq<Card>): string
  {
    [tag] + Text.NatToDecimal(i + 1) + ":" + Render(cards)
  }

  function Lines(tag: char, piles: seq<seq<Card>>): seq<string>
  {
    seq(|piles|, i requires 0 <= i < |piles| => Line(tag, i, piles[i]))
  }

  /** Foundation lines, then open lines, then cascade lines. */
  function StateLines(g: Game): seq<string>
  {
    Lines('F', g.foundations) + Lines('O', g.opens) + Lines('C', g.cascades)
  }

  /** Each line followed by a newline, as the builder appends them. */
  function Terminated(lines: seq<string>): string
  {
    if |lines| == 0 then "" else lines[0] + "\n" + Terminated(lines[1..])
  }

  lemma {:induction false} TerminatedIsJoin(lines: seq<string>)
    requires |lines| > 0
    ensures Terminated(lines) == Text.Join(lines, '\n') + "\n"
  {
    if |lines| > 1 {
      TerminatedIsJoin(lines[1..]);
    }
  }

  /** getGameState: "" before any start; afterwards the lines joined by single
      newlines, with no newline after the last, and splitting at the newlines
      gives back exactly the lines. */
  function GetGameState(g: Game): (r: string)
    requires g.begun ==> |g.foundations| + |g.opens| + |g.cascades| > 0
    ensures !g.begun ==> r == ""
    ensures g.begun ==> r == Text.Join(StateLines(g), '\n')
    ensures g.begun ==> Text.Split(r, '\n') == StateLines(g)
  {
    if !g.begun then ""
    else
      var lines := StateLines(g);
      var s := Terminated(lines);
      TerminatedIsJoin(lines);
      LinesAvoidNewline(g);
      Text.SplitJoin(lines, '\n');
      s[..|s| - 1]
  }

  lemma LinesAvoidNewline(g: Game)
    ensures forall i :: 0 <= i < |StateLines(g)| ==> '\n' !in StateLines(g)[i]
  {
    LabelledLinesAvoidNewline('F', g.foundations);
    LabelledLinesAvoidNewline('O', g.opens);
    LabelledLinesAvoidNewline('C', g.cascades);
  }

  lemma LabelledLinesAvoidNewline(tag: char, piles: seq<seq<Card>>)
    requires tag != '\n'
    ensures forall i :: 0 <= i < |Lines(tag, piles)| ==> '\n' !in Lines(tag, piles)[i]
  {
    forall i | 0 <= i < |piles| ensures '\n' !in Line(tag, i, piles[i]) {
      var digits := Text.NatToDecimal(i + 1);
      assert forall j :: 0 <= j < |digits| ==> Text.IsDigit(digits[j]);
      RenderPlain(piles[i]);
      assert Line(tag, i, piles[i]) == [tag] + digits + ":" + Render(piles[i]);
    }
  }

  /** Every state the engine can reach can be rendered. */
  lemma InvRenders(g: Game)
    requires Inv(g)
    ensures g.begun ==> |g.foundations| + |g.opens| + |g.cascades| > 0
  {
  }

  // ---------------------------------------------------------------------------
  // Scenarios

  /** Draws for a start that does not shuffle; any in-range draws would do. */
  function ZeroDraws(): (r: seq<int>)
    ensures DrawsFit(r, DeckSize)
  {
    seq(DeckSize, _ => 0)
  }

  /** 52 cascades and 52 opens on the unshuffled default deck: each cascade
      holds one card in deck order and every other pile is empty; moving the
      first cascade's card to the first open pile shows it there instead. */
  lemma OneCardPerCascade()
    ensures var r := StartGame(Some(GetDeck()), 52, 52, false, ZeroDraws());
      && r.Success?
      && StateLines(r.value)[0] == "F1:"
      && StateLines(r.value)[4] == "O1:"
      && StateLines(r.value)[56] == "C1: A♦"
      && StateLines(r.value)[57] == "C2: 2♦"
      && var m := Move(r.value, Some(Cascade), 0, 0, Some(Open), 0);
         && m.Success?
         && StateLines(m.value)[4] == "O1: A♦"
         && StateLines(m.value)[56] == "C1:"
  {
    var r := StartGame(Some(GetDeck()), 52, 52, false, ZeroDraws());
    OneCardPerCascadeDeal();
    var g := r.value;
    LineExamples();
    StateLinesAt(g);
    MoveFirstCard(g);
    StateLinesAt(Move(g, Some(Cascade), 0, 0, Some(Open), 0).value);
  }

  /** Moving a lone ace from the first cascade to an empty first open pile. */
  lemma MoveFirstCard(g: Game)
    requires g.begun && |g.foundations| == 4 && |g.opens| == 52 && |g.cascades| == 52
    requires g.cascades[0] == [Card(1, Diamond)] && g.opens[0] == []
    ensures var m := Move(g, Some(Cascade), 0, 0, Some(Open), 0);
      && m.Success?
      && |m.value.foundations| == 4 && |m.value.opens| == 52 && |m.value.cascades| == 52
      && m.value.opens[0] == [Card(1, Diamond)]
      && m.value.cascades[0] == []
  {
  }

  lemma OneCardPerCascadeDeal()
    ensures var r := StartGame(Some(GetDeck()), 52, 52, false, ZeroDraws());
      && r.Success?
      && r.value.begun
      && |r.value.foundations| == 4 && |r.value.opens| == 52 && |r.value.cascades| == 52
      && r.value.foundations[0] == [] && r.value.opens[0] == []
      && r.value.cascades[0] == [Card(1, Diamond)]
      && r.value.cascades[1] == [Card(2, Diamond)]
  {
    var d := GetDeck();
    assert Stride(d, 52, 0) == [d[0]] + Stride(d, 52, 52);
    assert Stride(d, 52, 1) == [d[1]] + Stride(d, 52, 53);
  }

  lemma LineExamples()
    ensures Line('F', 0, []) == "F1:"
    ensures Line('O', 0, []) == "O1:"
    ensures Line('C', 0, []) == "C1:"
    ensures Line('O', 0, [Card(1, Diamond)]) == "O1: A♦"
    ensures Line('C', 0, [Card(1, Diamond)]) == "C1: A♦"
    ensures Line('C', 1, [Card(2, Diamond)]) == "C2: 2♦"
  {
  }

  /** Where the first foundation, open and cascade lines sit. */
  lemma StateLinesAt(g: Game)
    requires |g.foundations| == 4 && |g.opens| == 52 && |g.cascades| == 52
    ensures StateLines(g)[0] == Line('F', 0, g.foundations[0])
    ensures StateLines(g)[4] == Line('O', 0, g.opens[0])
    ensures StateLines(g)[56] == Line('C', 0, g.cascades[0])
    ensures StateLines(g)[57] == Line('C', 1, g.cascades[1])
  {
  }

  /** Dealing stores cascades without the cascade rule: on four cascades the
      first one starts A♦, 5♦, which its own add would never have accepted. */
  lemma DealIgnoresCascadeRule()
    ensures var r := StartGame(Some(GetDeck()), 4, 1, false, ZeroDraws());
      && r.Success?
      && |r.value.cascades[0]| >= 2
      && r.value.cascades[0][..2] == [Card(1, Diamond), Card(5, Diamond)]
      && !Add(Pile(Cascade, [Card(1, Diamond)]), Card(5, Diamond)).0
  {
    var d := GetDeck();
    assert d[0] == Card(1, Diamond) && d[4] == Card(5, Diamond);
    StrideHead(d, 4);
  }

  lemma StrideHead(d: seq<Card>, n: nat)
    requires 0 < n && 2 * n <= |d|
    ensures |Stride(d, n, 0)| >= 2 && Stride(d, n, 0)[..2] == [d[0], d[n]]
  {
  }
}
