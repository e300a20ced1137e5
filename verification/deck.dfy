/** The 52-card deck: the canonical ordered deck, the copying list constructor,
    bounded indexing, the validity check and the shuffle. */
module Decks {
  import opened Wrappers
  import opened Errors
  import opened Cards

  const DeckSize: nat := 52

  /** Suit of the k-th block of thirteen in the canonical deck. */
  function SuitAt(k: nat): Suit
    requires k < 4
  {
    [Diamond, Club, Heart, Spade][k]
  }

  /** Values 1..13 of one suit, in ascending order. */
  function SuitRun(s: Suit): seq<Card>
  {
    seq(13, i => Card(i + 1, s))
  }

  /** The default deck: all diamonds, then clubs, hearts and spades, each ace to king. */
  function CanonicalDeck(): (r: seq<Card>)
    ensures |r| == DeckSize
    ensures forall i :: 0 <= i < DeckSize ==> r[i] == Card(i % 13 + 1, SuitAt(i / 13))
  {
    var r := SuitRun(Diamond) + SuitRun(Club) + SuitRun(Heart) + SuitRun(Spade);
    assert forall i :: 0 <= i < 13 ==> r[i] == Card(i + 1, Diamond);
    assert forall i :: 13 <= i < 26 ==> r[i] == Card(i - 13 + 1, Club);
    assert forall i :: 26 <= i < 39 ==> r[i] == Card(i - 26 + 1, Heart);
    assert forall i :: 39 <= i < 52 ==> r[i] == Card(i - 39 + 1, Spade);
    r
  }

  /** The list constructor: a copy of the given cards in order; a null list gives an empty deck. */
  function FromList(cards: Option<seq<Card>>): (r: seq<Card>)
    ensures cards.Some? ==> r == cards.value
    ensures cards.None? ==> r == [] && !ValidDeck(r)
  {
    if cards.None? then [] else cards.value
  }

  predicate NoDuplicates(s: seq<Card>) {
    forall i, j :: 0 <= i < j < |s| ==> s[i] != s[j]
  }

  /** The documented validity rule: 52 cards, no duplicates, every value in 1..13.
      (The suit cannot be null in this model.) */
  predicate ValidDeck(d: seq<Card>) {
    && |d| == DeckSize
    && NoDuplicates(d)
    && forall i :: 0 <= i < |d| ==> ValidCard(d[i])
  }

  /** get: only indices 0..51 are accepted; inside that range a list shorter than
      the index throws the list's own out-of-bounds error. */
  function Get(deck: seq<Card>, index: int): (r: Result<Card, Error>)
    ensures r.Success? <==> 0 <= index <= 51 && index < |deck|
    ensures r.Success? ==> r.value == deck[index]
    ensures (index < 0 || index > 51) ==> r == Failure(BadDeckIndex)
    ensures 0 <= index <= 51 && index >= |deck| ==> r == Failure(IndexOutOfBounds)
  {
    if index < 0 || index > 51 then Failure(BadDeckIndex)
    else if index >= |deck| then Failure(IndexOutOfBounds)
    else Success(deck[index])
  }

  /** isValidDeck as written: a size check, then one pass that remembers the
      cards seen so far and stops at the first repeat or ill-formed card. */
  method IsValidDeck(deck: seq<Card>) returns (r: bool)
    ensures r <==> ValidDeck(deck)
  {
    if |deck| != DeckSize {
      return false;
    }
    var memo: set<Card> := {};
    var i := 0;
    while i < |deck|
      invariant 0 <= i <= |deck|
      invariant memo == set j | 0 <= j < i :: deck[j]
      invariant NoDuplicates(deck[..i])
      invariant forall j :: 0 <= j < i ==> ValidCard(deck[j])
    {
      var c := deck[i];
      if c in memo {
        return false;
      } else if c.value < 1 || c.value > 13 {
        return false;
      }
      memo := memo + {c};
      i := i + 1;
    }
    assert deck[..i] == deck;
    return true;
  }

  /** The random draws of one shuffle: the m-th draw is an index into the
      n - m cards not yet taken, as `(int) (Math.random() * i)` guarantees. */
  predicate DrawsFit(draws: seq<int>, n: nat) {
    |draws| == n && forall m :: 0 <= m < n ==> 0 <= draws[m] < n - m
  }

  /** The shuffle loop: repeatedly take the card at the drawn index out of the
      remaining cards and append it to the new deck. */
  function Draw(rest: seq<Card>, draws: seq<int>): (r: seq<Card>)
    requires DrawsFit(draws, |rest|)
    ensures multiset(r) == multiset(rest)
    decreases |rest|
  {
    if |rest| == 0 then []
    else
      var k := draws[0];
      assert rest == rest[..k] + [rest[k]] + rest[k + 1..];
      [rest[k]] + Draw(rest[..k] + rest[k + 1..], draws[1..])
  }

  /** shuffle: an invalid deck is left as it is and false is returned; a valid deck
      is replaced by a permutation of itself and the validity of the result returned. */
  function Shuffle(deck: seq<Card>, draws: seq<int>): (r: (bool, seq<Card>))
    requires DrawsFit(draws, DeckSize)
    ensures !ValidDeck(deck) ==> r == (false, deck)
    ensures ValidDeck(deck) ==> r.0 && multiset(r.1) == multiset(deck) && ValidDeck(r.1)
  {
    if !ValidDeck(deck) then (false, deck)
    else
      var shuffled := Draw(deck, draws);
      PermutationKeepsValid(deck, shuffled);
      (ValidDeck(shuffled), shuffled)
  }

  /** A sequence without duplicates holds each card at most once in its multiset. */
  lemma {:induction false} DistinctMultiplicity(s: seq<Card>)
    requires NoDuplicates(s)
    ensures forall c :: multiset(s)[c] <= 1
  {
    if |s| > 0 {
      var h, t := s[0], s[1..];
      assert s == [h] + t;
      assert NoDuplicates(t) by {
        forall i, j | 0 <= i < j < |t| ensures t[i] != t[j] {
          assert t[i] == s[i + 1] && t[j] == s[j + 1];
        }
      }
      DistinctMultiplicity(t);
      assert multiset(t)[h] == 0;
      forall c ensures multiset(s)[c] <= 1 {
        assert multiset(s)[c] == multiset(t)[c] + multiset([h])[c];
      }
    }
  }

  /** A repeated card occurs at least twice in the multiset. */
  lemma RepeatMultiplicity(s: seq<Card>, i: nat, j: nat)
    requires i < j < |s| && s[i] == s[j]
    ensures multiset(s)[s[i]] >= 2
  {
    assert s == s[..j] + s[j..];
    assert s[i] in s[..j];
    assert s[j] in s[j..];
    assert multiset(s)[s[i]] == multiset(s[..j])[s[i]] + multiset(s[j..])[s[i]];
  }

  /** A sequence has no duplicates exactly when no card occurs twice in its multiset. */
  lemma NoDuplicatesMultiset(s: seq<Card>)
    ensures NoDuplicates(s) <==> forall c :: multiset(s)[c] <= 1
  {
    if NoDuplicates(s) {
      DistinctMultiplicity(s);
    } else {
      var i, j :| 0 <= i < j < |s| && s[i] == s[j];
      RepeatMultiplicity(s, i, j);
    }
  }

  /** Any permutation of a valid deck is a valid deck. */
  lemma PermutationKeepsValid(a: seq<Card>, b: seq<Card>)
    requires ValidDeck(a)
    requires multiset(a) == multiset(b)
    ensures ValidDeck(b)
  {
    assert |b| == |multiset(b)| == |multiset(a)| == |a|;
    NoDuplicatesMultiset(a);
    NoDuplicatesMultiset(b);
    forall i | 0 <= i < |b| ensures ValidCard(b[i]) {
      assert b[i] in multiset(a);
      var j :| 0 <= j < |a| && a[j] == b[i];
    }
  }

  /** The default deck satisfies the validity rule. */
  lemma CanonicalDeckValid()
    ensures ValidDeck(CanonicalDeck())
  {
  }

  lemma CanonicalDeckExamples()
    ensures Get(CanonicalDeck(), 0) == Success(Card(1, Diamond))
    ensures Get(CanonicalDeck(), 1) == Success(Card(2, Diamond))
    ensures Get(CanonicalDeck(), 51) == Success(Card(13, Spade))
    ensures Get(CanonicalDeck(), 52) == Failure(BadDeckIndex)
    ensures Get(CanonicalDeck(), 53) == Failure(BadDeckIndex)
  {
  }
}
