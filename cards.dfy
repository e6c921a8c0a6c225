/** Playing cards and the 52-card deck of the gin simulator.

    A card is a plain value: a rank (1 for the ace up to 13 for the king)
    and a suit letter taken from "SHDC". The deck is built rank by rank,
    each rank contributing one card per suit in the order S, H, D, C.
 */
module Cards {

  /** The suit letters, in the order the deck is built. */
  const SuitLetters: string := "SHDC"

  /** The lowest and the highest rank of the deck. */
  const LowRank: int := 1
  const HighRank: int := 13

  datatype Card = Card(rank: int, suit: char)

  /** A card that belongs to a standard deck. */
  predicate ValidCard(c: Card) {
    LowRank <= c.rank <= HighRank && c.suit in SuitLetters
  }

  /** No card occurs twice. */
  predicate Distinct(cards: seq<Card>) {
    forall i, j :: 0 <= i < j < |cards| ==> cards[i] != cards[j]
  }

  /** One card of the given rank for each suit letter, in order (the inner generator). */
  function SuitRow(rank: int, suits: string): (row: seq<Card>)
    ensures |row| == |suits|
    ensures forall k :: 0 <= k < |suits| ==> row[k] == Card(rank, suits[k])
  {
    if suits == [] then [] else [Card(rank, suits[0])] + SuitRow(rank, suits[1..])
  }

  /** The cards of ranks lo up to (but not including) hi, rank-major (the outer generator). */
  function DeckFrom(lo: int, hi: int): (cards: seq<Card>)
    ensures |cards| == if lo < hi then 4 * (hi - lo) else 0
    ensures forall i :: 0 <= i < |cards| ==> cards[i] == Card(lo + i / 4, SuitLetters[i % 4])
    decreases hi - lo
  {
    if lo >= hi then []
    else
      var row, rest := SuitRow(lo, SuitLetters), DeckFrom(lo + 1, hi);
      assert forall i :: 4 <= i < 4 + |rest| ==> (row + rest)[i] == rest[i - 4];
      assert forall i :: 4 <= i ==> (i - 4) / 4 == i / 4 - 1 && (i - 4) % 4 == i % 4;
      row + rest
  }

  /** The deck: ranks 1 to 13 crossed with the suits "SHDC". */
  const deck: seq<Card> := DeckFrom(LowRank, HighRank + 1)

  /** The position of a suit letter in "SHDC". */
  function SuitIndex(s: char): (k: nat)
    requires s in SuitLetters
    ensures k < |SuitLetters| && SuitLetters[k] == s
  {
    if s == 'S' then 0 else if s == 'H' then 1 else if s == 'D' then 2 else 3
  }

  /** Where a card of the standard deck sits in `deck`. */
  function DeckIndex(c: Card): (i: nat)
    requires ValidCard(c)
    ensures i < |deck| && deck[i] == c
  {
    var i := (c.rank - LowRank) * 4 + SuitIndex(c.suit);
    assert i / 4 == c.rank - LowRank && i % 4 == SuitIndex(c.suit);
    i
  }

  /** The deck has 52 cards; card i has rank i / 4 + 1 and the (i % 4)-th suit letter. */
  lemma DeckLayout()
    ensures |deck| == 52
    ensures forall i :: 0 <= i < |deck| ==> deck[i] == Card(i / 4 + 1, SuitLetters[i % 4])
  {
  }

  /** The deck holds exactly the valid cards. */
  lemma DeckMembers(c: Card)
    ensures c in deck <==> ValidCard(c)
  {
    if c in deck {
      var i :| 0 <= i < |deck| && deck[i] == c;
      assert c == Card(i / 4 + 1, SuitLetters[i % 4]);
    }
    if ValidCard(c) {
      assert deck[DeckIndex(c)] == c;
    }
  }

  /** Every valid card occurs in the deck at one position only. */
  lemma DeckOnce(c: Card, i: int)
    requires ValidCard(c)
    requires 0 <= i < |deck| && deck[i] == c
    ensures i == DeckIndex(c)
  {
  }

  /** No card is repeated in the deck. */
  lemma DeckDistinct()
    ensures Distinct(deck)
  {
  }

  /** A hand as the dealer makes it: ten different cards drawn from the deck. */
  predicate IsDealtHand(hand: seq<Card>) {
    |hand| == 10 && Distinct(hand) && forall c :: c in hand ==> c in deck
  }
}
