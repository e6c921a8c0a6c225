/** Counting the hands that hold three or more cards of one rank.

    `TripletFraction` walks a batch of hands; for each hand it tallies the
    ranks in a counter (a map from rank to number of cards) and counts the
    hand as a match when some tally exceeds two. It returns the number of
    matching hands and the number of the others.
 */
module Triplets {
  import opened Cards

  /** The ranks of a hand, with their multiplicities. */
  function Ranks(hand: seq<Card>): (bag: multiset<int>)
    ensures |bag| == |hand|
  {
    if hand == [] then multiset{}
    else Ranks(hand[..|hand| - 1]) + multiset{hand[|hand| - 1].rank}
  }

  /** Some rank occurs more than twice in the hand. */
  predicate HasTriplet(hand: seq<Card>) {
    exists r :: r in Ranks(hand) && Ranks(hand)[r] > 2
  }

  /** A rank counter for a hand: exactly the ranks present, each with its number of cards. */
  ghost predicate Tallies(counts: map<int, int>, hand: seq<Card>) {
    && (forall r :: r in counts <==> r in Ranks(hand))
    && (forall r :: r in counts ==> counts[r] == Ranks(hand)[r])
  }

  /** Builds the rank counter of a hand, one card at a time. */
  method CountRanks(hand: seq<Card>) returns (counts: map<int, int>)
    ensures Tallies(counts, hand)
  {
    counts := map[];
    for j := 0 to |hand|
      invariant Tallies(counts, hand[..j])
    {
      assert hand[..j + 1][..j] == hand[..j];
      var rank := hand[j].rank;
      var seen := if rank in counts then counts[rank] else 0;
      counts := counts[rank := seen + 1];
    }
    assert hand[..|hand|] == hand;
  }

  /** Some tally of a hand's counter exceeds two exactly when the hand has a triplet. */
  lemma TalliesAboveTwo(counts: map<int, int>, hand: seq<Card>)
    requires Tallies(counts, hand)
    ensures (exists r :: r in counts && counts[r] > 2) <==> HasTriplet(hand)
  {
  }

  /** The number of hands in a batch that have a triplet. */
  function MatchCount(deals: seq<seq<Card>>): (n: nat)
    ensures n <= |deals|
  {
    if deals == [] then 0
    else MatchCount(deals[..|deals| - 1]) + (if HasTriplet(deals[|deals| - 1]) then 1 else 0)
  }

  /** What `TripletFraction` returns: the matching hands and the remaining ones. */
  function Fraction(deals: seq<seq<Card>>): (f: (nat, nat))
    ensures f.0 + f.1 == |deals|
  {
    (MatchCount(deals), |deals| - MatchCount(deals))
  }

  /** Counts the hands with a triplet; returns (matches, len(deals) - matches). */
  method TripletFraction(deals: seq<seq<Card>>) returns (matches: int, misses: int)
    ensures (matches, misses) == Fraction(deals)
  {
    var triplets := 0;
    for i := 0 to |deals|
      invariant triplets == MatchCount(deals[..i])
    {
      assert deals[..i + 1][..i] == deals[..i];
      var ranks := CountRanks(deals[i]);
      TalliesAboveTwo(ranks, deals[i]);
      if exists r :: r in ranks && ranks[r] > 2 {
        triplets := triplets + 1;
      }
    }
    assert deals[..|deals|] == deals;
    return triplets, |deals| - triplets;
  }

  // ---------------------------------------------------------------------
  // Properties of the count

  /** Both numbers lie between 0 and the number of hands, and they add up to it. */
  lemma FractionBounds(deals: seq<seq<Card>>)
    ensures 0 <= Fraction(deals).0 <= |deals|
    ensures 0 <= Fraction(deals).1 <= |deals|
    ensures Fraction(deals).0 + Fraction(deals).1 == |deals|
  {
  }

  /** No hands give (0, 0). */
  lemma FractionEmpty()
    ensures Fraction([]) == (0, 0)
  {
  }

  /** One more hand adds one to the matches if it has a triplet, and one to the rest otherwise. */
  lemma FractionAppend(deals: seq<seq<Card>>, hand: seq<Card>)
    ensures Fraction(deals + [hand]) ==
      if HasTriplet(hand) then (Fraction(deals).0 + 1, Fraction(deals).1)
      else (Fraction(deals).0, Fraction(deals).1 + 1)
  {
  }

  /** A single hand contributes at most one match, however many ranks in it reach three. */
  lemma FractionSingle(hand: seq<Card>)
    ensures Fraction([hand]) == if HasTriplet(hand) then (1, 0) else (0, 1)
  {
  }

  /** The match count of a concatenation is the sum of the match counts. */
  lemma {:induction false} MatchCountConcat(a: seq<seq<Card>>, b: seq<seq<Card>>)
    ensures MatchCount(a + b) == MatchCount(a) + MatchCount(b)
  {
    if b != [] {
      var b', h := b[..|b| - 1], b[|b| - 1];
      assert a + b == (a + b') + [h];
      assert (a + b)[..|a + b| - 1] == a + b';
      MatchCountConcat(a, b');
    } else {
      assert a + b == a;
    }
  }

  /** Counting a + b gives the component-wise sum of counting a and counting b. */
  lemma FractionConcat(a: seq<seq<Card>>, b: seq<seq<Card>>)
    ensures Fraction(a + b) == (Fraction(a).0 + Fraction(b).0, Fraction(a).1 + Fraction(b).1)
  {
    var ab := a + b;
    MatchCountConcat(a, b);
    assert |ab| == |a| + |b|;
    assert Fraction(ab).0 == MatchCount(a) + MatchCount(b);
    assert Fraction(ab).1 == (|a| - MatchCount(a)) + (|b| - MatchCount(b));
  }

  /** Taking the hand at position k out of a batch removes its contribution and nothing else. */
  lemma MatchCountRemoveAt(b: seq<seq<Card>>, k: int)
    requires 0 <= k < |b|
    ensures MatchCount(b) == MatchCount(b[..k] + b[k + 1..]) + MatchCount([b[k]])
  {
    var front, back := b[..k], b[k + 1..];
    SplitAt(b, k);
    MatchCountConcat(front, [b[k]] + back);
    MatchCountConcat([b[k]], back);
    MatchCountConcat(front, back);
  }

  /** A sequence is its part before k, its element k and its part after k. */
  lemma SplitAt<T>(s: seq<T>, k: int)
    requires 0 <= k < |s|
    ensures s == s[..k] + ([s[k]] + s[k + 1..])
  {
    assert s[k..] == [s[k]] + s[k + 1..];
    assert s == s[..k] + s[k..];
  }

  /** Reordering the hands does not change the match count. */
  lemma {:induction false} MatchCountPermutation(a: seq<seq<Card>>, b: seq<seq<Card>>)
    requires multiset(a) == multiset(b)
    ensures MatchCount(a) == MatchCount(b)
  {
    if a != [] {
      var a', h := a[..|a| - 1], a[|a| - 1];
      assert a == a' + [h];
      assert h in multiset(b);
      var k :| 0 <= k < |b| && b[k] == h;
      var rest := b[..k] + b[k + 1..];
      assert b == b[..k] + [h] + b[k + 1..];
      assert multiset(rest) == multiset(b) - multiset{h};
      MatchCountPermutation(a', rest);
      MatchCountRemoveAt(b, k);
      MatchCountConcat(a', [h]);
    } else {
      assert |b| == |multiset(b)| == 0;
    }
  }

  /** Reordering the hands does not change the result. */
  lemma FractionPermutation(a: seq<seq<Card>>, b: seq<seq<Card>>)
    requires multiset(a) == multiset(b)
    ensures Fraction(a) == Fraction(b)
  {
    MatchCountPermutation(a, b);
    assert |a| == |multiset(a)| == |multiset(b)| == |b|;
  }

  // ---------------------------------------------------------------------
  // The rank test against independent descriptions of a triplet

  /** The positions, in increasing order, of the cards of rank r in the hand. */
  function RankPositions(hand: seq<Card>, r: int): (ps: seq<int>)
    ensures |ps| == Ranks(hand)[r]
    ensures forall m :: 0 <= m < |ps| ==> 0 <= ps[m] < |hand| && hand[ps[m]].rank == r
    ensures forall m, m' :: 0 <= m < m' < |ps| ==> ps[m] < ps[m']
  {
    if hand == [] then []
    else
      var n := |hand| - 1;
      RankPositions(hand[..n], r) + if hand[n].rank == r then [n] else []
  }

  /** No position holding rank r is missing from `RankPositions`. */
  lemma {:induction false} RankPositionsComplete(hand: seq<Card>, r: int)
    ensures forall j :: 0 <= j < |hand| && hand[j].rank == r ==> j in RankPositions(hand, r)
  {
    if hand != [] {
      var n := |hand| - 1;
      var front := RankPositions(hand[..n], r);
      var last := if hand[n].rank == r then [n] else [];
      assert RankPositions(hand, r) == front + last;
      RankPositionsComplete(hand[..n], r);
      forall j | 0 <= j < |hand| && hand[j].rank == r
        ensures j in front + last
      {
        if j < n {
          assert hand[..n][j] == hand[j];
        }
      }
    }
  }

  /** Increasing positions that all hold rank r are no more than the tally of r. */
  lemma {:induction false} PositionsBoundTally(hand: seq<Card>, r: int, ps: seq<int>)
    requires forall m :: 0 <= m < |ps| ==> 0 <= ps[m] < |hand| && hand[ps[m]].rank == r
    requires forall m, m' :: 0 <= m < m' < |ps| ==> ps[m] < ps[m']
    ensures |ps| <= Ranks(hand)[r]
  {
    if hand != [] {
      var n := |hand| - 1;
      if ps != [] && ps[|ps| - 1] == n {
        PositionsBoundTally(hand[..n], r, ps[..|ps| - 1]);
      } else {
        PositionsBoundTally(hand[..n], r, ps);
      }
    }
  }

  /** Three different cards of the hand share a rank. */
  ghost predicate ThreeOfAKind(hand: seq<Card>) {
    exists i, j, k ::
      0 <= i < j < k < |hand| && hand[i].rank == hand[j].rank && hand[j].rank == hand[k].rank
  }

  /** The counter test is exactly "three different cards of one rank". */
  lemma HasTripletIffThreeOfAKind(hand: seq<Card>)
    ensures HasTriplet(hand) <==> ThreeOfAKind(hand)
  {
    if HasTriplet(hand) {
      var r :| r in Ranks(hand) && Ranks(hand)[r] > 2;
      var ps := RankPositions(hand, r);
      assert hand[ps[0]].rank == hand[ps[1]].rank == hand[ps[2]].rank;
    }
    if ThreeOfAKind(hand) {
      var i, j, k :|
        0 <= i < j < k < |hand| && hand[i].rank == hand[j].rank && hand[j].rank == hand[k].rank;
      PositionsBoundTally(hand, hand[i].rank, [i, j, k]);
    }
  }

  /** A subset is no larger than the set containing it. */
  lemma SubsetSize<T>(a: set<T>, b: set<T>)
    requires a <= b
    ensures |a| <= |b|
  {
    assert b == a + (b - a);
  }

  /** The suits of the cards of rank r in the hand. */
  ghost function SuitsOfRank(hand: seq<Card>, r: int): set<char> {
    set c | c in hand && c.rank == r :: c.suit
  }

  /** Adding a card of rank r adds its suit to the suits of r; any other card adds nothing. */
  lemma SuitsOfRankSnoc(init: seq<Card>, x: Card, r: int)
    ensures SuitsOfRank(init + [x], r) ==
      if x.rank == r then SuitsOfRank(init, r) + {x.suit} else SuitsOfRank(init, r)
  {
    assert forall c :: c in init + [x] <==> c in init || c == x;
  }

  /** In a hand without repeated cards, the tally of a rank is the number of its suits present. */
  lemma {:induction false} RanksCountSuits(hand: seq<Card>, r: int)
    requires Distinct(hand)
    ensures Ranks(hand)[r] == |SuitsOfRank(hand, r)|
  {
    if hand != [] {
      var n := |hand| - 1;
      var init, x := hand[..n], hand[n];
      assert hand == init + [x];
      assert Distinct(init);
      RanksCountSuits(init, r);
      SuitsOfRankSnoc(init, x, r);
      if x.rank == r {
        assert x.suit !in SuitsOfRank(init, r) by {
          assert x !in init;
        }
      }
    }
  }

  /** Ten different deck cards hold at most four cards of any rank. */
  lemma RankAtMostFour(hand: seq<Card>, r: int)
    requires Distinct(hand)
    requires forall c :: c in hand ==> c in deck
    ensures Ranks(hand)[r] <= 4
  {
    RanksCountSuits(hand, r);
    var suits := SuitsOfRank(hand, r);
    forall s | s in suits ensures s in {'S', 'H', 'D', 'C'} {
      var c :| c in hand && c.rank == r && c.suit == s;
      DeckMembers(c);
    }
    SubsetSize(suits, {'S', 'H', 'D', 'C'});
  }

  /** For a dealt hand, "more than two of a rank" means "three or four of it". */
  lemma DealtHandTriplet(hand: seq<Card>)
    requires IsDealtHand(hand)
    ensures forall r :: Ranks(hand)[r] <= 4
    ensures HasTriplet(hand) <==> exists r :: 3 <= Ranks(hand)[r] <= 4
  {
    forall r ensures Ranks(hand)[r] <= 4 {
      RankAtMostFour(hand, r);
    }
  }

  // ---------------------------------------------------------------------
  // Two concrete hands

  /** Three aces and seven spades from two to eight. */
  const ThreeAces: seq<Card> := [Card(1, 'S'), Card(1, 'H'), Card(1, 'D'), Card(2, 'S'), Card(3, 'S'),
                                 Card(4, 'S'), Card(5, 'S'), Card(6, 'S'), Card(7, 'S'), Card(8, 'S')]

  /** A spade and a heart of each rank from one to five. */
  const FivePairs: seq<Card> := [Card(1, 'S'), Card(1, 'H'), Card(2, 'S'), Card(2, 'H'), Card(3, 'S'),
                                 Card(3, 'H'), Card(4, 'S'), Card(4, 'H'), Card(5, 'S'), Card(5, 'H')]

  /** Three aces and seven spades are a hand the dealer can produce. */
  lemma ThreeAcesDealt()
    ensures IsDealtHand(ThreeAces)
  {
    forall c | c in ThreeAces ensures c in deck {
      DeckMembers(c);
    }
  }

  /** So are five pairs. */
  lemma FivePairsDealt()
    ensures IsDealtHand(FivePairs)
  {
    forall c | c in FivePairs ensures c in deck {
      DeckMembers(c);
    }
  }

  /** A hand with exactly three cards of one rank is a match. */
  lemma ThreeAcesMatch()
    ensures HasTriplet(ThreeAces)
  {
    HasTripletIffThreeOfAKind(ThreeAces);
    assert ThreeAces[0].rank == ThreeAces[1].rank == ThreeAces[2].rank;
  }

  /** A hand with at most two cards of every rank is not. */
  lemma FivePairsNoMatch()
    ensures !HasTriplet(FivePairs)
  {
    HasTripletIffThreeOfAKind(FivePairs);
    assert forall i :: 0 <= i < |FivePairs| ==> FivePairs[i].rank == i / 2 + 1;
  }

  /** The two hands together count as one match and one miss. */
  lemma ExampleBatch()
    ensures Fraction([ThreeAces, FivePairs]) == (1, 1)
  {
    ThreeAcesMatch();
    FivePairsNoMatch();
    FractionSingle(ThreeAces);
    FractionAppend([ThreeAces], FivePairs);
    assert [ThreeAces] + [FivePairs] == [ThreeAces, FivePairs];
  }
}
