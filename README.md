# ginsim: the deck and the triplet count

This project models the computational core of `ginsim.py`, a gin-rummy
hand simulator. The simulator deals many random ten-card hands from a
standard deck. It then reports how many of them hold three or more cards
of one rank (a "triplet") and how many do not.

Two parts are modelled.

- **Cards** (`cards.dfy`, module `Cards`). A `Card` is a value with a rank
  and a suit letter. The suit is a `char`, because the source takes it from
  the string `"SHDC"`.
  - `deck` is built the way the source's nested generator builds it: one
    rank after another, from 1 to 13, with the suits in the order S, H, D, C
    inside each rank (`SuitRow` is the inner loop, `DeckFrom` the outer).
  - The lemmas prove four things. The deck has 52 cards. Card `i` is
    `Card(i / 4 + 1, "SHDC"[i % 4])`. The deck holds exactly the valid
    cards. Each valid card appears once.
  - `IsDealtHand` describes what `random.sample(deck, 10)` returns: ten
    different cards, all from the deck.
- **Triplet counting** (`triplets.dfy`, module `Triplets`). This models
  `triplet_fraction`.
  - `Ranks` is the multiset of a hand's ranks. It is the mathematical
    content of the `Counter`.
  - `HasTriplet` says that some rank occurs more than twice.
  - `CountRanks` is the loop that fills the counter dictionary for one hand.
  - `TripletFraction` is the loop over the hands. Its result is specified by
    `Fraction`, which is built on the recursive count `MatchCount`.
  - The lemmas are about `Fraction` and `MatchCount`:
    - the two numbers are bounded and add up to the number of hands;
    - no hands give `(0, 0)`;
    - each hand contributes exactly one, to the matches when it has a
      triplet and to the other count when it does not;
    - counting a concatenation adds the counts component-wise;
    - reordering the hands changes nothing.
  - `HasTriplet` is checked against an independent description: three
    different positions that hold cards of the same rank.
  - For dealt hands, no rank occurs more than four times. So "more than two"
    means "three or four".
  - Two concrete hands show both outcomes.

Python's `Card` class defines no `__eq__`, so two `Card` objects compare by
identity there. The model compares cards by value. The two agree on dealt
hands. `random.sample` picks distinct positions of `deck`, and
`DeckDistinct` proves that distinct positions hold distinct values.

`triplet_fraction` takes a tuple of hands of any size and content. The model
therefore puts no precondition on `TripletFraction`, `Fraction` or
`MatchCount`. Only the lemmas about the four-per-rank bound assume a hand of
distinct deck cards.

The source tests `any(_ > 2 for _ in ranks.values())`. `TripletFraction`
asks instead whether some key of the counter maps to a value above 2. Both
look at the same values, and `TalliesAboveTwo` proves that the test agrees
with `HasTriplet`.

## Model

| member | source | states |
|---|---|---|
| `Cards.SuitRow` | ginsim.py:47 | the inner generator gives one card of the given rank per suit letter, in the letters' order |
| `Cards.DeckFrom` | ginsim.py:47 | ranks lo..hi-1 crossed with "SHDC" give 4 cards per rank; card i has rank lo + i / 4 and suit "SHDC"[i % 4] |
| `Cards.DeckLayout` | ginsim.py:47 | `deck` has exactly 52 cards; card i is (i / 4 + 1, "SHDC"[i % 4]) |
| `Cards.DeckMembers` | ginsim.py:47 | a card is in `deck` if and only if its rank is in 1..13 and its suit is one of S, H, D, C |
| `Cards.DeckIndex` | ginsim.py:47 | each valid card sits in `deck` at position (rank - 1) * 4 + its suit's index |
| `Cards.DeckOnce` | ginsim.py:47 | a valid card occurs at that one position and nowhere else |
| `Cards.DeckDistinct` | ginsim.py:47 | no two positions of `deck` hold the same card |
| `Cards.IsDealtHand` | ginsim.py:64 | what `random.sample(deck, 10)` returns: exactly 10 cards, no card twice, every card taken from `deck` |
| `Triplets.Tallies` | ginsim.py:53 | what the `Counter` holds: its keys are exactly the ranks present in the hand, and each maps to the number of cards of that rank |
| `Triplets.HasTriplet` | ginsim.py:53-54 | what counts as a match: some rank occurs more than twice among the hand's cards |
| `Triplets.Ranks` | ginsim.py:53 | the rank multiset has one element per card of the hand |
| `Triplets.CountRanks` | ginsim.py:53 | the counter's keys are exactly the ranks present, and each key maps to how many cards have that rank |
| `Triplets.TalliesAboveTwo` | ginsim.py:53-54 | some counter value exceeds 2 if and only if some rank occurs more than twice in the hand |
| `Triplets.MatchCount` | ginsim.py:51-54 | the number of matching hands never exceeds the number of hands |
| `Triplets.Fraction` | ginsim.py:56 | the two returned numbers add up to len(deals) |
| `Triplets.TripletFraction` | ginsim.py:49-56 | the loop returns (number of hands with a rank occurring more than twice, len(deals) minus that number) |
| `Triplets.FractionBounds` | ginsim.py:51-56 | both numbers lie in 0..len(deals) and their sum is len(deals) |
| `Triplets.FractionEmpty` | ginsim.py:51-56 | an empty batch gives (0, 0) |
| `Triplets.FractionAppend` | ginsim.py:52-54 | one more hand adds 1 to the matches if it has a triplet, and 1 to the other count otherwise |
| `Triplets.FractionSingle` | ginsim.py:52-54 | a single hand gives (1, 0) or (0, 1), so it adds at most 1 however many ranks reach three |
| `Triplets.MatchCountConcat` | ginsim.py:52-54 | the match count of a + b is the match count of a plus that of b |
| `Triplets.FractionConcat` | ginsim.py:52-56 | counting a + b gives the component-wise sum of counting a and counting b |
| `Triplets.MatchCountPermutation` | ginsim.py:52-54 | batches with the same hands in any order have the same match count |
| `Triplets.FractionPermutation` | ginsim.py:52-56 | reordering the hands does not change the returned pair |
| `Triplets.RankPositions` | ginsim.py:53 | lists, in increasing order, positions that hold rank r, as many as the count of r |
| `Triplets.RankPositionsComplete` | ginsim.py:53 | every position holding rank r is in that list, so the count of r is the number of positions holding it |
| `Triplets.PositionsBoundTally` | ginsim.py:53 | any increasing list of positions that all hold rank r is no longer than the count of r |
| `Triplets.HasTripletIffThreeOfAKind` | ginsim.py:53-54 | the counter test holds if and only if three different positions i < j < k hold cards of the same rank |
| `Triplets.RanksCountSuits` | ginsim.py:53 | in a hand of distinct cards, the count of a rank equals the number of distinct suits seen with that rank |
| `Triplets.RankAtMostFour` | ginsim.py:47 | a hand of distinct deck cards has at most four cards of any rank |
| `Triplets.DealtHandTriplet` | ginsim.py:64 | for a hand produced by sampling 10 deck cards, every rank count is at most 4, and the triplet test is "some count is 3 or 4" |
| `Triplets.ThreeAcesDealt` | ginsim.py:64 | the three-aces hand is ten distinct deck cards, a hand the dealer can produce |
| `Triplets.FivePairsDealt` | ginsim.py:64 | the five-pairs hand is ten distinct deck cards, a hand the dealer can produce |
| `Triplets.ThreeAcesMatch` | ginsim.py:53-54 | a hand with exactly three aces is a match |
| `Triplets.FivePairsNoMatch` | ginsim.py:53-54 | a hand of five pairs is not a match |
| `Triplets.ExampleBatch` | ginsim.py:49-56 | the batch of those two hands gives (1, 1) |

## Left out

- Dealing: `random.sample(deck, 10)` and building the `deals` tuple (ginsim.py:64). This is randomness from library code that is not part of this model. Only what it guarantees is modelled: `IsDealtHand`, ten distinct cards from `deck`.
- Timing and printing (`time.time()`, `print`, ginsim.py:63-67). These are a clock read and output.
- `ginsim_main` returning `os.EX_OK` (ginsim.py:69). It is plumbing around the two modelled parts, with no logic of its own.
- Argument parsing, output redirection, the `globals()` dispatch and the catch-all exception handler (ginsim.py:72-91). These are command-line plumbing.
- The Python version check and its exit (ginsim.py:12-14), and `Card.__str__` (ginsim.py:44-45). These are environment checks and formatting.
- Card comparison by object identity. The model compares cards by value. This makes no difference for hands sampled from `deck`, as explained above.
- Splitting the work across several processes, the shared locked result file, and the run and sequence predicates. None of them appear in `ginsim.py`. This file runs in one process and computes only the triplet count.
