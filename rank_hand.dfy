/**
 * The five-card hand evaluator (client/src/utils/game/rankHand.ts): parse the
 * cards, sort the rank values descending, test for a flush and a straight,
 * count each value, and classify the hand from the strongest category down,
 * returning the category's rank, its name and a tiebreaker vector.
 */
module HandEvaluator {
  import opened Wrappers
  import opened Cards

  datatype Category =
    | HighCard | OnePair | TwoPair | ThreeOfAKind | Straight
    | Flush | FullHouse | FourOfAKind | StraightFlush | RoyalFlush

  /** The numeric category rank (the HAND_RANKINGS table): higher is stronger. */
  function HandRanking(c: Category): (n: int)
    ensures 1 <= n <= 10
  {
    match c
    case HighCard => 1
    case OnePair => 2
    case TwoPair => 3
    case ThreeOfAKind => 4
    case Straight => 5
    case Flush => 6
    case FullHouse => 7
    case FourOfAKind => 8
    case StraightFlush => 9
    case RoyalFlush => 10
  }

  function CategoryName(c: Category): string
  {
    match c
    case HighCard => "High Card"
    case OnePair => "One Pair"
    case TwoPair => "Two Pair"
    case ThreeOfAKind => "Three of a Kind"
    case Straight => "Straight"
    case Flush => "Flush"
    case FullHouse => "Full House"
    case FourOfAKind => "Four of a Kind"
    case StraightFlush => "Straight Flush"
    case RoyalFlush => "Royal Flush"
  }

  /** How many tiebreaker values each category carries. */
  function TiebreakerLength(c: Category): nat
  {
    match c
    case FourOfAKind => 1
    case ThreeOfAKind => 1
    case FullHouse => 2
    case TwoPair => 3
    case OnePair => 4
    case _ => 5
  }

  /** The category rank and the category name each identify the category. */
  lemma RankingIdentifiesCategory(c1: Category, c2: Category)
    ensures HandRanking(c1) == HandRanking(c2) <==> c1 == c2
    ensures CategoryName(c1) == CategoryName(c2) <==> c1 == c2
  {
  }

  /** What rankHand returns. */
  datatype RankedHand = RankedHand(rank: int, name: string, tiebreaker: seq<int>)

  /** What rankHand throws: a hand of the wrong size, or (outside the card alphabet) a string that is not a card. */
  datatype HandError = InvalidHandSize | NotACard

  // ---------------------------------------------------------------------------
  // Sequences of rank values

  ghost predicate Descending(s: seq<int>)
  {
    forall i, j :: 0 <= i < j < |s| ==> s[i] >= s[j]
  }

  /** `s.map(f)` */
  function Map<A, B>(f: A -> B, s: seq<A>): (r: seq<B>)
    ensures |r| == |s|
    ensures forall i :: 0 <= i < |s| ==> r[i] == f(s[i])
  {
    seq(|s|, i requires 0 <= i < |s| => f(s[i]))
  }

  lemma MapConcat<A, B>(f: A -> B, a: seq<A>, b: seq<A>)
    ensures Map(f, a + b) == Map(f, a) + Map(f, b)
  {
  }

  /** Taking out one occurrence of `x` from two equal multisets leaves equal multisets. */
  lemma RemoveOccurrence<T>(a: seq<T>, b: seq<T>, j: nat)
    requires multiset(a) == multiset(b)
    requires a != [] && j < |b| && b[j] == a[0]
    ensures multiset(a[1..]) == multiset(b[..j] + b[j + 1..])
  {
    var x, rest := a[0], b[..j] + b[j + 1..];
    assert b == b[..j] + [x] + b[j + 1..];
    assert a == [x] + a[1..];
    forall y ensures multiset(a[1..])[y] == multiset(rest)[y] {
      assert multiset(a)[y] == multiset{x}[y] + multiset(a[1..])[y];
      assert multiset(b)[y] == multiset{x}[y] + multiset(rest)[y];
    }
  }

  /** Mapping splits around position `j`. */
  lemma MapSplitAt<A, B>(f: A -> B, b: seq<A>, j: nat)
    requires j < |b|
    ensures multiset(Map(f, b)) == multiset(Map(f, b[..j] + b[j + 1..])) + multiset{f(b[j])}
  {
    assert Map(f, b) == Map(f, b[..j]) + [f(b[j])] + Map(f, b[j + 1..]);
    assert Map(f, b[..j] + b[j + 1..]) == Map(f, b[..j]) + Map(f, b[j + 1..]);
  }

  /** Matching the head of `a` with position `j` of `b` extends a permutation of the rests. */
  lemma MapMatchHead<A, B>(f: A -> B, a: seq<A>, b: seq<A>, j: nat)
    requires a != [] && j < |b| && b[j] == a[0]
    requires multiset(Map(f, a[1..])) == multiset(Map(f, b[..j] + b[j + 1..]))
    ensures multiset(Map(f, a)) == multiset(Map(f, b))
  {
    MapSplitAt(f, b, j);
    assert Map(f, a) == [f(a[0])] + Map(f, a[1..]);
  }

  /** Mapping a permutation gives a permutation. */
  lemma {:induction false} MapPermutation<A, B>(f: A -> B, a: seq<A>, b: seq<A>)
    requires multiset(a) == multiset(b)
    ensures multiset(Map(f, a)) == multiset(Map(f, b))
    decreases |a|
  {
    if a == [] {
      assert |multiset(b)| == 0;
    } else {
      assert a[0] in multiset(b);
      var j :| 0 <= j < |b| && b[j] == a[0];
      RemoveOccurrence(a, b, j);
      MapPermutation(f, a[1..], b[..j] + b[j + 1..]);
      MapMatchHead(f, a, b, j);
    }
  }

  /** Putting a value no smaller than every element in front keeps a sequence descending. */
  lemma ConsDescending(h: int, t: seq<int>)
    requires Descending(t)
    requires forall y :: y in multiset(t) ==> h >= y
    ensures Descending([h] + t)
  {
    var r := [h] + t;
    forall i, j | 0 <= i < j < |r| ensures r[i] >= r[j] {
      if i == 0 {
        assert r[j] == t[j - 1];
        assert t[j - 1] in multiset(t);
      } else {
        assert r[i] == t[i - 1] && r[j] == t[j - 1];
      }
    }
  }

  /** Inserting below the head of a descending sequence keeps the head in front. */
  lemma InsertBelowHead(x: int, s: seq<int>, t: seq<int>)
    requires Descending(s) && s != [] && x < s[0]
    requires Descending(t) && multiset(t) == multiset(s[1..]) + multiset{x}
    ensures Descending([s[0]] + t)
  {
    forall y | y in multiset(t) ensures s[0] >= y {
      if y != x {
        assert y in s[1..];
        HeadIsLargest(s, y);
      }
    }
    ConsDescending(s[0], t);
  }

  /** Inserts `x` into a descending sequence. */
  function Insert(x: int, s: seq<int>): (r: seq<int>)
    requires Descending(s)
    ensures Descending(r)
    ensures multiset(r) == multiset(s) + multiset{x}
  {
    if s == [] || x >= s[0] then
      assert forall y :: y in multiset(s) ==> x >= y by {
        forall y | y in multiset(s) ensures x >= y {
          HeadIsLargest(s, y);
        }
      }
      ConsDescending(x, s);
      [x] + s
    else
      var t := Insert(x, s[1..]);
      InsertBelowHead(x, s, t);
      TailMultiset(s);
      [s[0]] + t
  }

  /** `.sort((a, b) => b - a)` on numbers: the values, largest first. */
  function SortDesc(s: seq<int>): (r: seq<int>)
    ensures Descending(r)
    ensures multiset(r) == multiset(s)
  {
    if s == [] then []
    else
      assert s == [s[0]] + s[1..];
      Insert(s[0], SortDesc(s[1..]))
  }

  /** The head of a descending sequence is its largest element. */
  lemma HeadIsLargest(s: seq<int>, x: int)
    requires Descending(s) && x in s
    ensures s[0] >= x
  {
    var i :| 0 <= i < |s| && s[i] == x;
  }

  /** Dropping the head drops one occurrence of it. */
  lemma TailMultiset<T>(s: seq<T>)
    requires s != []
    ensures multiset(s[1..]) == multiset(s) - multiset{s[0]}
  {
    assert s == [s[0]] + s[1..];
  }

  /** A descending order of a multiset is unique. */
  lemma {:induction false} DescendingUnique(a: seq<int>, b: seq<int>)
    requires Descending(a) && Descending(b)
    requires multiset(a) == multiset(b)
    ensures a == b
    decreases |a|
  {
    assert |a| == |multiset(a)| == |multiset(b)| == |b|;
    if a != [] {
      assert a[0] in multiset(b) && b[0] in multiset(a);
      HeadIsLargest(a, b[0]);
      HeadIsLargest(b, a[0]);
      var x := a[0];
      assert b[0] == x;
      TailMultiset(a);
      TailMultiset(b);
      assert multiset(a[1..]) == multiset(a) - multiset{x} == multiset(b) - multiset{x} == multiset(b[1..]);
      DescendingUnique(a[1..], b[1..]);
      assert a == [a[0]] + a[1..] && b == [b[0]] + b[1..];
    }
  }

  /** Sorting an already descending sequence leaves it as it is. */
  lemma SortDescOfDescending(s: seq<int>)
    requires Descending(s)
    ensures SortDesc(s) == s
  {
    DescendingUnique(SortDesc(s), s);
  }

  /**
   * The `rankValues.reduce(...)` histogram, read at `v`: how often `v` occurs
   * (zero for a value that is not a key).
   */
  function Count(vs: seq<int>, v: int): nat
  {
    multiset(vs)[v]
  }

  /** `vs.filter(val => !(val in xs))`. */
  function Without(vs: seq<int>, xs: set<int>): (r: seq<int>)
    ensures forall v :: v !in xs ==> multiset(r)[v] == multiset(vs)[v]
    ensures forall v :: v in xs ==> v !in r
  {
    if vs == [] then []
    else
      assert vs == [vs[0]] + vs[1..];
      (if vs[0] in xs then [] else [vs[0]]) + Without(vs[1..], xs)
  }

  /** Filtering keeps only elements of the input. */
  lemma {:induction false} WithoutKeeps(vs: seq<int>, xs: set<int>, y: int)
    requires y in Without(vs, xs)
    ensures y in vs
  {
    if vs != [] && y != vs[0] {
      WithoutKeeps(vs[1..], xs, y);
    }
  }

  /** Filtering keeps the order. */
  lemma {:induction false} WithoutDescending(vs: seq<int>, xs: set<int>)
    requires Descending(vs)
    ensures Descending(Without(vs, xs))
  {
    if vs != [] {
      WithoutDescending(vs[1..], xs);
      var tail := Without(vs[1..], xs);
      forall k | 0 <= k < |tail| ensures tail[k] <= vs[0] {
        WithoutKeeps(vs[1..], xs, tail[k]);
        HeadIsLargest(vs, tail[k]);
      }
      var head: seq<int> := if vs[0] in xs then [] else [vs[0]];
      assert Without(vs, xs) == head + tail;
    }
  }

  // ---------------------------------------------------------------------------
  // The evaluator

  function CardValue(c: Card): int
  {
    c.value
  }

  /** The rank values of the hand, largest first. */
  function SortedValues(hand: seq<Card>): (vs: seq<int>)
    ensures |vs| == |hand|
    ensures Descending(vs)
    ensures multiset(vs) == multiset(Map(CardValue, hand))
    ensures forall i :: 0 <= i < |vs| ==> 2 <= vs[i] <= 14
  {
    var vs := SortDesc(Map(CardValue, hand));
    assert |vs| == |multiset(vs)| == |Map(CardValue, hand)|;
    forall i | 0 <= i < |vs| ensures 2 <= vs[i] <= 14 {
      assert vs[i] in multiset(Map(CardValue, hand));
    }
    vs
  }

  /** `suits.every(suit => suit === suits[0])` */
  predicate IsFlush(hand: seq<Card>)
  {
    forall i :: 0 <= i < |hand| ==> hand[i].suit == hand[0].suit
  }

  /** `rankValues.every((val, i, arr) => i === 0 || val === arr[i - 1] - 1)`: no low-ace straight. */
  predicate IsStraight(vs: seq<int>)
  {
    forall i :: 0 < i < |vs| ==> vs[i] == vs[i - 1] - 1
  }

  /**
   * `Object.keys(rankCount).map(Number).find(rank => rankCount[rank] === c && rank !== skip)`:
   * integer keys enumerate in ascending order, so this is the least value from
   * `k` up to 14 occurring exactly `c` times, other than `skip`.
   */
  function FirstWithCount(vs: seq<int>, c: nat, skip: Option<int>, k: int): (r: Option<int>)
    requires 2 <= k <= 15
    decreases 15 - k
    ensures r.Some? ==> k <= r.value <= 14 && Count(vs, r.value) == c && skip != Some(r.value)
  {
    if k == 15 then None
    else if Count(vs, k) == c && skip != Some(k) then Some(k)
    else FirstWithCount(vs, c, skip, k + 1)
  }

  /** The search returns the least qualifying value from `k` on, and finds nothing only when none qualifies. */
  lemma {:induction false} FirstWithCountLeast(vs: seq<int>, c: nat, skip: Option<int>, k: int)
    requires 2 <= k <= 15
    decreases 15 - k
    ensures var r := FirstWithCount(vs, c, skip, k);
      r.Some? ==> forall v :: k <= v < r.value && skip != Some(v) ==> Count(vs, v) != c
    ensures var r := FirstWithCount(vs, c, skip, k);
      r.None? ==> forall v :: k <= v <= 14 && skip != Some(v) ==> Count(vs, v) != c
  {
    if k < 15 && !(Count(vs, k) == c && skip != Some(k)) {
      FirstWithCountLeast(vs, c, skip, k + 1);
    }
  }

  /** The search finds the least value from `k` on that qualifies. */
  lemma {:induction false} FirstWithCountIsLeast(vs: seq<int>, c: nat, skip: Option<int>, k: int, m: int)
    requires 2 <= k <= m <= 14
    requires Count(vs, m) == c && skip != Some(m)
    requires forall v :: k <= v < m ==> !(Count(vs, v) == c && skip != Some(v))
    decreases m - k
    ensures FirstWithCount(vs, c, skip, k) == Some(m)
  {
    if k < m {
      FirstWithCountIsLeast(vs, c, skip, k + 1, m);
    }
  }

  /** The search finds nothing when no value from `k` to 14 qualifies. */
  lemma {:induction false} FirstWithCountNone(vs: seq<int>, c: nat, skip: Option<int>, k: int)
    requires 2 <= k <= 15
    requires forall v :: k <= v <= 14 ==> !(Count(vs, v) == c && skip != Some(v))
    decreases 15 - k
    ensures FirstWithCount(vs, c, skip, k) == None
  {
    if k < 15 {
      FirstWithCountNone(vs, c, skip, k + 1);
    }
  }

  datatype Evaluation = Evaluation(category: Category, tiebreaker: seq<int>)

  /** The four key searches of rankHand over the histogram of the values. */
  datatype Searches = Searches(four: Option<int>, three: Option<int>, pair: Option<int>, second: Option<int>)

  /**
   * `fourOfAKindRank`, `threeOfAKindRank`, `pairRank` and `secondPairRank`
   * (the last one only searched for when there is a first pair).
   */
  function Search(vs: seq<int>): Searches
  {
    var pair := FirstWithCount(vs, 2, None, 2);
    Searches(
      FirstWithCount(vs, 4, None, 2),
      FirstWithCount(vs, 3, None, 2),
      pair,
      if pair.Some? then FirstWithCount(vs, 2, pair, 2) else None)
  }

  /** The category ladder of rankHand over the descending values, the flush test and the key searches. */
  function Classify(vs: seq<int>, flush: bool, h: Searches): Evaluation
    requires |vs| == 5
  {
    var straight := IsStraight(vs);
    if flush && straight && vs[0] == 14 then Evaluation(RoyalFlush, vs)
    else if flush && straight then Evaluation(StraightFlush, vs)
    else if h.four.Some? then Evaluation(FourOfAKind, [h.four.value])
    else if h.three.Some? && h.pair.Some? then Evaluation(FullHouse, [h.three.value, h.pair.value])
    else if flush then Evaluation(Flush, vs)
    else if straight then Evaluation(Straight, vs)
    else if h.three.Some? then Evaluation(ThreeOfAKind, [h.three.value])
    else if h.pair.Some? && h.second.Some? then
      var pairsSorted := SortDesc([h.pair.value, h.second.value]);
      var remaining := SortDesc(Without(vs, {h.pair.value, h.second.value}));
      Evaluation(TwoPair, pairsSorted + remaining)
    else if h.pair.Some? then Evaluation(OnePair, [h.pair.value] + Without(vs, {h.pair.value}))
    else Evaluation(HighCard, vs)
  }

  /** Evaluates five parsed cards. */
  function Evaluate(hand: seq<Card>): Evaluation
    requires |hand| == 5
  {
    var vs := SortedValues(hand);
    Classify(vs, IsFlush(hand), Search(vs))
  }

  /** The result rankHand returns for five parsed cards. */
  function RankCards(hand: seq<Card>): RankedHand
    requires |hand| == 5
  {
    var e := Evaluate(hand);
    RankedHand(HandRanking(e.category), CategoryName(e.category), e.tiebreaker)
  }

  /** The card a string denotes (a fixed card for strings outside the alphabet, which never reach the evaluator). */
  function CardOf(s: string): Card
  {
    match ParseCard(s)
    case Some(c) => c
    case None => Card(2, Spades)
  }

  predicate AllCards(hand: seq<string>)
  {
    forall i :: 0 <= i < |hand| ==> ParseCard(hand[i]).Some?
  }

  /**
   * rankHand: fails unless there are exactly five cards; otherwise parses each
   * card and evaluates the hand.
   */
  function RankHand(hand: seq<string>): (r: Result<RankedHand, HandError>)
    ensures r == Failure(InvalidHandSize) <==> |hand| != 5
    ensures r.Success? <==> |hand| == 5 && AllCards(hand)
    ensures r.Success? ==> 1 <= r.value.rank <= 10
  {
    if |hand| != 5 then Failure(InvalidHandSize)
    else if !AllCards(hand) then Failure(NotACard)
    else Success(RankCards(Map(CardOf, hand)))
  }

  // ---------------------------------------------------------------------------
  // Properties

  /** Permuting the hand does not change whether it is a flush. */
  lemma FlushOfPermutation(a: seq<Card>, b: seq<Card>)
    requires multiset(a) == multiset(b)
    ensures IsFlush(a) == IsFlush(b)
  {
    assert |a| == |multiset(a)| == |b|;
    if IsFlush(a) && |b| > 0 {
      forall i | 0 <= i < |b| ensures b[i].suit == b[0].suit {
        assert b[i] in multiset(a) && b[0] in multiset(a);
      }
    }
    if IsFlush(b) && |a| > 0 {
      forall i | 0 <= i < |a| ensures a[i].suit == a[0].suit {
        assert a[i] in multiset(b) && a[0] in multiset(b);
      }
    }
  }

  /** The evaluation depends only on the multiset of cards. */
  lemma RankCardsOfPermutation(a: seq<Card>, b: seq<Card>)
    requires |a| == 5 && multiset(a) == multiset(b)
    ensures |b| == 5 && RankCards(a) == RankCards(b)
  {
    assert |b| == |multiset(b)| == |a|;
    MapPermutation(CardValue, a, b);
    DescendingUnique(SortedValues(a), SortedValues(b));
    FlushOfPermutation(a, b);
  }

  /** rankHand gives the same answer for any order of the same cards. */
  lemma RankHandOfPermutation(a: seq<string>, b: seq<string>)
    requires multiset(a) == multiset(b)
    ensures RankHand(a) == RankHand(b)
  {
    assert |a| == |multiset(a)| == |b|;
    assert AllCards(a) ==> AllCards(b) by {
      if AllCards(a) {
        forall i | 0 <= i < |b| ensures ParseCard(b[i]).Some? {
          assert b[i] in multiset(a);
        }
      }
    }
    assert AllCards(b) ==> AllCards(a) by {
      if AllCards(b) {
        forall i | 0 <= i < |a| ensures ParseCard(a[i]).Some? {
          assert a[i] in multiset(b);
        }
      }
    }
    if |a| == 5 && AllCards(a) {
      MapPermutation(CardOf, a, b);
      RankCardsOfPermutation(Map(CardOf, a), Map(CardOf, b));
    }
  }

  /** Some value occurs exactly `c` times. */
  ghost predicate HasCount(vs: seq<int>, c: nat)
  {
    exists v :: Count(vs, v) == c
  }

  /** Two distinct values each occur exactly twice. */
  ghost predicate HasTwoPairs(vs: seq<int>)
  {
    exists p, q :: p < q && Count(vs, p) == 2 && Count(vs, q) == 2
  }

  /**
   * The poker ladder stated without the search order: each category is the
   * strongest whose pattern of equal values the hand shows.
   */
  ghost function LadderCategory(vs: seq<int>, flush: bool): Category
    requires |vs| == 5
  {
    var straight := IsStraight(vs);
    if flush && straight && vs[0] == 14 then RoyalFlush
    else if flush && straight then StraightFlush
    else if HasCount(vs, 4) then FourOfAKind
    else if HasCount(vs, 3) && HasCount(vs, 2) then FullHouse
    else if flush then Flush
    else if straight then Straight
    else if HasCount(vs, 3) then ThreeOfAKind
    else if HasTwoPairs(vs) then TwoPair
    else if HasCount(vs, 2) then OnePair
    else HighCard
  }

  /** A value that occurs is one of the sequence's elements, so it lies in 2 .. 14. */
  lemma OccursInRange(vs: seq<int>, v: int)
    requires forall i :: 0 <= i < |vs| ==> 2 <= vs[i] <= 14
    requires Count(vs, v) > 0
    ensures 2 <= v <= 14
  {
    assert v in multiset(vs);
    var i :| 0 <= i < |vs| && vs[i] == v;
  }

  /** Values that occur lie in 2 .. 14, so the ascending key search sees them all. */
  lemma FirstWithCountFinds(vs: seq<int>, c: nat)
    requires c > 0
    requires forall i :: 0 <= i < |vs| ==> 2 <= vs[i] <= 14
    ensures FirstWithCount(vs, c, None, 2).Some? <==> HasCount(vs, c)
  {
    FirstWithCountLeast(vs, c, None, 2);
    if HasCount(vs, c) {
      var v :| Count(vs, v) == c;
      OccursInRange(vs, v);
    }
  }

  /** A second pair found lies above the first, so the hand holds two pairs. */
  lemma SecondPairAbove(vs: seq<int>, pair: Option<int>, second: Option<int>)
    requires pair == FirstWithCount(vs, 2, None, 2) && pair.Some?
    requires second == FirstWithCount(vs, 2, pair, 2) && second.Some?
    ensures pair.value < second.value && HasTwoPairs(vs)
  {
    FirstWithCountLeast(vs, 2, None, 2);
    assert Count(vs, pair.value) == 2 && Count(vs, second.value) == 2;
  }

  /** When the hand holds two pairs, the search skipping the first finds another. */
  lemma SecondPairExists(vs: seq<int>, pair: Option<int>)
    requires forall i :: 0 <= i < |vs| ==> 2 <= vs[i] <= 14
    requires pair == FirstWithCount(vs, 2, None, 2) && pair.Some?
    requires HasTwoPairs(vs)
    ensures FirstWithCount(vs, 2, pair, 2).Some?
  {
    FirstWithCountLeast(vs, 2, pair, 2);
    var p, q :| p < q && Count(vs, p) == 2 && Count(vs, q) == 2;
    OccursInRange(vs, p);
    OccursInRange(vs, q);
    assert pair != Some(p) || pair != Some(q);
    if FirstWithCount(vs, 2, pair, 2).None? {
      assert false;
    }
  }

  /** Whenever two distinct values are pairs, the search for a second pair succeeds, above the first. */
  lemma SecondPairFinds(vs: seq<int>)
    requires forall i :: 0 <= i < |vs| ==> 2 <= vs[i] <= 14
    requires FirstWithCount(vs, 2, None, 2).Some?
    ensures var pair := FirstWithCount(vs, 2, None, 2);
      FirstWithCount(vs, 2, pair, 2).Some? <==> HasTwoPairs(vs)
    ensures var pair := FirstWithCount(vs, 2, None, 2);
      FirstWithCount(vs, 2, pair, 2).Some? ==> pair.value < FirstWithCount(vs, 2, pair, 2).value
  {
    var pair := FirstWithCount(vs, 2, None, 2);
    var second := FirstWithCount(vs, 2, pair, 2);
    if second.Some? {
      SecondPairAbove(vs, pair, second);
    } else if HasTwoPairs(vs) {
      SecondPairExists(vs, pair);
    }
  }

  /** What each key search finds, stated by counts. */
  lemma SearchFacts(vs: seq<int>)
    requires forall i :: 0 <= i < |vs| ==> 2 <= vs[i] <= 14
    ensures var h := Search(vs);
      && (h.four.Some? <==> HasCount(vs, 4))
      && (h.three.Some? <==> HasCount(vs, 3))
      && (h.pair.Some? <==> HasCount(vs, 2))
      && (h.second.Some? <==> HasTwoPairs(vs))
    ensures var h := Search(vs);
      && (h.four.Some? ==> Count(vs, h.four.value) == 4)
      && (h.three.Some? ==> Count(vs, h.three.value) == 3)
      && (h.pair.Some? ==> Count(vs, h.pair.value) == 2)
      && (h.second.Some? ==> h.pair.Some? && h.pair.value < h.second.value && Count(vs, h.second.value) == 2)
    ensures var h := Search(vs);
      h.pair.Some? && h.second.None? ==> forall v :: v != h.pair.value ==> Count(vs, v) != 2
  {
    var h := Search(vs);
    FirstWithCountFinds(vs, 4);
    FirstWithCountFinds(vs, 3);
    FirstWithCountFinds(vs, 2);
    if h.pair.Some? {
      SecondPairFinds(vs);
      if h.second.None? {
        forall v | v != h.pair.value ensures Count(vs, v) != 2 {
          if Count(vs, v) == 2 {
            OccursInRange(vs, v);
          }
        }
      }
    }
  }

  /** The ladder over search results that agree with the counts is the ladder over the counts. */
  lemma ClassifyOverAgreeingSearches(vs: seq<int>, flush: bool, h: Searches)
    requires |vs| == 5
    requires h.four.Some? <==> HasCount(vs, 4)
    requires h.three.Some? <==> HasCount(vs, 3)
    requires h.pair.Some? <==> HasCount(vs, 2)
    requires h.second.Some? <==> HasTwoPairs(vs)
    requires h.second.Some? ==> h.pair.Some?
    ensures Classify(vs, flush, h).category == LadderCategory(vs, flush)
  {
  }

  /** rankHand's first-match search agrees with the ladder stated by patterns. */
  lemma ClassifyFollowsLadder(hand: seq<Card>)
    requires |hand| == 5
    ensures Evaluate(hand).category == LadderCategory(SortedValues(hand), IsFlush(hand))
  {
    var vs := SortedValues(hand);
    SearchFacts(vs);
    ClassifyOverAgreeingSearches(vs, IsFlush(hand), Search(vs));
  }

  // ---------------------------------------------------------------------------
  // What the tiebreaker holds

  /** A sub-multiset of the same size is the whole multiset. */
  lemma SameSizeSubMultiset<T>(a: multiset<T>, b: multiset<T>)
    requires a <= b && |a| == |b|
    ensures a == b
  {
    forall y ensures ((b - a) + a)[y] == b[y] {
    }
    assert (b - a) + a == b;
    assert |b - a| == 0;
  }

  /** The five values form a straight that tops at `vs[0]`. */
  lemma StraightRun(vs: seq<int>)
    requires |vs| == 5 && IsStraight(vs)
    ensures vs == [vs[0], vs[0] - 1, vs[0] - 2, vs[0] - 3, vs[0] - 4]
  {
    assert vs[1] == vs[0] - 1 && vs[2] == vs[1] - 1 && vs[3] == vs[2] - 1 && vs[4] == vs[3] - 1;
  }

  /** The only straight topped by an ace is 14, 13, 12, 11, 10. */
  lemma RoyalRun(vs: seq<int>)
    requires |vs| == 5
    ensures IsStraight(vs) && vs[0] == 14 <==> vs == [14, 13, 12, 11, 10]
  {
    if IsStraight(vs) {
      StraightRun(vs);
    }
    if vs == [14, 13, 12, 11, 10] {
      assert IsStraight(vs);
    }
  }

  /** The two top rungs of the ladder, for any search results. */
  lemma ClassifyTop(vs: seq<int>, flush: bool, h: Searches)
    requires |vs| == 5
    ensures var e := Classify(vs, flush, h);
      && (e.category == RoyalFlush <==> flush && IsStraight(vs) && vs[0] == 14)
      && (e.category == StraightFlush <==> flush && IsStraight(vs) && vs[0] != 14)
      && (e.category in {RoyalFlush, StraightFlush} ==> e.tiebreaker == vs)
  {
  }

  /**
   * A flush whose descending values are 14, 13, 12, 11, 10 is a Royal Flush,
   * and only such a hand is; any other flush straight is a Straight Flush. Both
   * carry the five values as their tiebreaker.
   */
  lemma RoyalFlushExactly(hand: seq<Card>)
    requires |hand| == 5
    ensures Evaluate(hand).category == RoyalFlush <==> IsFlush(hand) && SortedValues(hand) == [14, 13, 12, 11, 10]
    ensures Evaluate(hand).category == StraightFlush <==>
      IsFlush(hand) && IsStraight(SortedValues(hand)) && SortedValues(hand)[0] != 14
    ensures Evaluate(hand).category in {RoyalFlush, StraightFlush} ==> Evaluate(hand).tiebreaker == SortedValues(hand)
  {
    var vs := SortedValues(hand);
    ClassifyTop(vs, IsFlush(hand), Search(vs));
    RoyalRun(vs);
  }

  /** An ace with a two is never a straight: the ace only counts high. */
  lemma NoLowAceStraight(vs: seq<int>)
    requires |vs| == 5 && 14 in vs && 2 in vs
    requires forall i :: 0 <= i < |vs| ==> 2 <= vs[i] <= 14
    ensures !IsStraight(vs)
  {
    if IsStraight(vs) {
      StraightRun(vs);
    }
  }

  /** Which search result each lower rung rests on, for any search results. */
  lemma ClassifyRungs(vs: seq<int>, flush: bool, h: Searches)
    requires |vs| == 5
    ensures var e := Classify(vs, flush, h);
      && (e.category == FourOfAKind ==> h.four.Some? && e.tiebreaker == [h.four.value])
      && (e.category == FullHouse ==> h.three.Some? && h.pair.Some? && e.tiebreaker == [h.three.value, h.pair.value])
      && (e.category == ThreeOfAKind ==> h.three.Some? && h.pair.None? && e.tiebreaker == [h.three.value])
      && (e.category == TwoPair ==>
           && h.three.None? && h.pair.Some? && h.second.Some?
           && e.tiebreaker == SortDesc([h.pair.value, h.second.value]) + SortDesc(Without(vs, {h.pair.value, h.second.value})))
      && (e.category == OnePair ==>
           && h.three.None? && h.pair.Some? && h.second.None?
           && e.tiebreaker == [h.pair.value] + Without(vs, {h.pair.value}))
      && (e.category in {Flush, Straight, HighCard} ==> e.tiebreaker == vs)
  {
  }

  /** Four of a Kind: the tiebreaker is the value held four times. */
  lemma FourOfAKindTiebreaker(hand: seq<Card>)
    requires |hand| == 5
    ensures var e := Evaluate(hand);
      e.category == FourOfAKind ==> |e.tiebreaker| == 1 && Count(SortedValues(hand), e.tiebreaker[0]) == 4
  {
    var vs := SortedValues(hand);
    SearchFacts(vs);
    ClassifyRungs(vs, IsFlush(hand), Search(vs));
  }

  /** Full House: the tiebreaker is the value held three times, then the value held twice. */
  lemma FullHouseTiebreaker(hand: seq<Card>)
    requires |hand| == 5
    ensures var e := Evaluate(hand);
      e.category == FullHouse ==>
        |e.tiebreaker| == 2 &&
        multiset(SortedValues(hand)) == multiset{e.tiebreaker[0], e.tiebreaker[0], e.tiebreaker[0], e.tiebreaker[1], e.tiebreaker[1]}
  {
    var vs, e := SortedValues(hand), Evaluate(hand);
    SearchFacts(vs);
    ClassifyRungs(vs, IsFlush(hand), Search(vs));
    if e.category == FullHouse {
      FullHouseValues(vs, e.tiebreaker[0], e.tiebreaker[1]);
    }
  }

  /** Three of a Kind: the tiebreaker is the value held three times, and no other value is paired. */
  lemma ThreeOfAKindTiebreaker(hand: seq<Card>)
    requires |hand| == 5
    ensures var e := Evaluate(hand);
      e.category == ThreeOfAKind ==>
        |e.tiebreaker| == 1 && Count(SortedValues(hand), e.tiebreaker[0]) == 3 && !HasCount(SortedValues(hand), 2)
  {
    var vs := SortedValues(hand);
    SearchFacts(vs);
    ClassifyRungs(vs, IsFlush(hand), Search(vs));
  }

  /** Filtering out the values of `xs` leaves every other occurrence. */
  lemma WithoutLeaves(vs: seq<int>, xs: set<int>, m: multiset<int>)
    requires forall v :: v in xs ==> m[v] == multiset(vs)[v]
    requires forall v :: v !in xs ==> m[v] == 0
    ensures multiset(Without(vs, xs)) + m == multiset(vs)
  {
    var r := Without(vs, xs);
    forall y ensures (multiset(r) + m)[y] == multiset(vs)[y] {
      if y in xs {
        assert y !in r;
      }
    }
  }

  /** Five values holding one value three times and another twice are exactly those. */
  lemma FullHouseValues(vs: seq<int>, t: int, p: int)
    requires |vs| == 5 && Count(vs, t) == 3 && Count(vs, p) == 2
    ensures multiset(vs) == multiset{t, t, t, p, p}
  {
    var m := multiset{t, t, t, p, p};
    assert m <= multiset(vs) by {
      forall y ensures m[y] <= multiset(vs)[y] {
      }
    }
    SameSizeSubMultiset(m, multiset(vs));
  }

  /** With two pairs among five values, one value is left over. */
  lemma TwoPairValues(vs: seq<int>, lo: int, hi: int)
    requires |vs| == 5 && lo != hi && Count(vs, lo) == 2 && Count(vs, hi) == 2
    ensures |Without(vs, {lo, hi})| == 1
    ensures multiset(vs) == multiset{hi, hi, lo, lo} + multiset(Without(vs, {lo, hi}))
  {
    var m := multiset{hi, hi, lo, lo};
    assert m[lo] == 2 && m[hi] == 2;
    WithoutLeaves(vs, {lo, hi}, m);
    assert |multiset(vs)| == 5 && |m| == 4;
  }

  /** The Two Pair tiebreaker: the higher pair, the lower pair, the value left over. */
  lemma TwoPairShape(vs: seq<int>, lo: int, hi: int, tb: seq<int>)
    requires |vs| == 5 && lo < hi && Count(vs, lo) == 2 && Count(vs, hi) == 2
    requires tb == SortDesc([lo, hi]) + SortDesc(Without(vs, {lo, hi}))
    ensures |tb| == 3 && tb[0] == hi && tb[1] == lo
    ensures multiset(vs) == multiset{tb[0], tb[0], tb[1], tb[1], tb[2]}
  {
    var rest := Without(vs, {lo, hi});
    TwoPairValues(vs, lo, hi);
    SortDescPair(lo, hi);
    SortDescSingle(rest);
    assert tb == [hi, lo] + rest;
    TwoPairAssemble(lo, hi, rest, tb);
    TwoPairMultiset(vs, lo, hi, rest, tb);
  }

  lemma TwoPairMultiset(vs: seq<int>, lo: int, hi: int, rest: seq<int>, tb: seq<int>)
    requires |rest| == 1 && tb == [hi, lo, rest[0]]
    requires multiset(vs) == multiset{hi, hi, lo, lo} + multiset(rest)
    ensures multiset(vs) == multiset{tb[0], tb[0], tb[1], tb[1], tb[2]}
  {
    assert rest == [rest[0]];
  }

  lemma TwoPairAssemble(lo: int, hi: int, rest: seq<int>, tb: seq<int>)
    requires |rest| == 1 && tb == [hi, lo] + rest
    ensures tb == [hi, lo, rest[0]] && rest == [rest[0]]
  {
  }

  /** Sorting two distinct values puts the larger first. */
  lemma SortDescPair(lo: int, hi: int)
    requires lo < hi
    ensures SortDesc([lo, hi]) == [hi, lo]
  {
    DescendingUnique(SortDesc([lo, hi]), [hi, lo]);
  }

  /** Sorting a single value leaves it. */
  lemma SortDescSingle(r: seq<int>)
    requires |r| == 1
    ensures SortDesc(r) == r
  {
    SortDescOfDescending(r);
  }

  /** Without its pair, five descending values leave the other three, still descending. */
  lemma OnePairValues(vs: seq<int>, p: int)
    requires |vs| == 5 && Descending(vs) && Count(vs, p) == 2
    ensures |Without(vs, {p})| == 3 && Descending(Without(vs, {p}))
    ensures multiset(vs) == multiset{p, p} + multiset(Without(vs, {p}))
  {
    WithoutLeaves(vs, {p}, multiset{p, p});
    WithoutDescending(vs, {p});
  }

  /**
   * Two Pair: the higher pair's value, the lower pair's value, then the fifth
   * card's value.
   */
  lemma TwoPairTiebreaker(hand: seq<Card>)
    requires |hand| == 5
    ensures var e := Evaluate(hand);
      e.category == TwoPair ==>
        |e.tiebreaker| == 3 && e.tiebreaker[0] > e.tiebreaker[1] &&
        multiset(SortedValues(hand)) == multiset{e.tiebreaker[0], e.tiebreaker[0], e.tiebreaker[1], e.tiebreaker[1], e.tiebreaker[2]}
    ensures var e := Evaluate(hand);
      e.category == TwoPair ==>
        |e.tiebreaker| == 3 &&
        Count(SortedValues(hand), e.tiebreaker[0]) == 2 && Count(SortedValues(hand), e.tiebreaker[1]) == 2 &&
        e.tiebreaker[2] != e.tiebreaker[0] && e.tiebreaker[2] != e.tiebreaker[1]
  {
    var vs, e, h := SortedValues(hand), Evaluate(hand), Search(SortedValues(hand));
    SearchFacts(vs);
    ClassifyRungs(vs, IsFlush(hand), h);
    if e.category == TwoPair {
      TwoPairShape(vs, h.pair.value, h.second.value, e.tiebreaker);
    }
  }

  /** One Pair: the paired value, then the other three values largest first. */
  lemma OnePairTiebreaker(hand: seq<Card>)
    requires |hand| == 5
    ensures var e := Evaluate(hand);
      e.category == OnePair ==>
        |e.tiebreaker| == 4 && Descending(e.tiebreaker[1..]) &&
        multiset(SortedValues(hand)) == multiset{e.tiebreaker[0], e.tiebreaker[0]} + multiset(e.tiebreaker[1..])
    ensures var e := Evaluate(hand);
      e.category == OnePair ==>
        |e.tiebreaker| == 4 &&
        Count(SortedValues(hand), e.tiebreaker[0]) == 2 && e.tiebreaker[0] !in e.tiebreaker[1..] &&
        forall v :: v != e.tiebreaker[0] ==> Count(SortedValues(hand), v) != 2
  {
    var vs, e, h := SortedValues(hand), Evaluate(hand), Search(SortedValues(hand));
    SearchFacts(vs);
    ClassifyRungs(vs, IsFlush(hand), h);
    if e.category == OnePair {
      OnePairValues(vs, h.pair.value);
      assert e.tiebreaker[1..] == Without(vs, {h.pair.value});
    }
  }

  /** Flush, Straight and High Card carry all five values, largest first. */
  lemma FiveValueTiebreaker(hand: seq<Card>)
    requires |hand| == 5
    ensures var e := Evaluate(hand);
      e.category in {RoyalFlush, StraightFlush, Flush, Straight, HighCard} ==> e.tiebreaker == SortedValues(hand)
    ensures var e := Evaluate(hand);
      e.category == HighCard ==> forall v :: Count(SortedValues(hand), v) != 2 && Count(SortedValues(hand), v) != 3
  {
    var vs := SortedValues(hand);
    SearchFacts(vs);
    ClassifyRungs(vs, IsFlush(hand), Search(vs));
    ClassifyTop(vs, IsFlush(hand), Search(vs));
  }

  /**
   * The tiebreaker's length is fixed by the category, so two hands of equal
   * rank have tiebreakers of equal length.
   */
  lemma TiebreakerLengthOfCategory(hand: seq<Card>)
    requires |hand| == 5
    ensures |Evaluate(hand).tiebreaker| == TiebreakerLength(Evaluate(hand).category)
  {
    var vs := SortedValues(hand);
    SearchFacts(vs);
    ClassifyLength(vs, IsFlush(hand), Search(vs));
  }

  /** The tiebreaker length, for search results whose hits have the counts searched for. */
  lemma ClassifyLength(vs: seq<int>, flush: bool, h: Searches)
    requires |vs| == 5 && Descending(vs)
    requires h.pair.Some? ==> Count(vs, h.pair.value) == 2
    requires h.second.Some? ==> h.pair.Some? && h.pair.value < h.second.value && Count(vs, h.second.value) == 2
    ensures |Classify(vs, flush, h).tiebreaker| == TiebreakerLength(Classify(vs, flush, h).category)
  {
    var e := Classify(vs, flush, h);
    ClassifyRungs(vs, flush, h);
    ClassifyTop(vs, flush, h);
    if e.category == TwoPair {
      TwoPairShape(vs, h.pair.value, h.second.value, e.tiebreaker);
    } else if e.category == OnePair {
      OnePairValues(vs, h.pair.value);
    }
  }

  // ---------------------------------------------------------------------------
  // The Two Pair test hand: 10, 10, 9, 9, 2

  /** Value counts of the Two Pair test hand. */
  lemma TwoPairTestCounts(vs: seq<int>)
    requires vs == [10, 10, 9, 9, 2]
    ensures forall v :: Count(vs, v) == if v == 10 || v == 9 then 2 else if v == 2 then 1 else 0
  {
    assert multiset(vs) == multiset{10, 10, 9, 9, 2};
  }

  lemma TwoPairTestValues(hand: seq<Card>)
    requires hand == [Card(10, Spades), Card(10, Hearts), Card(9, Spades), Card(9, Hearts), Card(2, Spades)]
    ensures SortedValues(hand) == [10, 10, 9, 9, 2]
  {
    assert Map(CardValue, hand) == [10, 10, 9, 9, 2];
    assert Descending([10, 10, 9, 9, 2]);
    DescendingUnique(SortedValues(hand), [10, 10, 9, 9, 2]);
  }

  lemma TwoPairTestNotFlush(hand: seq<Card>)
    requires hand == [Card(10, Spades), Card(10, Hearts), Card(9, Spades), Card(9, Hearts), Card(2, Spades)]
    ensures !IsFlush(hand)
  {
    assert hand[1].suit != hand[0].suit;
  }

  /** The searches over the test hand: no four or three of a kind, first pair 9, second pair 10. */
  lemma TwoPairTestSearch(vs: seq<int>)
    requires vs == [10, 10, 9, 9, 2]
    ensures Search(vs) == Searches(None, None, Some(9), Some(10))
  {
    TwoPairTestCounts(vs);
    FirstWithCountNone(vs, 4, None, 2);
    FirstWithCountNone(vs, 3, None, 2);
    FirstWithCountIsLeast(vs, 2, None, 2, 9);
    FirstWithCountIsLeast(vs, 2, Some(9), 2, 10);
  }

  lemma TwoPairTestKicker(vs: seq<int>)
    requires vs == [10, 10, 9, 9, 2]
    ensures SortDesc(Without(vs, {9, 10})) == [2]
  {
    TwoPairTestCounts(vs);
    var r := Without(vs, {9, 10});
    assert multiset(r) == multiset{2} by {
      forall v ensures multiset(r)[v] == multiset{2}[v] {
        if v in {9, 10} {
          assert v !in r;
        }
      }
    }
    assert |r| == 1 && r[0] in multiset(r);
    assert r == [2];
    SortDescSingle([2]);
  }

  lemma Concat3(a: seq<int>, b: seq<int>, x: int, y: int, z: int)
    requires a == [x, y] && b == [z]
    ensures a + b == [x, y, z]
  {
  }

  lemma TwoPairTestClassify(vs: seq<int>, h: Searches)
    requires vs == [10, 10, 9, 9, 2] && h == Searches(None, None, Some(9), Some(10))
    ensures Classify(vs, false, h) == Evaluation(TwoPair, [10, 9, 2])
  {
    assert !IsStraight(vs) by { assert vs[1] != vs[0] - 1; }
    assert Classify(vs, false, h).category == TwoPair;
    ClassifyRungs(vs, false, h);
    SortDescPair(9, 10);
    TwoPairTestKicker(vs);
    Concat3(SortDesc([9, 10]), SortDesc(Without(vs, {9, 10})), 10, 9, 2);
  }

  lemma TwoPairTestEvaluate(cards: seq<Card>)
    requires cards == [Card(10, Spades), Card(10, Hearts), Card(9, Spades), Card(9, Hearts), Card(2, Spades)]
    ensures Evaluate(cards) == Evaluation(TwoPair, [10, 9, 2])
  {
    TwoPairTestValues(cards);
    TwoPairTestNotFlush(cards);
    var vs := SortedValues(cards);
    TwoPairTestSearch(vs);
    TwoPairTestClassify(vs, Search(vs));
    assert Evaluate(cards) == Classify(vs, false, Search(vs));
  }

  lemma TwoPairTestParses(hand: seq<string>, cards: seq<Card>)
    requires hand == ["10\U{2660}", "10\U{2665}", "9\U{2660}", "9\U{2665}", "2\U{2660}"]
    requires cards == [Card(10, Spades), Card(10, Hearts), Card(9, Spades), Card(9, Hearts), Card(2, Spades)]
    ensures AllCards(hand) && Map(CardOf, hand) == cards
  {
    forall i | 0 <= i < 5 ensures ParseCard(hand[i]) == Some(cards[i]) {
      assert hand[i] == CardString(cards[i]);
      ParsePrint(cards[i]);
    }
  }

  /**
   * The Two Pair test hand 10, 10, 9, 9, 2 ranks 3 with tiebreaker
   * [10, 9, 2]: the higher pair comes first.
   */
  lemma TwoPairTestHand()
    ensures RankHand(["10\U{2660}", "10\U{2665}", "9\U{2660}", "9\U{2665}", "2\U{2660}"])
      == Success(RankedHand(3, "Two Pair", [10, 9, 2]))
  {
    var hand := ["10\U{2660}", "10\U{2665}", "9\U{2660}", "9\U{2665}", "2\U{2660}"];
    var cards := [Card(10, Spades), Card(10, Hearts), Card(9, Spades), Card(9, Hearts), Card(2, Spades)];
    TwoPairTestParses(hand, cards);
    TwoPairTestEvaluate(cards);
    RankHandOfParsed(hand, cards);
    assert HandRanking(TwoPair) == 3 && CategoryName(TwoPair) == "Two Pair";
  }

  /** Five strings that parse are ranked by evaluating their cards. */
  lemma RankHandOfParsed(hand: seq<string>, cards: seq<Card>)
    requires |hand| == 5 && AllCards(hand) && Map(CardOf, hand) == cards
    ensures RankHand(hand) == Success(RankedHand(HandRanking(Evaluate(cards).category), CategoryName(Evaluate(cards).category), Evaluate(cards).tiebreaker))
  {
  }
}
