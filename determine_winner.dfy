/**
 * Picking the winners of a showdown (client/src/utils/game/determineWinner.ts):
 * rank every hand, keep the hands of the highest category rank, break ties by
 * the tiebreaker vectors compared lexicographically, and report every player
 * whose tiebreaker equals the best one.
 */
module DetermineWinner {
  import opened Wrappers
  import opened Cards
  import opened HandEvaluator

  /** One entry of `rankedHands`: the player's index and the fields rankHand returned. */
  datatype PlayerRanking = PlayerRanking(playerIndex: nat, rank: int, name: string, tiebreaker: seq<int>)

  /** What determineWinner returns. */
  datatype Outcome = Outcome(winners: seq<nat>, rankedHands: seq<PlayerRanking>)

  /** What determineWinner throws: an empty player list, or the error of the first hand rankHand rejects. */
  datatype WinnerError = NoPlayers | BadHand(cause: HandError)

  // ---------------------------------------------------------------------------
  // Lexicographic order on tiebreakers

  /** `a` is ahead of `b` at the first position where they differ. */
  predicate LexGreater(a: seq<int>, b: seq<int>)
  {
    a != [] && b != [] && (a[0] > b[0] || (a[0] == b[0] && LexGreater(a[1..], b[1..])))
  }

  lemma {:induction false} LexIrreflexive(a: seq<int>)
    ensures !LexGreater(a, a)
  {
    if a != [] {
      LexIrreflexive(a[1..]);
    }
  }

  lemma {:induction false} LexAsymmetric(a: seq<int>, b: seq<int>)
    ensures !(LexGreater(a, b) && LexGreater(b, a))
  {
    if a != [] && b != [] && a[0] == b[0] {
      LexAsymmetric(a[1..], b[1..]);
    }
  }

  lemma {:induction false} LexTransitive(a: seq<int>, b: seq<int>, c: seq<int>)
    requires LexGreater(a, b) && LexGreater(b, c)
    ensures LexGreater(a, c)
  {
    if a[0] == b[0] && b[0] == c[0] {
      LexTransitive(a[1..], b[1..], c[1..]);
    }
  }

  /** Between tiebreakers of one length, one of two different ones is ahead. */
  lemma {:induction false} LexTotal(a: seq<int>, b: seq<int>)
    requires |a| == |b| && a != b
    ensures LexGreater(a, b) || LexGreater(b, a)
  {
    if a[0] == b[0] {
      assert a[1..] != b[1..] by {
        assert a == [a[0]] + a[1..] && b == [b[0]] + b[1..];
      }
      LexTotal(a[1..], b[1..]);
    }
  }

  /** After an equal prefix of length `i`, the order is decided at position `i`. */
  lemma {:induction false} LexAtFirstDifference(a: seq<int>, b: seq<int>, i: nat)
    requires i < |a| && i < |b| && a[..i] == b[..i] && a[i] != b[i]
    ensures LexGreater(a, b) <==> a[i] > b[i]
    ensures LexGreater(b, a) <==> b[i] > a[i]
  {
    if i > 0 {
      assert a[0] == a[..i][0] == b[..i][0] == b[0];
      assert a[1..][..i - 1] == a[..i][1..] == b[..i][1..] == b[1..][..i - 1];
      LexAtFirstDifference(a[1..], b[1..], i - 1);
    }
  }

  /**
   * The comparator of the tie-break sort: negative when `a` should come first
   * (its tiebreaker is ahead), positive when `b` should, zero for equal vectors.
   */
  method CompareTiebreakers(a: seq<int>, b: seq<int>) returns (d: int)
    requires |a| == |b|
    ensures d < 0 <==> LexGreater(a, b)
    ensures d > 0 <==> LexGreater(b, a)
    ensures d == 0 <==> a == b
  {
    var i := 0;
    while i < |a|
      invariant 0 <= i <= |a|
      invariant a[..i] == b[..i]
    {
      if a[i] != b[i] {
        LexAtFirstDifference(a, b, i);
        LexAsymmetric(a, b);
        return b[i] - a[i];
      }
      assert a[..i + 1] == a[..i] + [a[i]];
      assert b[..i + 1] == b[..i] + [b[i]];
      i := i + 1;
    }
    assert a == a[..i] && b == b[..i];
    LexIrreflexive(a);
    return 0;
  }

  // ---------------------------------------------------------------------------
  // Ranking every hand

  /** The `rankedHands` entry of player `i` for a hand rankHand accepted. */
  function Entry(i: nat, h: RankedHand): PlayerRanking
  {
    PlayerRanking(i, h.rank, h.name, h.tiebreaker)
  }

  /**
   * The entries of a map over rankHand's results, in order: the first
   * rejection aborts the whole map with its error.
   */
  function Collect(results: seq<Result<RankedHand, HandError>>): (r: Result<seq<PlayerRanking>, HandError>)
    ensures r.Success? ==> |r.value| == |results|
  {
    if results == [] then Success([])
    else
      var n := |results| - 1;
      match Collect(results[..n])
      case Failure(e) => Failure(e)
      case Success(rs) =>
        match results[n]
        case Failure(e) => Failure(e)
        case Success(h) => Success(rs + [Entry(n, h)])
  }

  /** The map succeeds exactly when every result is a success. */
  lemma {:induction false} CollectSucceeds(results: seq<Result<RankedHand, HandError>>)
    ensures Collect(results).Success? <==> forall i :: 0 <= i < |results| ==> results[i].Success?
  {
    if results != [] {
      var n := |results| - 1;
      CollectSucceeds(results[..n]);
      assert forall i :: 0 <= i < n ==> results[..n][i] == results[i];
    }
  }

  /** Entry `i` of a successful map is built from result `i`. */
  lemma {:induction false} CollectEntries(results: seq<Result<RankedHand, HandError>>)
    requires Collect(results).Success?
    ensures forall i :: 0 <= i < |results| ==>
      results[i].Success? && Collect(results).value[i] == Entry(i, results[i].value)
  {
    if results != [] {
      var n := |results| - 1;
      var prefix := Collect(results[..n]).value;
      CollectEntries(results[..n]);
      assert Collect(results).value == prefix + [Entry(n, results[n].value)];
      forall i | 0 <= i < n
        ensures results[i].Success? && Collect(results).value[i] == Entry(i, results[i].value)
      {
        assert results[..n][i] == results[i];
      }
    }
  }

  /** A failed map carries the error of the first failed result. */
  lemma {:induction false} CollectFailsFirst(results: seq<Result<RankedHand, HandError>>)
    requires Collect(results).Failure?
    ensures exists k ::
      && 0 <= k < |results|
      && results[k] == Failure(Collect(results).error)
      && forall j :: 0 <= j < k ==> results[j].Success?
  {
    var n := |results| - 1;
    assert forall i :: 0 <= i < n ==> results[..n][i] == results[i];
    if Collect(results[..n]).Failure? {
      CollectFailsFirst(results[..n]);
      var k :| 0 <= k < n && results[..n][k] == Failure(Collect(results[..n]).error) &&
        (forall j :: 0 <= j < k ==> results[..n][j].Success?);
      assert results[k] == Failure(Collect(results).error);
    } else {
      CollectSucceeds(results[..n]);
    }
  }

  /** `players.map((hand, index) => ({ playerIndex: index, ...rankHand(hand) }))` */
  function RankAll(players: seq<seq<string>>): (r: Result<seq<PlayerRanking>, HandError>)
    ensures r.Success? ==> |r.value| == |players|
  {
    Collect(RankResults(players))
  }

  /** rankHand's result for each player. */
  function RankResults(players: seq<seq<string>>): (results: seq<Result<RankedHand, HandError>>)
    ensures |results| == |players|
    ensures forall i :: 0 <= i < |players| ==> results[i] == RankHand(players[i])
  {
    seq(|players|, i requires 0 <= i < |players| => RankHand(players[i]))
  }

  /** Ranking succeeds exactly when rankHand accepts every hand. */
  lemma RankAllSucceeds(players: seq<seq<string>>)
    ensures RankAll(players).Success? <==> forall i :: 0 <= i < |players| ==> RankHand(players[i]).Success?
  {
    CollectSucceeds(RankResults(players));
  }

  /** Entry `i` of a successful ranking is player `i`'s ranking. */
  lemma RankAllEntries(players: seq<seq<string>>)
    requires RankAll(players).Success?
    ensures forall i :: 0 <= i < |players| ==>
      RankHand(players[i]).Success? && RankAll(players).value[i] == Entry(i, RankHand(players[i]).value)
  {
    CollectEntries(RankResults(players));
  }

  /** A failed ranking fails with the error of the first hand rankHand rejects. */
  lemma RankAllFailsFirst(players: seq<seq<string>>)
    requires RankAll(players).Failure?
    ensures exists k ::
      && 0 <= k < |players|
      && RankHand(players[k]) == Failure(RankAll(players).error)
      && forall j :: 0 <= j < k ==> RankHand(players[j]).Success?
  {
    var results := RankResults(players);
    CollectFailsFirst(results);
    var k :| 0 <= k < |results| && results[k] == Failure(Collect(results).error) &&
      (forall j :: 0 <= j < k ==> results[j].Success?);
    assert RankHand(players[k]) == Failure(RankAll(players).error);
  }

  // ---------------------------------------------------------------------------
  // The highest category and the contenders

  /** `Math.max(...rankedHands.map(hand => hand.rank))` */
  function MaxRank(rs: seq<PlayerRanking>): (m: int)
    requires rs != []
    ensures forall i :: 0 <= i < |rs| ==> rs[i].rank <= m
    ensures exists i :: 0 <= i < |rs| && rs[i].rank == m
  {
    if |rs| == 1 then rs[0].rank
    else
      var m := MaxRank(rs[1..]);
      assert forall i :: 1 <= i < |rs| ==> rs[i] == rs[1..][i - 1];
      if rs[0].rank >= m then rs[0].rank else m
  }

  /** `rankedHands.filter(hand => hand.rank === highestRank)` */
  function WithRank(rs: seq<PlayerRanking>, m: int): (cs: seq<PlayerRanking>)
    ensures forall c :: c in cs <==> c in rs && c.rank == m
  {
    if rs == [] then []
    else (if rs[0].rank == m then [rs[0]] else []) + WithRank(rs[1..], m)
  }

  /** Player indices strictly increase along the sequence. */
  ghost predicate IndicesIncrease(rs: seq<PlayerRanking>)
  {
    forall i, j :: 0 <= i < j < |rs| ==> rs[i].playerIndex < rs[j].playerIndex
  }

  lemma {:induction false} WithRankKeepsOrder(rs: seq<PlayerRanking>, m: int)
    requires IndicesIncrease(rs)
    ensures IndicesIncrease(WithRank(rs, m))
  {
    if rs != [] {
      WithRankKeepsOrder(rs[1..], m);
      var tail := WithRank(rs[1..], m);
      forall k | 0 <= k < |tail| ensures rs[0].playerIndex < tail[k].playerIndex {
        assert tail[k] in rs[1..];
      }
      var head := if rs[0].rank == m then [rs[0]] else [];
      assert WithRank(rs, m) == head + tail;
    }
  }

  // ---------------------------------------------------------------------------
  // The tie-break

  /** Every tiebreaker of `cs` has length `n`. */
  ghost predicate TiebreakersOfLength(cs: seq<PlayerRanking>, n: nat)
  {
    forall i :: 0 <= i < |cs| ==> |cs[i].tiebreaker| == n
  }

  /**
   * The tiebreaker the sort puts first (`potentialWinners[0].tiebreaker`):
   * a selection of the lexicographically greatest one, using the sort's
   * comparator.
   */
  method BestTiebreaker(cs: seq<PlayerRanking>, n: nat) returns (best: seq<int>)
    requires cs != [] && TiebreakersOfLength(cs, n)
    ensures exists i :: 0 <= i < |cs| && cs[i].tiebreaker == best
    ensures forall i :: 0 <= i < |cs| ==> !LexGreater(cs[i].tiebreaker, best)
  {
    best := cs[0].tiebreaker;
    LexIrreflexive(best);
    var k := 1;
    while k < |cs|
      invariant 1 <= k <= |cs|
      invariant exists i :: 0 <= i < k && cs[i].tiebreaker == best
      invariant forall i :: 0 <= i < k ==> !LexGreater(cs[i].tiebreaker, best)
    {
      var d := CompareTiebreakers(cs[k].tiebreaker, best);
      if d < 0 {
        forall i | 0 <= i < k ensures !LexGreater(cs[i].tiebreaker, cs[k].tiebreaker) {
          if LexGreater(cs[i].tiebreaker, cs[k].tiebreaker) {
            LexTransitive(cs[i].tiebreaker, cs[k].tiebreaker, best);
          }
        }
        LexIrreflexive(cs[k].tiebreaker);
        best := cs[k].tiebreaker;
      }
      k := k + 1;
    }
  }

  /** `.filter(hand => hand.tiebreaker.join() === winningRank.join()).map(hand => hand.playerIndex)` */
  function IndicesWith(cs: seq<PlayerRanking>, best: seq<int>): (w: seq<nat>)
    ensures forall k :: k in w <==> exists c :: c in cs && c.tiebreaker == best && c.playerIndex == k
  {
    if cs == [] then []
    else (if cs[0].tiebreaker == best then [cs[0].playerIndex] else []) + IndicesWith(cs[1..], best)
  }

  /** Strictly increasing indices. */
  ghost predicate Increasing(w: seq<nat>)
  {
    forall i, j :: 0 <= i < j < |w| ==> w[i] < w[j]
  }

  lemma {:induction false} IndicesWithKeepsOrder(cs: seq<PlayerRanking>, best: seq<int>)
    requires IndicesIncrease(cs)
    ensures Increasing(IndicesWith(cs, best))
  {
    if cs != [] {
      IndicesWithKeepsOrder(cs[1..], best);
      var tail := IndicesWith(cs[1..], best);
      forall k | 0 <= k < |tail| ensures cs[0].playerIndex < tail[k] {
        assert tail[k] in tail;
        var c :| c in cs[1..] && c.tiebreaker == best && c.playerIndex == tail[k];
      }
      var head := if cs[0].tiebreaker == best then [cs[0].playerIndex] else [];
      assert IndicesWith(cs, best) == head + tail;
    }
  }

  // ---------------------------------------------------------------------------
  // determineWinner

  /**
   * Player `i` wins: their hand is of the highest category rank, and no hand
   * of that rank has a tiebreaker ahead of theirs.
   */
  ghost predicate IsWinner(rs: seq<PlayerRanking>, i: int)
    requires rs != []
  {
    && 0 <= i < |rs|
    && rs[i].rank == MaxRank(rs)
    && forall j :: 0 <= j < |rs| && rs[j].rank == rs[i].rank ==> !LexGreater(rs[j].tiebreaker, rs[i].tiebreaker)
  }

  /** Hands accepted by rankHand with equal category ranks have tiebreakers of equal length. */
  lemma SameRankSameLength(h1: seq<string>, h2: seq<string>)
    requires RankHand(h1).Success? && RankHand(h2).Success?
    requires RankHand(h1).value.rank == RankHand(h2).value.rank
    ensures |RankHand(h1).value.tiebreaker| == |RankHand(h2).value.tiebreaker|
  {
    var c1, c2 := Map(CardOf, h1), Map(CardOf, h2);
    TiebreakerLengthOfCategory(c1);
    TiebreakerLengthOfCategory(c2);
    RankingIdentifiesCategory(Evaluate(c1).category, Evaluate(c2).category);
  }

  /** Entry `i` belongs to player `i`. */
  ghost predicate Indexed(rs: seq<PlayerRanking>)
  {
    forall i :: 0 <= i < |rs| ==> rs[i].playerIndex == i
  }

  /** Entries of one category rank have tiebreakers of one length. */
  ghost predicate RankFixesLength(rs: seq<PlayerRanking>)
  {
    forall i, j :: 0 <= i < |rs| && 0 <= j < |rs| && rs[i].rank == rs[j].rank ==>
      |rs[i].tiebreaker| == |rs[j].tiebreaker|
  }

  /** A successful map lists the players in order, and its category ranks fix the tiebreaker lengths. */
  lemma RankAllShape(players: seq<seq<string>>)
    requires RankAll(players).Success?
    ensures Indexed(RankAll(players).value)
    ensures RankFixesLength(RankAll(players).value)
  {
    var rs := RankAll(players).value;
    RankAllEntries(players);
    forall i, j | 0 <= i < |rs| && 0 <= j < |rs| && rs[i].rank == rs[j].rank
      ensures |rs[i].tiebreaker| == |rs[j].tiebreaker|
    {
      SameRankSameLength(players[i], players[j]);
    }
  }

  /** The hands of one rank all have the tiebreaker length of the first of them. */
  lemma ContendersShareLength(rs: seq<PlayerRanking>, m: int)
    requires RankFixesLength(rs)
    requires WithRank(rs, m) != []
    ensures var cs := WithRank(rs, m);
      TiebreakersOfLength(cs, |cs[0].tiebreaker|)
  {
    var cs := WithRank(rs, m);
    assert cs[0] in rs;
    var i0 :| 0 <= i0 < |rs| && rs[i0] == cs[0];
    forall i | 0 <= i < |cs| ensures |cs[i].tiebreaker| == |cs[0].tiebreaker| {
      assert cs[i] in rs;
      var j :| 0 <= j < |rs| && rs[j] == cs[i];
    }
  }

  /**
   * determineWinner: fails on an empty player list and with the first
   * rejected hand's error; otherwise reports every ranked hand and, in
   * ascending order, exactly the players no other hand beats.
   */
  method DetermineWinner(players: seq<seq<string>>) returns (r: Result<Outcome, WinnerError>)
    ensures players == [] ==> r == Failure(NoPlayers)
    ensures players != [] && RankAll(players).Failure? ==> r == Failure(BadHand(RankAll(players).error))
    ensures players != [] && RankAll(players).Success? ==> r.Success? && r.value.rankedHands == RankAll(players).value
    ensures r.Success? ==>
      && r.value.rankedHands != []
      && r.value.winners != []
      && Increasing(r.value.winners)
      && (forall w :: w in r.value.winners ==> w < |r.value.rankedHands|)
      && forall i :: 0 <= i < |r.value.rankedHands| ==> (i in r.value.winners <==> IsWinner(r.value.rankedHands, i))
  {
    if players == [] {
      return Failure(NoPlayers);
    }
    var ranking := RankAll(players);
    if ranking.Failure? {
      return Failure(BadHand(ranking.error));
    }
    var rs := ranking.value;
    RankAllShape(players);
    var top := MaxRank(rs);
    var contenders := WithRank(rs, top);
    var i0 :| 0 <= i0 < |rs| && rs[i0].rank == top;
    assert rs[i0] in contenders;
    ContendersShareLength(rs, top);
    var best := BestTiebreaker(contenders, |contenders[0].tiebreaker|);
    var winners := IndicesWith(contenders, best);
    WinnersAreOrdered(rs, top, best);
    WinnersAreIndices(rs, top, best);
    WinnersAreUnbeaten(rs, top, best);
    UnbeatenAreWinners(rs, top, best);
    return Success(Outcome(winners, rs));
  }

  /** The tie-break picks at least one player, and lists them in ascending order. */
  lemma WinnersAreOrdered(rs: seq<PlayerRanking>, top: int, best: seq<int>)
    requires Indexed(rs)
    requires exists i :: 0 <= i < |WithRank(rs, top)| && WithRank(rs, top)[i].tiebreaker == best
    ensures IndicesWith(WithRank(rs, top), best) != []
    ensures Increasing(IndicesWith(WithRank(rs, top), best))
  {
    var cs := WithRank(rs, top);
    assert IndicesIncrease(rs);
    WithRankKeepsOrder(rs, top);
    IndicesWithKeepsOrder(cs, best);
    var b :| 0 <= b < |cs| && cs[b].tiebreaker == best;
    assert cs[b] in cs;
    assert cs[b].playerIndex in IndicesWith(cs, best);
  }

  /** The tie-break picks only indices of ranked hands. */
  lemma WinnersAreIndices(rs: seq<PlayerRanking>, top: int, best: seq<int>)
    requires Indexed(rs)
    ensures forall k :: k in IndicesWith(WithRank(rs, top), best) ==> k < |rs|
  {
    var cs := WithRank(rs, top);
    forall k | k in IndicesWith(cs, best) ensures k < |rs| {
      var c :| c in cs && c.tiebreaker == best && c.playerIndex == k;
      var j :| 0 <= j < |rs| && rs[j] == c;
    }
  }

  /** Every player the tie-break picks is unbeaten. */
  lemma WinnersAreUnbeaten(rs: seq<PlayerRanking>, top: int, best: seq<int>)
    requires rs != [] && Indexed(rs)
    requires top == MaxRank(rs)
    requires forall i :: 0 <= i < |WithRank(rs, top)| ==> !LexGreater(WithRank(rs, top)[i].tiebreaker, best)
    ensures forall i :: 0 <= i < |rs| && i in IndicesWith(WithRank(rs, top), best) ==> IsWinner(rs, i)
  {
    var cs := WithRank(rs, top);
    forall i | 0 <= i < |rs| && i in IndicesWith(cs, best) ensures IsWinner(rs, i) {
      var c :| c in cs && c.tiebreaker == best && c.playerIndex == i;
      assert c == rs[i];
      forall k | 0 <= k < |rs| && rs[k].rank == rs[i].rank
        ensures !LexGreater(rs[k].tiebreaker, rs[i].tiebreaker)
      {
        assert rs[k] in cs;
      }
    }
  }

  /** A winner's tiebreaker that does not beat the best one is the best one: tiebreakers of one rank are totally ordered. */
  lemma WinnerHoldsBest(rs: seq<PlayerRanking>, i: int, j: int)
    requires rs != [] && RankFixesLength(rs)
    requires 0 <= j < |rs| && rs[j].rank == MaxRank(rs)
    requires IsWinner(rs, i) && !LexGreater(rs[i].tiebreaker, rs[j].tiebreaker)
    ensures rs[i].tiebreaker == rs[j].tiebreaker
  {
    assert !LexGreater(rs[j].tiebreaker, rs[i].tiebreaker);
    if rs[i].tiebreaker != rs[j].tiebreaker {
      LexTotal(rs[i].tiebreaker, rs[j].tiebreaker);
      assert false;
    }
  }

  /** What no position of `cs` beats, no member of `cs` beats. */
  lemma NoneBeatsBest(cs: seq<PlayerRanking>, c: PlayerRanking, best: seq<int>)
    requires c in cs
    requires forall i :: 0 <= i < |cs| ==> !LexGreater(cs[i].tiebreaker, best)
    ensures !LexGreater(c.tiebreaker, best)
  {
    var ci :| 0 <= ci < |cs| && cs[ci] == c;
  }

  /** Every unbeaten player is picked by the tie-break. */
  lemma UnbeatenAreWinners(rs: seq<PlayerRanking>, top: int, best: seq<int>)
    requires rs != [] && Indexed(rs) && RankFixesLength(rs)
    requires top == MaxRank(rs)
    requires exists i :: 0 <= i < |WithRank(rs, top)| && WithRank(rs, top)[i].tiebreaker == best
    requires forall i :: 0 <= i < |WithRank(rs, top)| ==> !LexGreater(WithRank(rs, top)[i].tiebreaker, best)
    ensures forall i :: 0 <= i < |rs| && IsWinner(rs, i) ==> i in IndicesWith(WithRank(rs, top), best)
  {
    var cs := WithRank(rs, top);
    var b :| 0 <= b < |cs| && cs[b].tiebreaker == best;
    assert cs[b] in rs;
    var j :| 0 <= j < |rs| && rs[j] == cs[b];
    forall i | 0 <= i < |rs| && IsWinner(rs, i) ensures i in IndicesWith(cs, best) {
      assert rs[i] in cs;
      NoneBeatsBest(cs, rs[i], best);
      WinnerHoldsBest(rs, i, j);
      assert rs[i].playerIndex == i;
    }
  }

  /** Players whose hands rank the same with the same tiebreaker either both win or both lose. */
  lemma TiedHandsShareTheOutcome(rs: seq<PlayerRanking>, i: int, j: int)
    requires 0 <= i < |rs| && 0 <= j < |rs|
    requires rs[i].rank == rs[j].rank && rs[i].tiebreaker == rs[j].tiebreaker
    ensures IsWinner(rs, i) <==> IsWinner(rs, j)
  {
  }
}
