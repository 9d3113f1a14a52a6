/**
 * The showdown of src/lib/showdown.js: each player's best five-card hand out of
 * two hole cards and five board cards (`evaluatePlayerHand`), then the winners
 * and the split of the pot (`runShowdown`).
 *
 * The hand evaluator is a third-party library; the model sees it only through
 * the two answers the source asks of it, the score (lower is better) and the
 * rank name of the hand written as a string.
 */
module Showdown {
  import opened Wrappers
  import opened Seqs
  import opened Sorting
  import opened Cards
  import opened Subsets

  /** The library's `PokerHand`: `getScore()` and `getRank()` of the hand built from a string. */
  datatype HandEvaluator = HandEvaluator(score: string -> int, rankName: string -> string)

  /** The ordinal of each rank name, best first. */
  const HandRankOrder: map<string, int> := map[
    "ROYAL_FLUSH" := 1,
    "STRAIGHT_FLUSH" := 2,
    "FOUR_OF_A_KIND" := 3,
    "FULL_HOUSE" := 4,
    "FLUSH" := 5,
    "STRAIGHT" := 6,
    "THREE_OF_A_KIND" := 7,
    "TWO_PAIRS" := 8,
    "ONE_PAIR" := 9,
    "HIGH_CARD" := 10
  ]

  /** `HAND_RANK_ORDER[rankName] ?? 99`: a known name's ordinal, 99 for any other name. */
  function RankOf(name: string): (r: int)
    ensures name in HandRankOrder ==> 1 <= r <= 10
    ensures r == 99 <==> name !in HandRankOrder
  {
    if name in HandRankOrder then HandRankOrder[name] else 99
  }

  /** No two rank names share an ordinal. */
  lemma RankOfInjective(a: string, b: string)
    requires a in HandRankOrder && b in HandRankOrder && a != b
    ensures RankOf(a) != RankOf(b)
  {
  }

  /** Example: the best and the worst named ranks, and an unknown name. */
  lemma RankOfExamples()
    ensures RankOf("ROYAL_FLUSH") == 1 && RankOf("HIGH_CARD") == 10 && RankOf("PAIR") == 99
  {
    assert "PAIR" != "ONE_PAIR" && "PAIR" != "TWO_PAIRS";
  }

  /** `cards.join(' ')`. */
  function JoinSpaced(cards: seq<string>): (r: string)
    decreases |cards|
  {
    if cards == [] then ""
    else if |cards| == 1 then cards[0]
    else cards[0] + " " + JoinSpaced(cards[1..])
  }

  /**
   * The layout of joined card tokens: token `i` sits at offset `3 * i`, and a
   * single space follows every token but the last.
   */
  lemma {:induction false} JoinSpacedLayout(cards: seq<string>)
    requires forall i :: 0 <= i < |cards| ==> |cards[i]| == 2
    ensures |JoinSpaced(cards)| == if cards == [] then 0 else 3 * |cards| - 1
    ensures forall i :: 0 <= i < |cards| ==> JoinSpaced(cards)[3 * i..3 * i + 2] == cards[i]
    ensures forall i :: 0 <= i < |cards| - 1 ==> JoinSpaced(cards)[3 * i..3 * i + 3] == cards[i] + " "
    decreases |cards|
  {
    if |cards| > 1 {
      var rest := cards[1..];
      JoinSpacedLayout(rest);
      var tail := JoinSpaced(rest);
      var r := JoinSpaced(cards);
      assert r == cards[0] + " " + tail;
      forall i | 0 <= i < |cards| ensures r[3 * i..3 * i + 2] == cards[i] {
        if i > 0 {
          assert rest[i - 1] == cards[i];
          assert r[3 * i..3 * i + 2] == tail[3 * (i - 1)..3 * (i - 1) + 2];
        }
      }
      forall i | 0 <= i < |cards| - 1 ensures r[3 * i..3 * i + 3] == cards[i] + " " {
        if i > 0 {
          assert rest[i - 1] == cards[i];
          assert r[3 * i..3 * i + 3] == tail[3 * (i - 1)..3 * (i - 1) + 3];
        }
      }
    }
  }

  /**
   * Different lists of card tokens give the evaluator different strings, so a
   * hand's score depends on its cards alone.
   */
  lemma JoinSpacedInjective(a: seq<string>, b: seq<string>)
    requires forall i :: 0 <= i < |a| ==> |a[i]| == 2
    requires forall i :: 0 <= i < |b| ==> |b[i]| == 2
    requires JoinSpaced(a) == JoinSpaced(b)
    ensures a == b
  {
    JoinSpacedLayout(a);
    JoinSpacedLayout(b);
    assert |a| == |b|;
    forall i | 0 <= i < |a| ensures a[i] == b[i] {
      assert a[i] == JoinSpaced(a)[3 * i..3 * i + 2];
    }
  }

  /** What `evaluateFiveCards` returns for one five-card hand. */
  datatype FiveEval = FiveEval(cards: seq<string>, score: int, rankName: string, rank: int)

  function EvaluateFive(ev: HandEvaluator, cards5: seq<string>): (e: FiveEval)
    ensures e.cards == cards5
    ensures e.score == ev.score(JoinSpaced(cards5)) && e.rankName == ev.rankName(JoinSpaced(cards5))
    ensures 1 <= e.rank <= 10 || e.rank == 99
    ensures e.rank == 99 <==> e.rankName !in HandRankOrder
  {
    var hand := JoinSpaced(cards5);
    FiveEval(cards5, ev.score(hand), ev.rankName(hand), RankOf(ev.rankName(hand)))
  }

  function FiveScore(e: FiveEval): int {
    e.score
  }

  /** `all5.map(evaluateFiveCards)`. */
  function EvaluateEach(ev: HandEvaluator, hands: seq<seq<string>>): (r: seq<FiveEval>)
    ensures |r| == |hands|
  {
    seq(|hands|, i requires 0 <= i < |hands| => EvaluateFive(ev, hands[i]))
  }

  /** A player's evaluated hand, as `evaluatePlayerHand` returns it. */
  datatype PlayerEval = PlayerEval(holeCards: seq<string>, rank: int, rankName: string, score: int, best5: seq<string>)

  /** Why `evaluatePlayerHand` or `runShowdown` throws. */
  datatype ShowdownError =
    | CardRefused(cause: CardError) // thrown by `validateCards` / `parseCard`
    | WrongHoleCount                // "Player must have exactly 2 hole cards"
    | WrongBoardCount               // "Board must have exactly 5 cards"
    | HoleBoardOverlap              // "Duplicate cards between hole and board"
    | NoPlayers                     // "At least one player required"
    | NegativePot                   // "Pot must be a non-negative number"

  /**
   * The first of `hands` after a stable sort by score: the first hand, in the
   * order given, that has the least score.
   */
  function BestOf(ev: HandEvaluator, hands: seq<seq<string>>): (best: FiveEval)
    requires |hands| > 0
    ensures best.cards in hands
    ensures best == EvaluateFive(ev, best.cards)
    ensures forall c :: c in hands ==> best.score <= EvaluateFive(ev, c).score
    ensures exists i :: && 0 <= i < |hands| && best.cards == hands[i]
                        && forall j :: 0 <= j < i ==> EvaluateFive(ev, hands[j]).score > best.score
  {
    var evals := EvaluateEach(ev, hands);
    SortByHeadIsFirstLeast(evals, FiveScore);
    var best := SortBy(evals, FiveScore)[0];
    assert exists i :: && 0 <= i < |hands| && best.cards == hands[i]
                       && forall j :: 0 <= j < i ==> EvaluateFive(ev, hands[j]).score > best.score by {
      var i :| && 0 <= i < |evals| && best == evals[i]
               && (forall j :: 0 <= j < i ==> FiveScore(evals[j]) > FiveScore(evals[i]));
      assert best.cards == hands[i];
      forall j | 0 <= j < i ensures EvaluateFive(ev, hands[j]).score > best.score {
        assert evals[j] == EvaluateFive(ev, hands[j]);
      }
    }
    assert forall c :: c in hands ==> best.score <= EvaluateFive(ev, c).score by {
      forall c | c in hands ensures best.score <= EvaluateFive(ev, c).score {
        var j :| 0 <= j < |hands| && hands[j] == c;
        assert evals[j] == EvaluateFive(ev, c);
      }
    }
    best
  }

  /**
   * `evaluatePlayerHand`: checks the card counts, validates hole and board,
   * refuses a card held in both, then picks the best of the 21 five-card hands.
   */
  function PlayerHand(ev: HandEvaluator, holeCards: seq<string>, boardCards: seq<string>): (r: Result<PlayerEval, ShowdownError>)
    ensures |holeCards| != 2 ==> r == Err(WrongHoleCount)
    ensures |holeCards| == 2 && |boardCards| != 5 ==> r == Err(WrongBoardCount)
    ensures |holeCards| == 2 && |boardCards| == 5 && ValidateCards(holeCards).Err? ==>
      r == Err(CardRefused(ValidateCards(holeCards).error))
    ensures |holeCards| == 2 && |boardCards| == 5 && ValidateCards(holeCards).Ok? && ValidateCards(boardCards).Err? ==>
      r == Err(CardRefused(ValidateCards(boardCards).error))
    ensures && |holeCards| == 2 && |boardCards| == 5 && ValidateCards(holeCards).Ok? && ValidateCards(boardCards).Ok?
            && !Distinct(ValidateCards(holeCards).value + ValidateCards(boardCards).value) ==>
      r == Err(HoleBoardOverlap)
    ensures r.Ok? <==> && |holeCards| == 2 && |boardCards| == 5
                       && ValidateCards(holeCards).Ok? && ValidateCards(boardCards).Ok?
                       && Distinct(ValidateCards(holeCards).value + ValidateCards(boardCards).value)
    ensures r.Ok? ==> r.value.holeCards == ValidateCards(holeCards).value
  {
    if |holeCards| != 2 then Err(WrongHoleCount)
    else if |boardCards| != 5 then Err(WrongBoardCount)
    else match ValidateCards(holeCards)
      case Err(e) => Err(CardRefused(e))
      case Ok(hole) =>
        match ValidateCards(boardCards)
        case Err(e) => Err(CardRefused(e))
        case Ok(board) =>
          var seven := hole + board;
          if HasDuplicate(seven) then Err(HoleBoardOverlap)
          else
            FiveOfSeven(seven);
            var best := BestOf(ev, Choose(seven, 5));
            Ok(PlayerEval(hole, best.rank, best.rankName, best.score, best.cards))
  }

  /**
   * `evaluatePlayerHand` as the source runs it: enumerates the five-card hands,
   * evaluates them into an array, sorts that array in place by score and takes
   * its first element.
   */
  method EvaluatePlayerHand(ev: HandEvaluator, holeCards: seq<string>, boardCards: seq<string>)
    returns (r: Result<PlayerEval, ShowdownError>)
    ensures r == PlayerHand(ev, holeCards, boardCards)
  {
    if |holeCards| != 2 {
      return Err(WrongHoleCount);
    }
    if |boardCards| != 5 {
      return Err(WrongBoardCount);
    }
    var hole := ValidateCards(holeCards);
    if hole.Err? {
      return Err(CardRefused(hole.error));
    }
    var board := ValidateCards(boardCards);
    if board.Err? {
      return Err(CardRefused(board.error));
    }
    var seven := hole.value + board.value;
    if HasDuplicate(seven) {
      return Err(HoleBoardOverlap);
    }
    var all5 := Combinations(seven, 5);
    FiveOfSeven(seven);
    var evals := new FiveEval[|all5|](i requires 0 <= i < |all5| => EvaluateFive(ev, all5[i]));
    assert evals[..] == EvaluateEach(ev, all5);
    SortByKey(evals, FiveScore);
    var best := evals[0];
    return Ok(PlayerEval(hole.value, best.rank, best.rankName, best.score, best.cards));
  }

  /**
   * The hand reported is the first of the 21 five-card hands of the player's
   * seven cards that no other of them beats, with that hand's own score, rank
   * name and rank.
   */
  lemma PlayerHandIsBest(ev: HandEvaluator, holeCards: seq<string>, boardCards: seq<string>)
    requires PlayerHand(ev, holeCards, boardCards).Ok?
    ensures var h := PlayerHand(ev, holeCards, boardCards).value;
      var all5 := Choose(ValidateCards(holeCards).value + ValidateCards(boardCards).value, 5);
      && h.best5 in all5
      && EvaluateFive(ev, h.best5) == FiveEval(h.best5, h.score, h.rankName, h.rank)
      && h.rank == RankOf(h.rankName)
      && (forall c :: c in all5 ==> h.score <= EvaluateFive(ev, c).score)
      && exists i :: && 0 <= i < |all5| && h.best5 == all5[i]
                     && forall j :: 0 <= j < i ==> EvaluateFive(ev, all5[j]).score > h.score
  {
    var seven := ValidateCards(holeCards).value + ValidateCards(boardCards).value;
    FiveOfSeven(seven);
    var best := BestOf(ev, Choose(seven, 5));
  }

  /** The best five cards are five distinct cards out of the player's seven. */
  lemma BestFiveIsHand(ev: HandEvaluator, holeCards: seq<string>, boardCards: seq<string>)
    requires PlayerHand(ev, holeCards, boardCards).Ok?
    ensures var best5 := PlayerHand(ev, holeCards, boardCards).value.best5;
      && |best5| == 5 && Distinct(best5)
      && forall c :: c in best5 ==> c in ValidateCards(holeCards).value + ValidateCards(boardCards).value
  {
    var seven := ValidateCards(holeCards).value + ValidateCards(boardCards).value;
    var best5 := PlayerHand(ev, holeCards, boardCards).value.best5;
    ChooseSound(seven, 5, best5);
    SubsequenceElements(best5, seven);
    SubsequenceDistinct(best5, seven);
  }

  /** A player at the showdown: seat, name and the two hole cards as given. */
  datatype Contender = Contender(seat: int, username: string, holeCards: seq<string>)

  /** A player's entry in `playerResults` and `winners`. */
  datatype PlayerResult = PlayerResult(seat: int, username: string, hand: PlayerEval)

  /** An entry of `potShareList`. */
  datatype PotShare = PotShare(seat: int, username: string, amount: int)

  /**
   * What `runShowdown` returns. `potShares` is keyed by seat; the source keys it
   * by the seat's decimal string, which names each seat by exactly one key.
   */
  datatype ShowdownResult = ShowdownResult(
    boardCards: seq<string>,
    winners: seq<PlayerResult>,
    playerResults: seq<PlayerResult>,
    potShares: map<int, int>,
    potShareList: seq<PotShare>)

  function HandScore(p: PlayerResult): int {
    p.hand.score
  }

  function SeatOf(p: PlayerResult): int {
    p.seat
  }

  /** One player's entry of `playerResults`, or the error `evaluatePlayerHand` throws for them. */
  function Evaluated(ev: HandEvaluator, p: Contender, board: seq<string>): (r: Result<PlayerResult, ShowdownError>)
    ensures r.Ok? <==> PlayerHand(ev, p.holeCards, board).Ok?
    ensures r.Ok? ==> r.value == PlayerResult(p.seat, p.username, PlayerHand(ev, p.holeCards, board).value)
    ensures r.Err? ==> r.error == PlayerHand(ev, p.holeCards, board).error
  {
    var hand :- PlayerHand(ev, p.holeCards, board);
    Ok(PlayerResult(p.seat, p.username, hand))
  }

  /** `players.map(...)`: every player's result, in order, or the first refusal's error. */
  function EvaluateAll(ev: HandEvaluator, players: seq<Contender>, board: seq<string>): (r: Result<seq<PlayerResult>, ShowdownError>)
    ensures r.Ok? <==> forall i :: 0 <= i < |players| ==> Evaluated(ev, players[i], board).Ok?
    ensures r.Ok? ==> && |r.value| == |players|
                      && forall i :: 0 <= i < |players| ==> Evaluated(ev, players[i], board) == Ok(r.value[i])
    ensures r.Err? ==> exists k :: && 0 <= k < |players|
                                   && (forall j :: 0 <= j < k ==> Evaluated(ev, players[j], board).Ok?)
                                   && Evaluated(ev, players[k], board) == Err(r.error)
  {
    var f := (p: Contender) => Evaluated(ev, p, board);
    var r := MapAll(f, players);
    assert r.Err? ==> f(players[FirstErr(f, players)]) == Err(r.error);
    r
  }

  /**
   * `potShareList` for a pot of `intPot` whole chips (never negative, since
   * the source refuses a negative pot before flooring it): each winner, in
   * order, gets `intPot / n`, and the first `intPot % n` of them one chip more.
   */
  function SplitPot(winners: seq<PlayerResult>, intPot: nat): (r: seq<PotShare>)
    ensures |r| == |winners|
    ensures forall i :: 0 <= i < |r| ==> r[i].seat == winners[i].seat && r[i].username == winners[i].username
  {
    if winners == [] then []
    else
      var n := |winners|;
      var base := intPot / n;
      var remainder := intPot % n;
      seq(n, i requires 0 <= i < n => PotShare(winners[i].seat, winners[i].username, base + if i < remainder then 1 else 0))
  }

  /** The chips handed out. */
  function Total(shares: seq<PotShare>): int
    decreases |shares|
  {
    if shares == [] then 0 else Total(shares[..|shares| - 1]) + shares[|shares| - 1].amount
  }

  /** Shares of `base` chips, the first `extra` of them one chip more, add up prefix by prefix. */
  lemma {:induction false} PrefixTotal(r: seq<PotShare>, base: int, extra: nat, k: nat)
    requires k <= |r|
    requires forall i :: 0 <= i < |r| ==> r[i].amount == base + if i < extra then 1 else 0
    ensures Total(r[..k]) == k * base + (if k < extra then k else extra)
  {
    if k > 0 {
      PrefixTotal(r, base, extra, k - 1);
      assert r[..k][..k - 1] == r[..k - 1];
      assert k * base == (k - 1) * base + base;
    }
  }

  lemma SplitPotPrefix(winners: seq<PlayerResult>, intPot: nat, k: nat)
    requires 0 < |winners| && k <= |winners|
    ensures var n := |winners|;
      Total(SplitPot(winners, intPot)[..k]) == k * (intPot / n) + (if k < intPot % n then k else intPot % n)
  {
    var n := |winners|;
    PrefixTotal(SplitPot(winners, intPot), intPot / n, intPot % n, k);
  }

  /** The split hands out exactly the whole chips of the pot. */
  lemma SplitPotTotal(winners: seq<PlayerResult>, intPot: nat)
    requires |winners| > 0
    ensures Total(SplitPot(winners, intPot)) == intPot
  {
    var r := SplitPot(winners, intPot);
    SplitPotPrefix(winners, intPot, |winners|);
    assert r[..|winners|] == r;
  }

  /**
   * The split is as even as whole chips allow: shares differ by at most one
   * chip, and a winner earlier in seat order never gets less than a later one.
   */
  lemma SplitPotFair(winners: seq<PlayerResult>, intPot: nat)
    requires |winners| > 0
    ensures var r := SplitPot(winners, intPot);
      && (forall i :: 0 <= i < |r| ==> intPot / |winners| <= r[i].amount <= intPot / |winners| + 1)
      && (forall i, j :: 0 <= i < j < |r| ==> r[j].amount <= r[i].amount <= r[j].amount + 1)
      && (forall i :: 0 <= i < |r| ==> (r[i].amount == intPot / |winners| + 1 <==> i < intPot % |winners|))
  {
  }

  /** A sole winner takes every whole chip of the pot. */
  lemma SoleWinnerTakesPot(w: PlayerResult, intPot: nat)
    ensures SplitPot([w], intPot) == [PotShare(w.seat, w.username, intPot)]
  {
  }

  /** Example: a pot of 101 split between two winners gives the lower seat the odd chip. */
  lemma SplitPotExample(a: PlayerResult, b: PlayerResult)
    ensures var r := SplitPot([a, b], 101); r[0].amount == 51 && r[1].amount == 50
  {
  }

  /**
   * `Object.fromEntries`: one key per seat; when a seat occurs more than once the
   * last of its entries is the one kept.
   */
  function ShareMap(shares: seq<PotShare>): (m: map<int, int>)
    ensures m.Keys == set i | 0 <= i < |shares| :: shares[i].seat
    ensures forall i :: 0 <= i < |shares| && LastOfSeat(shares, i)
                        ==> shares[i].seat in m && m[shares[i].seat] == shares[i].amount
    decreases |shares|
  {
    if shares == [] then map[]
    else
      var init, last := shares[..|shares| - 1], shares[|shares| - 1];
      var m := ShareMap(init);
      SeatsStep(shares);
      AmountsStep(shares, m);
      m[last.seat := last.amount]
  }

  /** No entry after `shares[i]` has its seat. */
  predicate LastOfSeat(shares: seq<PotShare>, i: nat)
    requires i < |shares|
  {
    forall j :: i < j < |shares| ==> shares[j].seat != shares[i].seat
  }

  /** The seats of `shares` are those of all but the last entry, and the last one's. */
  lemma SeatsStep(shares: seq<PotShare>)
    requires |shares| > 0
    ensures var init := shares[..|shares| - 1];
      (set i | 0 <= i < |shares| :: shares[i].seat)
      == (set i | 0 <= i < |init| :: init[i].seat) + {shares[|shares| - 1].seat}
  {
    var init, last := shares[..|shares| - 1], shares[|shares| - 1];
    var all := set i | 0 <= i < |shares| :: shares[i].seat;
    var before := set i | 0 <= i < |init| :: init[i].seat;
    forall x | x in all ensures x in before + {last.seat} {
      var i :| 0 <= i < |shares| && shares[i].seat == x;
      if i < |init| {
        assert init[i] == shares[i];
      }
    }
    forall x | x in before ensures x in all {
      var i :| 0 <= i < |init| && init[i].seat == x;
      assert shares[i] == init[i];
    }
  }

  /** An entry whose seat does not occur later keeps its amount once the last entry is added. */
  lemma AmountsStep(shares: seq<PotShare>, m: map<int, int>)
    requires |shares| > 0
    requires var init := shares[..|shares| - 1];
      forall i :: 0 <= i < |init| && LastOfSeat(init, i)
                  ==> init[i].seat in m && m[init[i].seat] == init[i].amount
    ensures var last := shares[|shares| - 1]; var m' := m[last.seat := last.amount];
      forall i :: 0 <= i < |shares| && LastOfSeat(shares, i)
                  ==> shares[i].seat in m' && m'[shares[i].seat] == shares[i].amount
  {
    var init, last := shares[..|shares| - 1], shares[|shares| - 1];
    var m' := m[last.seat := last.amount];
    forall i | 0 <= i < |shares| && LastOfSeat(shares, i)
      ensures shares[i].seat in m' && m'[shares[i].seat] == shares[i].amount
    {
      if i < |init| {
        assert init[i] == shares[i];
        assert shares[i].seat != last.seat;
        assert LastOfSeat(init, i) by {
          forall j | i < j < |init| ensures init[j].seat != init[i].seat {
            assert init[j] == shares[j];
          }
        }
      }
    }
  }

  /**
   * The second half of `runShowdown`, once every player is evaluated: ranks the
   * results by score, takes those with the best score in seat order, and
   * splits the whole chips of the pot among them.
   */
  function Settle(board: seq<string>, results: seq<PlayerResult>, intPot: nat): (r: ShowdownResult)
    requires |results| > 0
    ensures r.boardCards == board
    ensures multiset(r.playerResults) == multiset(results)
    ensures |r.potShareList| == |r.winners|
    ensures forall i :: 0 <= i < |r.winners| ==> r.potShareList[i].seat == r.winners[i].seat
  {
    var ranked := SortBy(results, HandScore);
    SortByPermutes(results, HandScore);
    var winners := SortBy(WithKey(ranked, HandScore, ranked[0].hand.score), SeatOf);
    var shares := SplitPot(winners, intPot);
    ShowdownResult(board, winners, ranked, ShareMap(shares), shares)
  }

  /**
   * `runShowdown`: refuses an empty table, an invalid or short board and a
   * negative pot; evaluates every player; ranks them by score; the winners are
   * the players with the best score, in seat order; the floored pot is split
   * among them.
   */
  function Showdown(ev: HandEvaluator, players: seq<Contender>, boardCards: seq<string>, pot: real)
    : (r: Result<ShowdownResult, ShowdownError>)
    ensures |players| == 0 ==> r == Err(NoPlayers)
    ensures |players| > 0 && ValidateCards(boardCards).Err? ==> r == Err(CardRefused(ValidateCards(boardCards).error))
    ensures |players| > 0 && ValidateCards(boardCards).Ok? && |boardCards| != 5 ==> r == Err(WrongBoardCount)
    ensures |players| > 0 && ValidateCards(boardCards).Ok? && |boardCards| == 5 && pot < 0.0 ==> r == Err(NegativePot)
    ensures && |players| > 0 && ValidateCards(boardCards).Ok? && |boardCards| == 5 && pot >= 0.0
            && EvaluateAll(ev, players, ValidateCards(boardCards).value).Err? ==>
      r == Err(EvaluateAll(ev, players, ValidateCards(boardCards).value).error)
    ensures r.Ok? <==> && |players| > 0 && ValidateCards(boardCards).Ok? && |boardCards| == 5 && pot >= 0.0
                       && EvaluateAll(ev, players, ValidateCards(boardCards).value).Ok?
    ensures r.Ok? ==> r.value == Settle(ValidateCards(boardCards).value,
                                        EvaluateAll(ev, players, ValidateCards(boardCards).value).value,
                                        pot.Floor)
  {
    if |players| < 1 then Err(NoPlayers)
    else match ValidateCards(boardCards)
      case Err(e) => Err(CardRefused(e))
      case Ok(board) =>
        if |board| != 5 then Err(WrongBoardCount)
        else if pot < 0.0 then Err(NegativePot)
        else match EvaluateAll(ev, players, board)
          case Err(e) => Err(e)
          case Ok(results) => Ok(Settle(board, results, pot.Floor))
  }

  /** `p` has a score no other result beats. */
  ghost predicate IsBest(p: PlayerResult, results: seq<PlayerResult>) {
    forall q :: q in results ==> p.hand.score <= q.hand.score
  }

  /** Those ranked level with the first are exactly the best-scored results. */
  lemma TiedAreBest(results: seq<PlayerResult>)
    requires |results| > 0
    ensures |SortBy(results, HandScore)| == |results|
    ensures var ranked := SortBy(results, HandScore);
      forall x :: multiset(WithKey(ranked, HandScore, ranked[0].hand.score))[x]
                  == if IsBest(x, results) then multiset(results)[x] else 0
  {
    var ranked := SortBy(results, HandScore);
    SortByPermutes(results, HandScore);
    SortByHeadIsLeast(results, HandScore);
    var best := ranked[0].hand.score;
    WithKeyCounts(ranked, HandScore, best);
    forall x | x in results ensures IsBest(x, results) <==> HandScore(x) == best {
    }
  }

  /**
   * The best-scored results, in seat order: not empty, each best-scored result
   * as often as it occurs, and sorted by seat.
   */
  lemma TiedInSeatOrder(results: seq<PlayerResult>)
    requires |results| > 0
    ensures |SortBy(results, HandScore)| == |results|
    ensures var ranked := SortBy(results, HandScore);
      var winners := SortBy(WithKey(ranked, HandScore, ranked[0].hand.score), SeatOf);
      && |winners| > 0
      && (forall x :: multiset(winners)[x] == if IsBest(x, results) then multiset(results)[x] else 0)
      && (forall w :: w in winners ==> w in results && IsBest(w, results))
      && SortedBy(winners, SeatOf)
  {
    var ranked := SortBy(results, HandScore);
    TiedAreBest(results);
    var tied := WithKey(ranked, HandScore, ranked[0].hand.score);
    SortByPermutes(tied, SeatOf);
    SortBySorted(tied, SeatOf);
    var winners := SortBy(tied, SeatOf);
    SortByHeadIsLeast(results, HandScore);
    assert multiset(winners)[ranked[0]] > 0;
    forall w | w in winners ensures w in results && IsBest(w, results) {
      assert multiset(winners)[w] > 0;
    }
  }

  /**
   * `playerResults` is every player's result ranked by score; the winners are
   * exactly the results with the best score (each as often as it occurs),
   * ordered by seat.
   */
  lemma SettleWinners(board: seq<string>, results: seq<PlayerResult>, intPot: nat)
    requires |results| > 0
    ensures var res := Settle(board, results, intPot);
      && multiset(res.playerResults) == multiset(results)
      && SortedBy(res.playerResults, HandScore)
      && |res.winners| > 0
      && (forall x :: multiset(res.winners)[x] == if IsBest(x, results) then multiset(results)[x] else 0)
      && (forall w :: w in res.winners ==> w in results && IsBest(w, results))
      && SortedBy(res.winners, SeatOf)
  {
    SortBySorted(results, HandScore);
    TiedInSeatOrder(results);
  }

  /** `potShares` has a key for each winner's seat and no other. */
  lemma ShareMapSeats(winners: seq<PlayerResult>, intPot: nat)
    ensures ShareMap(SplitPot(winners, intPot)).Keys == set w | w in winners :: w.seat
  {
    var shares := SplitPot(winners, intPot);
    var seats := set w | w in winners :: w.seat;
    forall x | x in seats ensures x in ShareMap(shares) {
      var w :| w in winners && w.seat == x;
      var i :| 0 <= i < |winners| && winners[i] == w;
      assert shares[i].seat == x;
    }
  }

  /**
   * The whole chips of the pot all go to the winners: one share per winner, in
   * the winners' seat order, adding up to `intPot`; `potShares` has a key for
   * each winner's seat and no other.
   */
  lemma SettlePot(board: seq<string>, results: seq<PlayerResult>, intPot: nat)
    requires |results| > 0
    ensures var res := Settle(board, results, intPot);
      && |res.potShareList| == |res.winners|
      && (forall i :: 0 <= i < |res.winners| ==> res.potShareList[i].seat == res.winners[i].seat)
      && Total(res.potShareList) == intPot
      && res.potShares.Keys == set w | w in res.winners :: w.seat
  {
    var res := Settle(board, results, intPot);
    SettleWinners(board, results, intPot);
    assert res.potShareList == SplitPot(res.winners, intPot);
    SplitPotTotal(res.winners, intPot);
    ShareMapSeats(res.winners, intPot);
  }

  /**
   * Sorts the evaluated results in place by score, filters the best-scored ones
   * into a new array and sorts that by seat, as `runShowdown` does.
   */
  method SettleResults(board: seq<string>, playerResults: array<PlayerResult>, intPot: nat) returns (r: ShowdownResult)
    requires playerResults.Length > 0
    modifies playerResults
    ensures r == Settle(board, old(playerResults[..]), intPot)
    ensures playerResults[..] == r.playerResults
  {
    SortByKey(playerResults, HandScore);
    var bestScore := playerResults[0].hand.score;
    var tied := WithKey(playerResults[..], HandScore, bestScore);
    var winners := new PlayerResult[|tied|](i requires 0 <= i < |tied| => tied[i]);
    assert winners[..] == tied;
    SortByKey(winners, SeatOf);
    var potShareList := SplitPot(winners[..], intPot);
    return ShowdownResult(board, winners[..], playerResults[..], ShareMap(potShareList), potShareList);
  }

  /** `players.map(...)` in `runShowdown`: evaluates the players one by one, stopping at the first refusal. */
  method EvaluatePlayers(ev: HandEvaluator, players: seq<Contender>, board: seq<string>)
    returns (r: Result<seq<PlayerResult>, ShowdownError>)
    ensures r == EvaluateAll(ev, players, board)
  {
    ghost var f := (p: Contender) => Evaluated(ev, p, board);
    var results: seq<PlayerResult> := [];
    for i := 0 to |players|
      invariant |results| == i
      invariant forall j :: 0 <= j < i ==> f(players[j]) == Ok(results[j])
    {
      var hand := EvaluatePlayerHand(ev, players[i].holeCards, board);
      if hand.Err? {
        assert f(players[i]) == Err(hand.error);
        FirstErrAt(f, players, i);
        return Err(hand.error);
      }
      var result := PlayerResult(players[i].seat, players[i].username, hand.value);
      assert f(players[i]) == Ok(result);
      OkSnoc(f, players, results, result);
      results := results + [result];
    }
    MapAllOk(f, players, results);
    return Ok(results);
  }

  /** `runShowdown`: the checks, then the players' results, then the settlement. */
  method RunShowdown(ev: HandEvaluator, players: seq<Contender>, boardCards: seq<string>, pot: real)
    returns (r: Result<ShowdownResult, ShowdownError>)
    ensures r == Showdown(ev, players, boardCards, pot)
  {
    if |players| < 1 {
      return Err(NoPlayers);
    }
    var validated := ValidateCards(boardCards);
    if validated.Err? {
      return Err(CardRefused(validated.error));
    }
    var board := validated.value;
    if |board| != 5 {
      return Err(WrongBoardCount);
    }
    if pot < 0.0 {
      return Err(NegativePot);
    }
    var evaluated := EvaluatePlayers(ev, players, board);
    if evaluated.Err? {
      return Err(evaluated.error);
    }
    var settled := SettleEvaluated(board, evaluated.value, pot.Floor);
    return Ok(settled);
  }

  /** Copies the evaluated results into a fresh array and settles the showdown on it. */
  method SettleEvaluated(board: seq<string>, results: seq<PlayerResult>, intPot: nat) returns (r: ShowdownResult)
    requires |results| > 0
    ensures r == Settle(board, results, intPot)
  {
    var playerResults := new PlayerResult[|results|](i requires 0 <= i < |results| => results[i]);
    assert playerResults[..] == results;
    r := SettleResults(board, playerResults, intPot);
  }
}
