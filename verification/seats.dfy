/**
 * Seat arithmetic of the lobby and of the hand start / end-of-turn derivations
 * in app.js: seats are the integers 1..8, and "next seat" is the circular
 * successor among the occupied seats.
 */
module Seats {
  import opened Wrappers
  import opened Sorting
  import opened Seqs

  /** Size of the table (app.js `MAX_PLAYERS`). */
  const MaxPlayers: int := 8

  /** A row of the lobby: its session id, display name and seat (`null` when not seated). */
  datatype LobbyPlayer = LobbyPlayer(sessionId: string, username: string, seat: Option<int>)

  /** The table settings a hand start reads. */
  datatype Settings = Settings(smallBlind: int, bigBlind: int, turnSeconds: int)

  /** The parts of the shared game record that a hand start reads (`hand_no` may be `null`). */
  datatype Game = Game(handNo: Option<nat>, dealerSeat: Option<int>)

  /** The seats `startHand` derives, the session that acts first and the opening pot. */
  datatype HandStart = HandStart(
    handNo: nat,
    dealerSeat: int,
    smallBlindSeat: int,
    bigBlindSeat: int,
    turnSeat: int,
    turnSessionId: string,
    pot: int)

  datatype StartError = NotEnoughPlayers

  /**
   * What `endTurn` does: nothing (no current player), hand the turn to the player
   * seated at `nextSeat`, or fail on a missing next player.
   */
  datatype TurnChange = NoCurrentPlayer | PassTurn(nextSeat: int, nextSessionId: string) | NoNextPlayer

  /** The set of seat numbers held by some player. */
  function UsedSeats(players: seq<LobbyPlayer>): set<int> {
    set p | p in players && p.seat.Some? :: p.seat.value
  }

  /**
   * The lowest seat in 1..MaxPlayers that no player holds, or `None` when the
   * table is full.
   */
  method AssignOpenSeat(players: seq<LobbyPlayer>) returns (seat: Option<int>)
    ensures seat.Some? ==>
      && 1 <= seat.value <= MaxPlayers
      && seat.value !in UsedSeats(players)
      && forall s :: 1 <= s < seat.value ==> s in UsedSeats(players)
    ensures seat.None? <==> forall s :: 1 <= s <= MaxPlayers ==> s in UsedSeats(players)
  {
    var used := UsedSeats(players);
    var i := 1;
    while i <= MaxPlayers
      invariant 1 <= i <= MaxPlayers + 1
      invariant forall s :: 1 <= s < i ==> s in used
    {
      if i !in used {
        return Some(i);
      }
      i := i + 1;
    }
    return None;
  }

  /** The players that hold a seat, kept in lobby order (`SeatedCounts` gives their multiplicities). */
  function Seated(players: seq<LobbyPlayer>): (r: seq<LobbyPlayer>)
    ensures |r| <= |players|
    ensures forall p :: p in r <==> p in players && p.seat.Some?
    ensures IsSubsequence(r, players)
  {
    if players == [] then []
    else
      var rest := Seated(players[1..]);
      if players[0].seat.Some? then
        assert ([players[0]] + rest)[1..] == rest;
        [players[0]] + rest
      else rest
  }

  /** Each seated player is kept as often as it occurs in the lobby, and no unseated one is kept. */
  lemma {:induction false} SeatedCounts(players: seq<LobbyPlayer>)
    ensures forall p :: multiset(Seated(players))[p] == if p.seat.Some? then multiset(players)[p] else 0
  {
    if players != [] {
      SeatedCounts(players[1..]);
      assert players == [players[0]] + players[1..];
    }
  }

  /**
   * Looking a seat up among the seated players finds the same player as
   * looking it up in the whole lobby: the first one holding that seat.
   */
  lemma {:induction false} FindSeatSeated(players: seq<LobbyPlayer>, seat: int)
    requires seat in UsedSeats(players)
    ensures seat in UsedSeats(Seated(players))
    ensures Seated(players)[FindSeat(Seated(players), seat)] == players[FindSeat(players, seat)]
  {
    var seated := Seated(players);
    var p :| p in players && p.seat == Some(seat);
    assert p in seated;
    if players[0].seat != Some(seat) {
      assert seat in UsedSeats(players[1..]) by {
        assert p in players[1..];
      }
      FindSeatSeated(players[1..], seat);
    }
  }

  /** The seat numbers of the seated players, in lobby order (repetitions kept). */
  function OccupiedSeats(players: seq<LobbyPlayer>): (r: seq<int>)
    ensures |r| == |Seated(players)|
    ensures forall s :: s in r <==> s in UsedSeats(players)
  {
    if players == [] then []
    else
      assert forall q :: q in players[1..] ==> q in players;
      assert forall q :: q in players ==> q == players[0] || q in players[1..];
      (if players[0].seat.Some? then [players[0].seat.value] else []) + OccupiedSeats(players[1..])
  }

  /** The least element of a non-empty sequence (JavaScript's `Math.min(...s)`). */
  function MinOf(s: seq<int>): (m: int)
    requires |s| > 0
    ensures m in s
    ensures forall x :: x in s ==> m <= x
  {
    if |s| == 1 then s[0]
    else
      var rest := MinOf(s[1..]);
      assert forall x :: x in s ==> x == s[0] || x in s[1..];
      if s[0] <= rest then s[0] else rest
  }

  /** The elements of `s` strictly greater than `from`. */
  function Above(s: seq<int>, from: int): (r: seq<int>)
    ensures forall x :: x in r <==> x in s && x > from
  {
    if s == [] then []
    else
      assert forall x :: x in s ==> x == s[0] || x in s[1..];
      (if s[0] > from then [s[0]] else []) + Above(s[1..], from)
  }

  /**
   * `r` is the circular successor of `from` among `occupied`: the least occupied
   * seat strictly greater than `from` when there is one, otherwise (wrapping
   * round) the least occupied seat.
   */
  ghost predicate IsCircularSuccessor(from: int, occupied: seq<int>, r: int) {
    && r in occupied
    && if exists s :: s in occupied && s > from then
         r > from && forall s :: s in occupied && s > from ==> r <= s
       else
         forall s :: s in occupied ==> r <= s
  }

  /** The circular successor of `from` among `occupied`; `None` (`undefined`) when nothing is occupied. */
  function NextOccupied(from: int, occupied: seq<int>): (r: Option<int>)
    ensures r.None? <==> occupied == []
    ensures r.Some? ==> IsCircularSuccessor(from, occupied, r.value)
  {
    if occupied == [] then None
    else
      var above := Above(occupied, from);
      if above != [] then Some(MinOf(above)) else Some(MinOf(occupied))
  }

  /** There is only one circular successor. */
  lemma CircularSuccessorUnique(from: int, occupied: seq<int>, r1: int, r2: int)
    requires IsCircularSuccessor(from, occupied, r1)
    requires IsCircularSuccessor(from, occupied, r2)
    ensures r1 == r2
  {
  }

  /** `s` is in ascending order. */
  ghost predicate Ascending(s: seq<int>) {
    forall i, j :: 0 <= i < j < |s| ==> s[i] <= s[j]
  }

  /** Sorting seat numbers by value keeps the same seats and puts them in ascending order. */
  lemma SortSeats(occupied: seq<int>)
    ensures Ascending(SortBy(occupied, (x: int) => x))
    ensures forall x :: x in SortBy(occupied, (x: int) => x) <==> x in occupied
  {
    var byValue := (x: int) => x;
    var ss := SortBy(occupied, byValue);
    SortByPermutes(occupied, byValue);
    SortBySorted(occupied, byValue);
    assert forall x :: x in ss <==> x in multiset(ss);
    assert forall x :: x in occupied <==> x in multiset(occupied);
  }

  /** In an ascending copy, the first seat above `from` is its circular successor. */
  lemma FirstAboveIsSuccessor(from: int, occupied: seq<int>, ss: seq<int>, i: nat)
    requires Ascending(ss) && forall x :: x in ss <==> x in occupied
    requires i < |ss| && ss[i] > from
    requires forall k :: 0 <= k < i ==> ss[k] <= from
    ensures IsCircularSuccessor(from, occupied, ss[i])
  {
    forall s | s in occupied && s > from ensures ss[i] <= s {
      var k :| 0 <= k < |ss| && ss[k] == s;
    }
  }

  /** In an ascending copy with no seat above `from`, the first seat is its circular successor. */
  lemma WrapIsSuccessor(from: int, occupied: seq<int>, ss: seq<int>)
    requires Ascending(ss) && forall x :: x in ss <==> x in occupied
    requires |ss| > 0
    requires forall k :: 0 <= k < |ss| ==> ss[k] <= from
    ensures IsCircularSuccessor(from, occupied, ss[0])
  {
    forall s | s in occupied ensures ss[0] <= s && s <= from {
      var k :| 0 <= k < |ss| && ss[k] == s;
    }
  }

  /**
   * Copies the occupied seats, sorts the copy in ascending order and returns the
   * first seat above `fromSeat`, or else the first (least) seat.
   */
  method NextOccupiedSeat(fromSeat: int, occupiedSeats: seq<int>) returns (r: Option<int>)
    ensures r == NextOccupied(fromSeat, occupiedSeats)
  {
    var sorted := new int[|occupiedSeats|](k requires 0 <= k < |occupiedSeats| => occupiedSeats[k]);
    assert sorted[..] == occupiedSeats;
    SortByKey(sorted, (x: int) => x);
    SortSeats(occupiedSeats);
    r := ScanSorted(sorted, fromSeat, occupiedSeats);
  }

  /** The scan of `nextOccupiedSeat` over the ascending copy `sorted` of `occupied`. */
  method ScanSorted(sorted: array<int>, fromSeat: int, ghost occupied: seq<int>) returns (r: Option<int>)
    requires sorted.Length == |occupied|
    requires Ascending(sorted[..]) && forall x :: x in sorted[..] <==> x in occupied
    ensures r == NextOccupied(fromSeat, occupied)
  {
    ghost var ss := sorted[..];
    for i := 0 to sorted.Length
      invariant forall k :: 0 <= k < i ==> ss[k] <= fromSeat
    {
      if sorted[i] > fromSeat {
        FirstAboveIsSuccessor(fromSeat, occupied, ss, i);
        NextOccupiedIsCalled(occupied, fromSeat, sorted[i]);
        return Some(sorted[i]);
      }
    }
    if sorted.Length == 0 {
      return None;
    }
    WrapIsSuccessor(fromSeat, occupied, ss);
    NextOccupiedIsCalled(occupied, fromSeat, sorted[0]);
    return Some(sorted[0]);
  }

  /** Two seats from the table example: 7 wraps round to 1, and 3 moves on to 5. */
  lemma CircularExamples()
    ensures NextOccupied(7, [1, 3, 5, 7]) == Some(1)
    ensures NextOccupied(3, [1, 3, 5, 7]) == Some(5)
  {
    assert Above([1, 3, 5, 7], 7) == [];
    assert Above([1, 3, 5, 7], 3) == [5, 7];
  }

  /** When another seat is occupied, the circular successor of an occupied seat is a different seat. */
  lemma SuccessorMoves(from: int, occupied: seq<int>, other: int)
    requires from in occupied && other in occupied && other != from
    ensures NextOccupied(from, occupied).Some?
    ensures NextOccupied(from, occupied).value != from
  {
  }

  /**
   * With exactly two distinct occupied seats, the successor of each is the other:
   * seat order alternates.
   */
  lemma {:induction false} HeadsUpAlternates(occupied: seq<int>, a: int, b: int)
    requires a != b && a in occupied && b in occupied
    requires forall s :: s in occupied ==> s == a || s == b
    ensures NextOccupied(a, occupied) == Some(b)
    ensures NextOccupied(b, occupied) == Some(a)
  {
    SuccessorMoves(a, occupied, b);
    SuccessorMoves(b, occupied, a);
  }

  /**
   * With at least three distinct occupied seats, two steps of the circular
   * successor never lead back to the starting seat.
   */
  lemma {:induction false} NoTwoCycle(occupied: seq<int>, d: int, x: int, y: int, z: int)
    requires d in occupied
    requires x in occupied && y in occupied && z in occupied && x != y && y != z && x != z
    ensures NextOccupied(d, occupied).Some?
    ensures NextOccupied(NextOccupied(d, occupied).value, occupied).Some?
    ensures NextOccupied(NextOccupied(d, occupied).value, occupied).value != d
  {
    var e := NextOccupied(d, occupied).value;
    var f := NextOccupied(e, occupied).value;
    if f == d {
      assert IsCircularSuccessor(d, occupied, e);
      assert IsCircularSuccessor(e, occupied, d);
      // Every occupied seat is then d or e, yet three distinct seats are occupied.
      forall s | s in occupied ensures s == d || s == e {
        if e > d {
          assert !(s > e);
        } else {
          assert !(s > d);
        }
      }
      assert false;
    }
  }

  /** JavaScript truthiness of the stored dealer seat: `null` and `0` are falsy. */
  predicate HasPreviousDealer(game: Game): (b: bool)
    ensures !b <==> game.dealerSeat == None || game.dealerSeat == Some(0)
  {
    game.dealerSeat.Some? && game.dealerSeat.value != 0
  }

  /** The index of the first player seated at `seat` (JavaScript's `players.find`). */
  function FindSeat(players: seq<LobbyPlayer>, seat: int): (i: nat)
    requires seat in UsedSeats(players)
    ensures i < |players| && players[i].seat == Some(seat)
    ensures forall j :: 0 <= j < i ==> players[j].seat != Some(seat)
  {
    if players[0].seat == Some(seat) then 0
    else
      assert seat in UsedSeats(players[1..]) by {
        var p :| p in players && p.seat == Some(seat);
        assert p in players[1..];
      }
      1 + FindSeat(players[1..], seat)
  }

  /** The four seats `startHand` derives: dealer, small blind, big blind and first to act. */
  datatype Rotation = Rotation(dealer: int, smallBlind: int, bigBlind: int, turn: int)

  /**
   * The dealer is the successor of a truthy stored dealer seat, or else the
   * lowest occupied seat; the blinds and the first to act follow it round the
   * table.
   */
  function Rotate(occupied: seq<int>, game: Game): (r: Rotation)
    requires occupied != []
    ensures if HasPreviousDealer(game)
            then IsCircularSuccessor(game.dealerSeat.value, occupied, r.dealer)
            else r.dealer in occupied && forall s :: s in occupied ==> r.dealer <= s
    ensures IsCircularSuccessor(r.dealer, occupied, r.smallBlind)
    ensures IsCircularSuccessor(r.smallBlind, occupied, r.bigBlind)
    ensures IsCircularSuccessor(r.bigBlind, occupied, r.turn)
  {
    var dealerSeat :=
      if HasPreviousDealer(game) then NextOccupied(game.dealerSeat.value, occupied).value
      else MinOf(occupied);
    var sbSeat := NextOccupied(dealerSeat, occupied).value;
    var bbSeat := NextOccupied(sbSeat, occupied).value;
    Rotation(dealerSeat, sbSeat, bbSeat, NextOccupied(bbSeat, occupied).value)
  }

  /**
   * The seat and pot derivation of `startHand`: refuse with fewer than two seated
   * players; otherwise rotate the seats and open the pot with both blinds. The
   * first to act is the first seated player holding the turn seat.
   */
  function StartHand(players: seq<LobbyPlayer>, settings: Settings, game: Game): (r: Result<HandStart, StartError>)
    ensures r.Err? <==> |Seated(players)| < 2
    ensures r.Ok? ==>
      var h := r.value;
      var occupied := OccupiedSeats(players);
      && h.handNo == (if game.handNo.Some? then game.handNo.value else 0) + 1
      && (if HasPreviousDealer(game)
          then IsCircularSuccessor(game.dealerSeat.value, occupied, h.dealerSeat)
          else h.dealerSeat in occupied && forall s :: s in occupied ==> h.dealerSeat <= s)
      && IsCircularSuccessor(h.dealerSeat, occupied, h.smallBlindSeat)
      && IsCircularSuccessor(h.smallBlindSeat, occupied, h.bigBlindSeat)
      && IsCircularSuccessor(h.bigBlindSeat, occupied, h.turnSeat)
      && h.turnSeat in UsedSeats(players)
      && h.turnSessionId == players[FindSeat(players, h.turnSeat)].sessionId
      && h.pot == settings.smallBlind + settings.bigBlind
  {
    var seated := Seated(players);
    if |seated| < 2 then Err(NotEnoughPlayers)
    else
      var occupied := OccupiedSeats(players);
      var seats := Rotate(occupied, game);
      assert seats.turn in UsedSeats(players);
      FindSeatSeated(players, seats.turn);
      var turnPlayer := seated[FindSeat(seated, seats.turn)];
      var handNo := if game.handNo.Some? then game.handNo.value else 0;
      Ok(HandStart(handNo + 1, seats.dealer, seats.smallBlind, seats.bigBlind, seats.turn,
                   turnPlayer.sessionId, settings.smallBlind + settings.bigBlind))
  }

  /** Two different held seats mean at least two seated players. */
  lemma TwoSeatsTwoPlayers(players: seq<LobbyPlayer>, x: int, y: int)
    requires x != y && x in UsedSeats(players) && y in UsedSeats(players)
    ensures |Seated(players)| >= 2
  {
    var seated := Seated(players);
    var p :| p in players && p.seat == Some(x);
    var q :| q in players && q.seat == Some(y);
    assert p in seated && q in seated;
    var i :| 0 <= i < |seated| && seated[i] == p;
    var j :| 0 <= j < |seated| && seated[j] == q;
    assert i != j;
  }

  /**
   * With at least three distinct occupied seats, the dealer, small blind and big
   * blind are three different seats and the first to act is not the big blind.
   */
  lemma StartHandSeatsDistinct(players: seq<LobbyPlayer>, settings: Settings, game: Game, x: int, y: int, z: int)
    requires x in UsedSeats(players) && y in UsedSeats(players) && z in UsedSeats(players)
    requires x != y && y != z && x != z
    ensures StartHand(players, settings, game).Ok?
    ensures var h := StartHand(players, settings, game).value;
      && h.smallBlindSeat != h.dealerSeat
      && h.bigBlindSeat != h.smallBlindSeat
      && h.bigBlindSeat != h.dealerSeat
      && h.turnSeat != h.bigBlindSeat
  {
    TwoSeatsTwoPlayers(players, x, y);
    var occupied := OccupiedSeats(players);
    assert x in occupied && y in occupied;
    var h := StartHand(players, settings, game).value;
    NextOccupiedIsCalled(occupied, h.dealerSeat, h.smallBlindSeat);
    NextOccupiedIsCalled(occupied, h.smallBlindSeat, h.bigBlindSeat);
    SuccessorMoves(h.dealerSeat, occupied, if x != h.dealerSeat then x else y);
    SuccessorMoves(h.smallBlindSeat, occupied, if x != h.smallBlindSeat then x else y);
    SuccessorMoves(h.bigBlindSeat, occupied, if x != h.bigBlindSeat then x else y);
    NoTwoCycle(occupied, h.dealerSeat, x, y, z);
    CircularSuccessorUnique(h.bigBlindSeat, occupied, h.turnSeat, NextOccupied(h.bigBlindSeat, occupied).value);
  }

  /** A seat characterised as the circular successor is the one `NextOccupied` returns. */
  lemma NextOccupiedIsCalled(occupied: seq<int>, from: int, r: int)
    requires IsCircularSuccessor(from, occupied, r)
    ensures NextOccupied(from, occupied) == Some(r)
  {
    CircularSuccessorUnique(from, occupied, r, NextOccupied(from, occupied).value);
  }

  /**
   * Heads-up (exactly two distinct occupied seats): the big blind falls on the
   * dealer's seat and the small blind acts first.
   */
  lemma StartHandHeadsUp(players: seq<LobbyPlayer>, settings: Settings, game: Game, a: int, b: int)
    requires a != b && a in UsedSeats(players) && b in UsedSeats(players)
    requires forall s :: s in UsedSeats(players) ==> s == a || s == b
    ensures StartHand(players, settings, game).Ok?
    ensures var h := StartHand(players, settings, game).value;
      && h.smallBlindSeat != h.dealerSeat
      && h.bigBlindSeat == h.dealerSeat
      && h.turnSeat == h.smallBlindSeat
  {
    TwoSeatsTwoPlayers(players, a, b);
    var occupied := OccupiedSeats(players);
    assert a in occupied && b in occupied;
    var h := StartHand(players, settings, game).value;
    HeadsUpAlternates(occupied, a, b);
    NextOccupiedIsCalled(occupied, h.dealerSeat, h.smallBlindSeat);
    NextOccupiedIsCalled(occupied, h.smallBlindSeat, h.bigBlindSeat);
    NextOccupiedIsCalled(occupied, h.bigBlindSeat, h.turnSeat);
  }

  /** The index of the first player with session id `id` (JavaScript's `players.find`). */
  function FindSession(players: seq<LobbyPlayer>, id: string): (r: Option<nat>)
    ensures r.None? <==> forall p :: p in players ==> p.sessionId != id
    ensures r.Some? ==> r.value < |players| && players[r.value].sessionId == id
    ensures r.Some? ==> forall j :: 0 <= j < r.value ==> players[j].sessionId != id
  {
    if players == [] then None
    else if players[0].sessionId == id then Some(0)
    else
      assert forall p :: p in players ==> p == players[0] || p in players[1..];
      match FindSession(players[1..], id)
      case None => None
      case Some(i) => Some(i + 1)
  }

  /**
   * The seat `endTurn` moves on from: the current player's seat, or 0 when that
   * player has no seat (JavaScript compares `seat > null` as `seat > 0`).
   */
  function SeatOrZero(seat: Option<int>): (s: int)
    ensures seat.Some? ==> s == seat.value
    ensures seat.None? ==> s == 0
  {
    if seat.Some? then seat.value else 0
  }

  /**
   * The next-seat choice of `endTurn`: find the player whose turn it is (do
   * nothing when there is none) and hand the turn to the first player seated at
   * the circular successor of that player's seat. With no occupied seat at all
   * the source reads a property of `undefined`: `NoNextPlayer`.
   */
  function EndTurn(players: seq<LobbyPlayer>, currentTurn: Option<string>): (r: TurnChange)
    ensures r.NoCurrentPlayer? <==> currentTurn.None? || FindSession(players, currentTurn.value).None?
    ensures r.NoNextPlayer? <==> !r.NoCurrentPlayer? && UsedSeats(players) == {}
    ensures r.PassTurn? ==>
      var current := players[FindSession(players, currentTurn.value).value];
      && IsCircularSuccessor(SeatOrZero(current.seat), OccupiedSeats(players), r.nextSeat)
      && r.nextSeat in UsedSeats(players)
      && r.nextSessionId == players[FindSeat(players, r.nextSeat)].sessionId
  {
    if currentTurn.None? then NoCurrentPlayer
    else match FindSession(players, currentTurn.value)
      case None => NoCurrentPlayer
      case Some(i) =>
        var occupied := OccupiedSeats(players);
        match NextOccupied(SeatOrZero(players[i].seat), occupied)
        case None =>
          NoNextPlayer
        case Some(nextSeat) =>
          assert UsedSeats(players) != {} by { assert nextSeat in UsedSeats(players); }
          PassTurn(nextSeat, players[FindSeat(players, nextSeat)].sessionId)
  }

  /**
   * When the current player is seated and another seat is occupied, `endTurn`
   * always passes the turn, and to a player in a different seat.
   */
  lemma EndTurnMovesOn(players: seq<LobbyPlayer>, id: string, other: int)
    requires FindSession(players, id).Some?
    requires var current := players[FindSession(players, id).value];
      current.seat.Some? && other in UsedSeats(players) && other != current.seat.value
    ensures EndTurn(players, Some(id)).PassTurn?
    ensures EndTurn(players, Some(id)).nextSeat != players[FindSession(players, id).value].seat.value
  {
    var current := players[FindSession(players, id).value];
    assert current.seat.value in UsedSeats(players);
    SuccessorMoves(current.seat.value, OccupiedSeats(players), other);
  }
}
