# Card table lobby and showdown — a Dafny model

This project models the computational core of a small browser card-table app.
It is written in Dafny and proves properties of that model. The app has a lobby
of up to eight seats, hands that rotate the dealer and blinds, a turn that
passes round the table, and a Texas hold'em showdown that picks each player's
best five cards and splits the pot among the winners.

Modules, one per file:

- `Wrappers` (`wrappers.dfy`): `Option` (JavaScript `null`/`undefined`) and
  `Result` (an operation that may throw an `Error`).
- `Seqs` (`seqs.dfy`): distinct elements, and `MapAll`, which is `s.map(f)` for
  an `f` that may throw.
- `Sorting` (`sorting.dfy`): the stable `Array.prototype.sort` with a numeric
  comparator. Its specification is a functional insertion sort, `SortBy`.
  `SortByKey` is an in-place insertion sort on an `array`, proved equal to it.
  The lemmas cover permutation, order, stability, and that the first element
  is the first least one.
- `Seats` (`seats.dfy`), from `app.js`:
  - seat assignment;
  - the circular successor among occupied seats (`nextOccupiedSeat`);
  - the seat and pot derivation of `startHand`;
  - the next-seat choice of `endTurn`.
- `Html` (`html.dfy`): `escapeHtml`, and a decoder that inverts it.
- `Timer` (`timer.dfy`): the remaining-turn countdown of `getRemainingTimer`.
  The two instants it subtracts are passed in as milliseconds.
- `Cards` (`cards.dfy`), from `src/lib/showdown.js`: card tokens. `parseCard`
  trims and upper-cases a token and checks its rank and suit. `validateCards`
  parses a list and refuses duplicates.
- `Subsets` (`subsets.dfy`): `combinations(arr, k)`. The recursive `pick` with
  its `for` loop is a method, specified by `Choose`, the k-subsequences in
  lexicographic index order.
- `Showdown` (`showdown.dfy`): `evaluatePlayerHand` and `runShowdown`.
  - The hand-evaluation library is a value of type `HandEvaluator`. It holds two
    uninterpreted functions from the hand string (`cards5.join(' ')`) to a score
    (lower is better) and to a rank name.
  - Each imperative JavaScript function is a method. It is proved equal to a
    specification function (`PlayerHand`, `Showdown`), and the promised
    properties are proved as lemmas about those functions.

## Model

| member | source | states |
|---|---|---|
| Seats.AssignOpenSeat | app.js:65-69 | Returns the lowest seat in 1..8 that no player holds. It returns none exactly when all eight seats are held. |
| Seats.Seated | app.js:175 | The seated players are exactly the lobby players that have a seat, kept as a subsequence of the lobby (lobby order). |
| Seats.SeatedCounts | app.js:175 | Each seated player is kept as often as it occurs in the lobby; no unseated player is kept. |
| Seats.TwoSeatsTwoPlayers | app.js:175-176 | Two different held seats mean at least two seated players, so the hand can start. |
| Seats.FindSeatSeated | app.js:175-184 | `find` by seat among the seated players returns the same player as `find` by seat over the whole lobby. |
| Seats.OccupiedSeats | app.js:178 | One seat number per seated player; its members are exactly the held seats. |
| Seats.MinOf | app.js:179 | `Math.min`: the result occurs in the list and is at most every element. |
| Seats.NextOccupied | app.js:71-75 | Undefined exactly when no seat is occupied. Otherwise it gives the least occupied seat above `from`, or wraps to the least occupied seat. |
| Seats.NextOccupiedSeat | app.js:71-75 | The sort-then-scan loop returns exactly `NextOccupied`. |
| Seats.ScanSorted | app.js:73-74 | Over an ascending copy of the occupied seats, the first seat above `from` (else the first seat) is `NextOccupied`. |
| Seats.CircularSuccessorUnique | app.js:71-75 | The successor characterisation determines one seat. |
| Seats.CircularExamples | app.js:71-75 | On seats 1,3,5,7: 7 wraps to 1, and 3 moves to 5. |
| Seats.SuccessorMoves | app.js:71-75 | From an occupied seat, when another seat is occupied, the successor is a different seat. |
| Seats.HeadsUpAlternates | app.js:180-182 | With two occupied seats, each seat's successor is the other. |
| Seats.NoTwoCycle | app.js:180-182 | With three or more occupied seats, two successor steps never return to the start. |
| Seats.FindSeat | app.js:184 | `find` by seat: the first player holding that seat. |
| Seats.HasPreviousDealer | app.js:179 | JavaScript truthiness of the stored dealer seat: falsy exactly when it is `null` or 0. |
| Seats.Rotate | app.js:179-182 | The dealer is the successor of a truthy stored dealer seat, or else the lowest occupied seat. Small blind, big blind and first to act are successive circular successors. |
| Seats.StartHand | app.js:175-188 | Refuses with fewer than 2 seated players. Otherwise: the hand number is the stored one plus one, where a missing number counts as 0; the dealer is the successor of a truthy previous dealer, or else the lowest occupied seat; small blind, big blind and first to act are successive successors; the acting session is that of the first lobby player at the turn seat; the pot is small blind plus big blind. |
| Seats.StartHandSeatsDistinct | app.js:179-182 | With three occupied seats: dealer, small blind and big blind are three different seats, and the first to act is not the big blind. |
| Seats.StartHandHeadsUp | app.js:179-182 | Heads-up: the big blind is on the dealer's seat and the small blind acts first. |
| Seats.FindSession | app.js:205 | `find` by session id: none exactly when no player has it; otherwise the first such player. |
| Seats.SeatOrZero | app.js:209 | The seat `endTurn` moves on from: the current seat, or 0 when the player has none (`seat > null` compares as `seat > 0`). |
| Seats.EndTurn | app.js:203-210 | Does nothing without a current player. Fails exactly when no seat is occupied. Otherwise it hands the turn to the first lobby player seated at the successor of the current seat, where a missing seat counts as 0. |
| Seats.EndTurnMovesOn | app.js:208-210 | When the current player is seated and another seat is held, the turn always passes, and to another seat. |
| Html.Entity | app.js:123 | The replacement table: a character other than `&<>"` is kept as it is; each of the four becomes an entity that starts with `&`, ends with `;` and contains no `<`, `>` or `"`. |
| Html.EscapeHtml | app.js:122-124 | The output contains no `<`, `>` or `"`, and is at least as long as the input. |
| Html.EscapeRoundTrip | app.js:122-124 | Decoding the four entities gives back the original text: no information is lost. |
| Html.EscapeKeepsPlainText | app.js:122-124 | Text without `&<>"` is unchanged. |
| Html.EscapeAppend | app.js:122-124 | Escaping works per character: it distributes over concatenation. |
| Html.EscapeExample | app.js:122-124 | `<b>&` becomes `&lt;b&gt;&amp;`. |
| Timer.ElapsedSeconds | app.js:118 | The whole seconds elapsed, rounded down. |
| Timer.RemainingTimer | app.js:116-120 | No timer exactly when there was no action yet or the phase is `waiting`. Otherwise the seconds left are never negative; they are zero exactly when the turn length has elapsed; a positive value plus the elapsed seconds is the turn length. |
| Timer.RemainingNeverIncreases | app.js:116-120 | The countdown never goes up as time passes, and, for a last action not in the future and a non-negative turn length, never exceeds the turn length. |
| Cards.LeadingSpace | src/lib/showdown.js:21 | `trim`: the count of leading ECMAScript whitespace. |
| Cards.TrailingStart | src/lib/showdown.js:21 | `trim`: where the trailing ECMAScript whitespace begins. |
| Cards.Upper | src/lib/showdown.js:21 | `toUpperCase`, character by character, keeping the length. |
| Cards.ParseCard | src/lib/showdown.js:19-31 | Accepts exactly when the trimmed, upper-cased token is a rank from `23456789TJQKA` followed by a suit from `CDHS`, and returns that token. Otherwise it refuses for length, then rank, then suit. |
| Cards.ParseCardIdempotent | src/lib/showdown.js:19-31 | A parsed token parses to itself. |
| Cards.TrimPadded | src/lib/showdown.js:21 | Surrounding whitespace is removed, and the inside is kept. |
| Cards.ParseCardAcceptsSpellings | src/lib/showdown.js:19-31 | Any case mix of a valid token, padded by any whitespace, parses to the canonical token. |
| Cards.ParseCardAcceptsExamples | src/lib/showdown.js:134 | `'as'` parses to `'AS'`, and `' td\n'` to `'TD'`. |
| Cards.ParseCardRefusesRank | src/lib/showdown.js:27 | `'1S'` is refused as an invalid rank `1`. |
| Cards.ParseCardRefusesSuit | src/lib/showdown.js:28 | `'AX'` is refused as an invalid suit `X`. |
| Cards.HasDuplicate | src/lib/showdown.js:36 | The Set-size test holds exactly when the list is not distinct. |
| Seqs.MapAll | src/lib/showdown.js:35 | `map` of a throwing function succeeds exactly when no element is refused. Its values are the element-wise results; otherwise it carries the first refusal's error. |
| Cards.ValidateCards | src/lib/showdown.js:33-38 | On success: same length, each element is its card's parse, and all distinct. It fails exactly when a card is invalid or two cards normalise alike; whenever some card is invalid, the error is that of the first invalid card; when every card parses, the only error is the duplicate error. |
| Cards.ParsePair | src/lib/showdown.js:19-31 | A two-character spelling of a valid token, without whitespace, parses to its upper case. |
| Cards.ValidatePair | src/lib/showdown.js:33-38 | Two accepted cards validate to their tokens, unless both give the same token, which is a duplicate. |
| Cards.ValidateCardsIdempotent | src/lib/showdown.js:33-38 | A validated list validates to itself. |
| Cards.ValidateCardsAcceptsExample | src/lib/showdown.js:135 | `['AS','KD']` validates to itself. |
| Cards.ValidateCardsRefusesExample | src/lib/showdown.js:36 | `['AS','as']` is a duplicate. |
| Subsets.ChooseCount | src/lib/showdown.js:40-53 | There are `Binomial(n, k)` results. |
| Subsets.SevenChooseFive | src/lib/showdown.js:80 | `Binomial(7, 5)` is 21. |
| Subsets.FiveOfSeven | src/lib/showdown.js:80 | Seven cards give 21 five-card hands. |
| Subsets.ChooseSound | src/lib/showdown.js:40-53 | Every result has k elements and is a subsequence of the input. |
| Subsets.ChooseComplete | src/lib/showdown.js:40-53 | Every k-element subsequence is among the results. |
| Seqs.SubsequenceElements | src/lib/showdown.js:40-53 | A subsequence only holds elements of the input. |
| Seqs.SubsequenceDistinct | src/lib/showdown.js:40-53 | A subsequence of a repeat-free input is repeat-free. |
| Subsets.ChooseDistinct | src/lib/showdown.js:40-53 | With distinct input, no subset is listed twice. |
| Subsets.Pick | src/lib/showdown.js:42-50 | `pick(start, acc)` appends exactly the completions of `acc` from `arr[start..]`, in order. |
| Subsets.Combinations | src/lib/showdown.js:40-53 | `combinations(arr, k)` is exactly `Choose(arr, k)`. |
| Sorting.SortByPermutes | src/lib/showdown.js:82 | Sorting keeps the same elements with the same multiplicities. |
| Sorting.SortBySorted | src/lib/showdown.js:106 | Keys ascend after sorting. |
| Sorting.SortByStable | src/lib/showdown.js:106-108 | For every key, the elements with that key keep their relative order. |
| Sorting.SortByHeadIsLeast | src/lib/showdown.js:82-83 | The first element after sorting is an input element with the least key. |
| Sorting.SortByHeadIsFirstLeast | src/lib/showdown.js:82-83 | It is the first input element with the least key. |
| Sorting.WithKeyCounts | src/lib/showdown.js:108 | The filter keeps each element with the key as often as it occurs, and nothing else. |
| Sorting.SortByKey | src/lib/showdown.js:82 | The in-place sort leaves the array equal to the stable sort of its old contents. |
| Showdown.RankOf | src/lib/showdown.js:63 | A known rank name maps into 1..10; the result is 99 exactly for unknown names. |
| Showdown.RankOfInjective | src/lib/showdown.js:6-17 | No two rank names share an ordinal. |
| Showdown.RankOfExamples | src/lib/showdown.js:6-17 | `ROYAL_FLUSH` is 1, `HIGH_CARD` is 10, an unknown name is 99. |
| Showdown.JoinSpacedLayout | src/lib/showdown.js:56 | `cards5.join(' ')` on two-character tokens: `3n - 1` characters, with token `i` at offset `3i`, and one space after every token but the last. |
| Showdown.JoinSpacedInjective | src/lib/showdown.js:56 | Different lists of card tokens give the hand evaluator different strings. |
| Showdown.EvaluateFive | src/lib/showdown.js:55-65 | `evaluateFiveCards`: the result keeps the five cards. Score and rank name are the evaluator's on the space-joined cards. The rank is in 1..10, or 99 exactly when the rank name is not one of the ten. |
| Showdown.BestOf | src/lib/showdown.js:80-83 | The chosen hand is one of the hands, evaluated consistently. Its score is at most every hand's score, and it is the first hand with that least score. |
| Showdown.PlayerHand | src/lib/showdown.js:67-92 | A hole count other than 2 is refused first, then a board count other than 5, then an invalid hole card (with the hole list's error), then an invalid board card (with the board's error), then a card in both hole and board. It succeeds exactly when both lists validate and the seven cards are distinct. The reported hole cards are the normalised ones. |
| Showdown.PlayerHandIsBest | src/lib/showdown.js:80-90 | `best5` is one of the 5-subsets of the seven cards, with its own score, rank name and rank (`RankOf` of the name). No 5-subset scores lower, and it is the first in enumeration order to reach that score. |
| Showdown.BestFiveIsHand | src/lib/showdown.js:77-80 | `best5` holds five distinct cards, all from the player's seven. |
| Showdown.EvaluatePlayerHand | src/lib/showdown.js:67-92 | The enumerate-evaluate-sort-take-first code computes exactly `PlayerHand`. |
| Showdown.EvaluatePlayers | src/lib/showdown.js:100-104 | Evaluating players one by one gives every player's result in order, or the first refusal. |
| Showdown.Evaluated | src/lib/showdown.js:100-104 | One player's `playerResults` entry: the player's seat and name with `evaluatePlayerHand`'s result; it fails exactly when that throws, with the same error. |
| Showdown.EvaluateAll | src/lib/showdown.js:100-104 | `players.map(...)`: succeeds exactly when every player evaluates, giving their entries in player order. Otherwise the error is that of the first player whose evaluation throws. |
| Showdown.SplitPot | src/lib/showdown.js:114-118 | One share per winner, in winner order, with that winner's seat and name. |
| Showdown.SplitPotTotal | src/lib/showdown.js:110-118 | The shares add up to exactly the floored pot. |
| Showdown.SplitPotFair | src/lib/showdown.js:111-117 | Each share is `base` or `base+1`. Shares never increase along seat order and differ by at most one. Exactly the first `floor(pot) mod n` winners get the extra chip. |
| Showdown.SoleWinnerTakesPot | src/lib/showdown.js:143-152 | A sole winner takes the whole floored pot. |
| Showdown.SplitPotExample | src/lib/showdown.js:110-118 | 101 between two winners splits 51 / 50, the first winner in list order (seat order once `Settle` has sorted) taking the odd chip. |
| Showdown.ShareMap | src/lib/showdown.js:120 | `fromEntries`: the keys are exactly the seats; a seat whose entry is not followed by another with the same seat maps to that entry's amount. |
| Showdown.ShareMapSeats | src/lib/showdown.js:120 | `potShares` has a key for every winner's seat and no other. |
| Showdown.Showdown | src/lib/showdown.js:94-129 | Refuses an empty table first, then an invalid board (with its card error), then a board without 5 cards, then a negative pot, then the first player whose hand is refused (with that player's error). It succeeds exactly when there are players, the board validates with 5 cards, the pot is not negative and every player's hand evaluates. The result is the settlement of the normalised board, the results and the floored pot. |
| Showdown.Settle | src/lib/showdown.js:106-125 | The settlement keeps the normalised board. `playerResults` is a permutation of the results. There is one pot share per winner, with the winner's seat. |
| Showdown.TiedAreBest | src/lib/showdown.js:106-108 | The results ranked level with the first are exactly the best-scored ones. |
| Showdown.TiedInSeatOrder | src/lib/showdown.js:106-108 | The results tied with the best, sorted by seat: not empty, each best-scored result as often as it occurs, and in seat order. |
| Showdown.SettleWinners | src/lib/showdown.js:106-108 | `playerResults` is a permutation of the results, sorted by score. Winners are non-empty; they are exactly the best-scored results, with multiplicity, and they are sorted by seat. |
| Showdown.SettlePot | src/lib/showdown.js:110-120 | One share per winner in seat order. The shares total the floored pot. `potShares` keys are exactly the winners' seats. |
| Showdown.SettleResults | src/lib/showdown.js:106-125 | The in-place sorts, filter and split compute exactly `Settle` of the evaluated results, and the array sorted in place is left holding the returned `playerResults`. |
| Showdown.SettleEvaluated | src/lib/showdown.js:100-125 | Copying the evaluated results into an array and settling on it computes exactly `Settle`. |
| Showdown.RunShowdown | src/lib/showdown.js:94-129 | The imperative showdown computes exactly `Showdown`. |

## Left out

- Network and store I/O is not modelled. This covers every Supabase read and
  write (`refreshAll`, `joinLobby`, `leaveLobby`, `setBlinds`, `setTurn`,
  `logAction`, the `update` calls in `startHand` and `endTurn`), the realtime
  channel and the heartbeat. The model computes the hand number, seats, acting
  session and pot that `startHand` writes, and the next seat `endTurn` computes
  and the session it writes.
- Some other written values are not modelled:
  - the constant phase `'preflop'` that `startHand` writes;
  - the `last_action_at` and `updated_at` timestamps both updates write;
  - the usernames `endTurn` logs (`TurnChange` carries no usernames).
- DOM rendering, button wiring and error display are UI and are not modelled.
- `getSessionId` is not modelled: it uses `localStorage` and
  `crypto.randomUUID`.
- Timer.RemainingTimer takes the current time and the stored timestamp as
  millisecond numbers. It does not model reading the clock or parsing the date
  string. It also does not model an unparsable timestamp (`NaN`).
- Timer.RemainingNeverIncreases bounds the countdown by the turn length only for
  a last action not ahead of the local clock. The timestamp comes from another
  client, and under clock skew the countdown can exceed the turn length, in the
  model as in app.js.
- Type checks on inputs (`typeof card !== 'string'`, `Array.isArray`) are not
  modelled: the types make them unnecessary. `escapeHtml`'s `String(s)`
  conversion is left out for the same reason.
- Cards.Upper covers ASCII letters plus the two non-ASCII letters whose upper
  case is an ASCII letter (U+0131 and U+017F). Some other characters upper-case
  into several characters (such as `ß` becoming `SS`). The model keeps those,
  and astral-plane characters, as one character; JavaScript counts such
  characters as more than one unit. For such inputs the reported error can be
  of a different kind, in either direction: JavaScript may report a length
  error where the model reports an invalid rank or suit (`A` followed by an
  astral character, or `ß` followed by a suit), and the model reports a length
  error where JavaScript reports an invalid rank (a single astral character,
  which is two UTF-16 units).
- The pot is a real number floored with `Math.floor`. `NaN` and infinite pots
  are not modelled.
- The showdown's `potShares` keys are the seat numbers themselves, not their
  decimal strings.
- Hand scores are integers. The library's score is a JavaScript number that
  the source compares by subtraction.
- The internals of the hand-evaluation library are not modelled. Its score and
  rank name are uninterpreted functions, so nothing about which hand beats
  which is proved. For the same reason the royal-flush check of `selfCheck`
  and its named winner are not modelled.
- A name inherited from `Object.prototype` (for example `constructor`) is not
  undefined in `HAND_RANK_ORDER[rankName]`. Showdown.RankOf treats every name
  outside the ten rank names as unknown.
- `endTurn`'s crash when no seat is occupied is modelled as the outcome
  `NoNextPlayer`, not as an exception.
- The betting engine is not part of this model: deck, dealing, stacks,
  check/call/raise and streets do not exist in the modelled files.
- Cards held by two different players are not detected, because the source
  does not check for them.
