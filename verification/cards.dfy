/**
 * Card tokens of the showdown evaluator (src/lib/showdown.js): a token is two
 * characters, a rank from `23456789TJQKA` followed by a suit from `CDHS`.
 * `parseCard` normalises a token by trimming and upper-casing it;
 * `validateCards` normalises a list and refuses duplicates.
 */
module Cards {
  import opened Wrappers
  import opened Seqs

  const Ranks: string := "23456789TJQKA"
  const Suits: string := "CDHS"

  /** Why a token or a list of tokens is refused. */
  datatype CardError =
    | WrongLength(card: string)   // "Card must be 2 chars"
    | InvalidRank(rank: char)     // "Invalid rank"
    | InvalidSuit(suit: char)     // "Invalid suit"
    | DuplicateCards              // "Duplicate cards detected"

  /** A normalised card token. */
  predicate IsCardToken(t: string) {
    |t| == 2 && t[0] in Ranks && t[1] in Suits
  }

  /** The characters `String.prototype.trim` removes: ECMAScript WhiteSpace and LineTerminator. */
  predicate IsJsWhitespace(c: char) {
    || c == '\t' || c == '\U{B}' || c == '\U{C}' || c == ' ' || c == '\U{A0}' || c == '\U{FEFF}'
    || c == '\U{1680}' || ('\U{2000}' <= c <= '\U{200A}') || c == '\U{202F}' || c == '\U{205F}'
    || c == '\U{3000}' || c == '\n' || c == '\r' || c == '\U{2028}' || c == '\U{2029}'
  }

  /** The number of whitespace characters `s` starts with. */
  function LeadingSpace(s: string): (k: nat)
    ensures k <= |s|
    ensures forall i :: 0 <= i < k ==> IsJsWhitespace(s[i])
    ensures k == |s| || !IsJsWhitespace(s[k])
  {
    if s != [] && IsJsWhitespace(s[0]) then 1 + LeadingSpace(s[1..]) else 0
  }

  /** The length of `s` without the whitespace it ends with. */
  function TrailingStart(s: string): (k: nat)
    ensures k <= |s|
    ensures forall i :: k <= i < |s| ==> IsJsWhitespace(s[i])
    ensures k == 0 || !IsJsWhitespace(s[k - 1])
  {
    if s != [] && IsJsWhitespace(s[|s| - 1]) then TrailingStart(s[..|s| - 1]) else |s|
  }

  function TrimStart(s: string): string {
    s[LeadingSpace(s)..]
  }

  function TrimEnd(s: string): string {
    s[..TrailingStart(s)]
  }

  /** JavaScript's `trim`: whitespace removed from both ends. */
  function Trim(s: string): string {
    TrimEnd(TrimStart(s))
  }

  /**
   * The upper case of one character: ASCII `a`..`z`, and the two non-ASCII letters
   * whose upper case is an ASCII letter (dotless i and long s).
   */
  function UpperChar(c: char): char {
    if 'a' <= c <= 'z' then (c as int - 32) as char
    else if c == '\U{131}' then 'I'
    else if c == '\U{17F}' then 'S'
    else c
  }

  /** JavaScript's `toUpperCase`, character by character. */
  function Upper(s: string): (r: string)
    ensures |r| == |s|
    ensures forall i :: 0 <= i < |s| ==> r[i] == UpperChar(s[i])
  {
    if s == [] then [] else [UpperChar(s[0])] + Upper(s[1..])
  }

  /** The token `parseCard` checks: trimmed, then upper-cased. */
  function Normalize(card: string): string {
    Upper(Trim(card))
  }

  /**
   * `parseCard`: the normalised token when it is two characters with a valid rank
   * and a valid suit; otherwise the first check that fails, in the order length,
   * rank, suit.
   */
  function ParseCard(card: string): (r: Result<string, CardError>)
    ensures r.Ok? <==> IsCardToken(Normalize(card))
    ensures r.Ok? ==> r.value == Normalize(card)
    ensures r.Err? ==>
      (var n := Normalize(card);
       r.error == if |n| != 2 then WrongLength(card)
                  else if n[0] !in Ranks then InvalidRank(n[0])
                  else InvalidSuit(n[1]))
  {
    var normalized := Upper(Trim(card));
    if |normalized| != 2 then Err(WrongLength(card))
    else
      var rank := normalized[0];
      var suit := normalized[1];
      if rank !in Ranks then Err(InvalidRank(rank))
      else if suit !in Suits then Err(InvalidSuit(suit))
      else Ok(normalized)
  }

  lemma TokenCharsArePlain(t: string)
    requires IsCardToken(t)
    ensures !IsJsWhitespace(t[0]) && !IsJsWhitespace(t[1])
    ensures UpperChar(t[0]) == t[0] && UpperChar(t[1]) == t[1]
  {
  }

  /** `parseCard` is idempotent: a normalised token parses to itself. */
  lemma ParseCardIdempotent(card: string)
    requires ParseCard(card).Ok?
    ensures ParseCard(ParseCard(card).value) == ParseCard(card)
  {
    var t := ParseCard(card).value;
    TokenCharsArePlain(t);
    TrimPadded("", t, "");
    assert "" + t + "" == t;
    assert Upper(t) == t;
  }

  /** Surrounding whitespace goes, whatever is inside stays, when the inside has plain ends. */
  lemma TrimPadded(lead: string, m: string, trail: string)
    requires forall i :: 0 <= i < |lead| ==> IsJsWhitespace(lead[i])
    requires forall i :: 0 <= i < |trail| ==> IsJsWhitespace(trail[i])
    requires |m| > 0 && !IsJsWhitespace(m[0]) && !IsJsWhitespace(m[|m| - 1])
    ensures Trim(lead + m + trail) == m
  {
    var s := lead + m + trail;
    var k := LeadingSpace(s);
    assert s[|lead|] == m[0];
    assert forall i :: 0 <= i < |lead| ==> s[i] == lead[i];
    assert k == |lead|;
    var a := s[k..];
    assert a == m + trail;
    var j := TrailingStart(a);
    assert a[|m| - 1] == m[|m| - 1];
    assert forall i :: |m| <= i < |a| ==> a[i] == trail[i - |m|];
    assert j == |m|;
  }

  /**
   * Every spelling of a valid token is accepted: any mix of case, surrounded by
   * any whitespace, parses to the canonical token (`'as'` gives `'AS'`).
   */
  lemma ParseCardAcceptsSpellings(t: string, spelled: string, lead: string, trail: string)
    requires IsCardToken(t)
    requires Upper(spelled) == t
    requires forall i :: 0 <= i < |lead| ==> IsJsWhitespace(lead[i])
    requires forall i :: 0 <= i < |trail| ==> IsJsWhitespace(trail[i])
    ensures ParseCard(lead + spelled + trail) == Ok(t)
  {
    assert UpperChar(spelled[0]) == t[0] && UpperChar(spelled[1]) == t[1];
    assert !IsJsWhitespace(spelled[0]) && !IsJsWhitespace(spelled[1]);
    TrimPadded(lead, spelled, trail);
  }

  /** Examples: `'as'` parses to `'AS'`, and `' td\n'` to `'TD'`. */
  lemma ParseCardAcceptsExamples()
    ensures ParseCard("as") == Ok("AS")
    ensures ParseCard(" td\n") == Ok("TD")
  {
    ParseCardAcceptsSpellings("AS", "as", "", "");
    assert "" + "as" + "" == "as";
    ParseCardAcceptsSpellings("TD", "td", " ", "\n");
    assert " " + "td" + "\n" == " td\n";
  }

  /** Two characters that are not whitespace are only upper-cased. */
  lemma NormalizePair(c0: char, c1: char)
    requires !IsJsWhitespace(c0) && !IsJsWhitespace(c1)
    ensures Normalize([c0, c1]) == [UpperChar(c0), UpperChar(c1)]
  {
    TrimPadded("", [c0, c1], "");
    assert "" + [c0, c1] + "" == [c0, c1];
  }

  /** Example: a bad rank is refused, naming the offending character. */
  lemma ParseCardRefusesRank()
    ensures ParseCard("1S") == Err(InvalidRank('1'))
  {
    NormalizePair('1', 'S');
  }

  /** Example: a bad suit is refused, naming the offending character. */
  lemma ParseCardRefusesSuit()
    ensures ParseCard("AX") == Err(InvalidSuit('X'))
  {
    NormalizePair('A', 'X');
  }

  /** Whether some value occurs twice (the source compares the size of a `Set` with the length). */
  function HasDuplicate<T(==)>(s: seq<T>): (r: bool)
    ensures r <==> !Distinct(s)
  {
    if s == [] then false
    else if s[0] in s[1..] then true
    else
      var r := HasDuplicate(s[1..]);
      assert !r ==> Distinct(s) by {
        if !r {
          forall i, j | 0 <= i < j < |s| ensures s[i] != s[j] {
            if i == 0 {
              assert s[j] == s[1..][j - 1];
            } else {
              assert s[i] == s[1..][i - 1] && s[j] == s[1..][j - 1];
            }
          }
        }
      }
      assert r ==> !Distinct(s) by {
        if r {
          var i, j :| 0 <= i < j < |s[1..]| && s[1..][i] == s[1..][j];
          assert s[i + 1] == s[j + 1];
        }
      }
      r
  }

  /**
   * `validateCards`: normalises every card and refuses the list when a card is
   * invalid (the first invalid card's error) or when two cards normalise to the
   * same token.
   */
  function ValidateCards(cards: seq<string>): (r: Result<seq<string>, CardError>)
    ensures r.Ok? ==> && |r.value| == |cards|
                      && (forall i :: 0 <= i < |cards| ==> ParseCard(cards[i]) == Ok(r.value[i]))
                      && Distinct(r.value)
    ensures r.Err? <==> || (exists i :: 0 <= i < |cards| && ParseCard(cards[i]).Err?)
                        || (exists i, j :: && 0 <= i < j < |cards|
                                           && ParseCard(cards[i]).Ok? && ParseCard(cards[j]).Ok?
                                           && ParseCard(cards[i]).value == ParseCard(cards[j]).value)
    ensures FirstErr(ParseCard, cards) < |cards| ==>
      r == Err(ParseCard(cards[FirstErr(ParseCard, cards)]).error)
    ensures r == Err(DuplicateCards) ==> FirstErr(ParseCard, cards) == |cards|
    ensures r.Err? && FirstErr(ParseCard, cards) == |cards| ==> r == Err(DuplicateCards)
  {
    var normalized :- MapAll(ParseCard, cards);
    if HasDuplicate(normalized) then Err(DuplicateCards) else Ok(normalized)
  }

  /** Validated cards validate again to themselves. */
  lemma ValidateCardsIdempotent(cards: seq<string>)
    requires ValidateCards(cards).Ok?
    ensures ValidateCards(ValidateCards(cards).value) == ValidateCards(cards)
  {
    var n := ValidateCards(cards).value;
    forall i | 0 <= i < |n| ensures ParseCard(n[i]) == Ok(n[i]) {
      ParseCardIdempotent(cards[i]);
    }
    var again := MapAll(ParseCard, n);
    assert again.Ok?;
    assert again.value == n;
  }

  /** Two accepted cards validate to their tokens, unless both give the same token. */
  lemma ValidatePair(x: string, y: string)
    requires ParseCard(x).Ok? && ParseCard(y).Ok?
    ensures ValidateCards([x, y]) == if ParseCard(x).value == ParseCard(y).value then Err(DuplicateCards)
                                     else Ok([ParseCard(x).value, ParseCard(y).value])
  {
    var cards := [x, y];
    var tokens := [ParseCard(x).value, ParseCard(y).value];
    MapAllOk(ParseCard, cards, tokens);
    assert HasDuplicate(tokens) <==> tokens[0] == tokens[1];
  }

  /** A two-character spelling of a valid token parses to its upper case. */
  lemma ParsePair(c0: char, c1: char)
    requires !IsJsWhitespace(c0) && !IsJsWhitespace(c1)
    requires UpperChar(c0) in Ranks && UpperChar(c1) in Suits
    ensures ParseCard([c0, c1]) == Ok([UpperChar(c0), UpperChar(c1)])
  {
    NormalizePair(c0, c1);
  }

  /** Example: two different cards validate to themselves. */
  lemma ValidateCardsAcceptsExample()
    ensures ValidateCards(["AS", "KD"]) == Ok(["AS", "KD"])
  {
    ParsePair('A', 'S');
    ParsePair('K', 'D');
    ValidatePair("AS", "KD");
  }

  /** Example: the same card in two spellings is a duplicate. */
  lemma ValidateCardsRefusesExample()
    ensures ValidateCards(["AS", "as"]) == Err(DuplicateCards)
  {
    ParsePair('A', 'S');
    ParsePair('a', 's');
    ValidatePair("AS", "as");
  }
}
