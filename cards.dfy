/**
 * The card alphabet (client/src/constants/card.ts): the four suit glyphs, the
 * thirteen rank tokens, the key set of the face-image table, and the typed
 * card that the string form `rank token + suit glyph` encodes.
 */
module Cards {
  import opened Wrappers

  /** Suit glyphs, in the order the source lists them: spade, heart, diamond, club. */
  const Suits: seq<string> := ["\U{2660}", "\U{2665}", "\U{2666}", "\U{2663}"]

  /** Rank tokens in increasing order of value (2 .. 14). */
  const RankTokens: seq<string> := ["2", "3", "4", "5", "6", "7", "8", "9", "10", "J", "Q", "K", "A"]

  /** The face-down placeholder key of the face-image table. */
  const Back: string := "Back"

  /** Keys of the face-image table, one row per suit as the source lists them. */
  const SpadeKeys: set<string> := {"A\U{2660}", "2\U{2660}", "3\U{2660}", "4\U{2660}", "5\U{2660}", "6\U{2660}", "7\U{2660}", "8\U{2660}", "9\U{2660}", "10\U{2660}", "J\U{2660}", "Q\U{2660}", "K\U{2660}"}
  const HeartKeys: set<string> := {"A\U{2665}", "2\U{2665}", "3\U{2665}", "4\U{2665}", "5\U{2665}", "6\U{2665}", "7\U{2665}", "8\U{2665}", "9\U{2665}", "10\U{2665}", "J\U{2665}", "Q\U{2665}", "K\U{2665}"}
  const DiamondKeys: set<string> := {"A\U{2666}", "2\U{2666}", "3\U{2666}", "4\U{2666}", "5\U{2666}", "6\U{2666}", "7\U{2666}", "8\U{2666}", "9\U{2666}", "10\U{2666}", "J\U{2666}", "Q\U{2666}", "K\U{2666}"}
  const ClubKeys: set<string> := {"A\U{2663}", "2\U{2663}", "3\U{2663}", "4\U{2663}", "5\U{2663}", "6\U{2663}", "7\U{2663}", "8\U{2663}", "9\U{2663}", "10\U{2663}", "J\U{2663}", "Q\U{2663}", "K\U{2663}"}

  /** All keys of the face-image table: the 52 card strings and the placeholder. */
  const CardUnicodeKeys: set<string> := SpadeKeys + HeartKeys + DiamondKeys + ClubKeys + {Back}

  datatype Suit = Spades | Hearts | Diamonds | Clubs

  /** Numeric value of a rank: 2 .. 10, J = 11, Q = 12, K = 13, A = 14 (ace high only). */
  type RankValue = v: int | 2 <= v <= 14 witness 2

  datatype Card = Card(value: RankValue, suit: Suit)

  function SuitIndex(s: Suit): (i: nat)
    ensures i < |Suits|
  {
    match s
    case Spades => 0
    case Hearts => 1
    case Diamonds => 2
    case Clubs => 3
  }

  /** The glyph string of a suit. */
  function SuitString(s: Suit): string
  {
    Suits[SuitIndex(s)]
  }

  /** The token of a rank value. */
  function RankToken(v: RankValue): string
  {
    RankTokens[v - 2]
  }

  /** The boundary string form of a card: rank token followed by the suit glyph. */
  function CardString(c: Card): (s: string)
    ensures 2 <= |s| <= 3
  {
    RankToken(c.value) + SuitString(c.suit)
  }

  /**
   * The rank-token conversion of rankHand: A, K, Q and J first, otherwise a
   * decimal number. Only the tokens of the alphabet are accepted.
   */
  function TokenValue(t: string): (r: Option<RankValue>)
    ensures r.Some? <==> t in RankTokens
    ensures r.Some? ==> RankToken(r.value) == t
  {
    if t == "A" then Some(14)
    else if t == "K" then Some(13)
    else if t == "Q" then Some(12)
    else if t == "J" then Some(11)
    else if t == "10" then Some(10)
    else if |t| == 1 && '2' <= t[0] <= '9' then
      DigitToken(t);
      Some(t[0] as int - '0' as int)
    else None
  }

  lemma DigitToken(t: string)
    requires |t| == 1 && '2' <= t[0] <= '9'
    ensures t == RankTokens[t[0] as int - '0' as int - 2]
  {
    assert t == [t[0]];
  }

  /** The suit whose glyph is `g`, if any. */
  function SuitOfGlyph(g: string): (r: Option<Suit>)
    ensures r.Some? <==> g in Suits
    ensures r.Some? ==> SuitString(r.value) == g
  {
    if g == Suits[0] then Some(Spades)
    else if g == Suits[1] then Some(Hearts)
    else if g == Suits[2] then Some(Diamonds)
    else if g == Suits[3] then Some(Clubs)
    else None
  }

  /**
   * Splits a card string as rankHand does: everything but the last character
   * is the rank token, the last character is the suit.
   */
  function ParseCard(s: string): Option<Card>
  {
    if |s| == 0 then None
    else
      match (TokenValue(s[..|s| - 1]), SuitOfGlyph(s[|s| - 1..]))
      case (Some(v), Some(u)) => Some(Card(v, u))
      case _ => None
  }

  /** Parsing a printed card gives the card back. */
  lemma ParsePrint(c: Card)
    ensures ParseCard(CardString(c)) == Some(c)
  {
    var s := CardString(c);
    assert s[..|s| - 1] == RankToken(c.value);
    assert s[|s| - 1..] == SuitString(c.suit);
    RankTokensAscend();
    assert TokenValue(RankToken(c.value)) == Some(c.value);
  }

  /** A string that parses is the printed form of the card it parses to. */
  lemma PrintParse(s: string)
    requires ParseCard(s).Some?
    ensures CardString(ParseCard(s).value) == s
  {
    assert s == s[..|s| - 1] + s[|s| - 1..];
  }

  /** The four glyphs are distinct single characters. */
  lemma SuitsAreDistinctGlyphs()
    ensures |Suits| == 4
    ensures forall i :: 0 <= i < |Suits| ==> |Suits[i]| == 1
    ensures forall i, j :: 0 <= i < j < |Suits| ==> Suits[i] != Suits[j]
  {
  }

  /**
   * The thirteen tokens are distinct and listed in increasing value, which is
   * the value rankHand assigns to them.
   */
  lemma RankTokensAscend()
    ensures |RankTokens| == 13
    ensures forall i :: 0 <= i < 13 ==> TokenValue(RankTokens[i]) == Some(i + 2)
    ensures forall i, j :: 0 <= i < j < 13 ==> RankTokens[i] != RankTokens[j]
  {
    forall i, j | 0 <= i < j < 13
      ensures RankTokens[i] != RankTokens[j]
    {
      assert TokenValue(RankTokens[i]) != TokenValue(RankTokens[j]);
    }
  }

  /** The placeholder key is not a card string. */
  lemma BackIsNotACard()
    ensures ParseCard(Back).None?
    ensures forall c: Card :: CardString(c) != Back
  {
    assert Back[..|Back| - 1] == "Bac";
    forall c: Card ensures CardString(c) != Back {
      ParsePrint(c);
    }
  }

  /** Each key of a suit row of the face-image table is a card string. */
  lemma SpadeKeysAreCards(k: string)
    requires k in SpadeKeys
    ensures exists c: Card :: CardString(c) == k
  {
    if k in {"2\U{2660}", "3\U{2660}", "4\U{2660}", "5\U{2660}", "6\U{2660}", "7\U{2660}"} {
      SpadeLowKeysAreCards(k);
    } else {
      SpadeHighKeysAreCards(k);
    }
  }

  lemma SpadeLowKeysAreCards(k: string)
    requires k in {"2\U{2660}", "3\U{2660}", "4\U{2660}", "5\U{2660}", "6\U{2660}", "7\U{2660}"}
    ensures exists c: Card :: CardString(c) == k
  {
    if k == "2\U{2660}" { assert CardString(Card(2, Spades)) == k; }
    else if k == "3\U{2660}" { assert CardString(Card(3, Spades)) == k; }
    else if k == "4\U{2660}" { assert CardString(Card(4, Spades)) == k; }
    else if k == "5\U{2660}" { assert CardString(Card(5, Spades)) == k; }
    else if k == "6\U{2660}" { assert CardString(Card(6, Spades)) == k; }
    else { assert CardString(Card(7, Spades)) == k; }
  }

  lemma SpadeHighKeysAreCards(k: string)
    requires k in {"8\U{2660}", "9\U{2660}", "10\U{2660}", "J\U{2660}", "Q\U{2660}", "K\U{2660}", "A\U{2660}"}
    ensures exists c: Card :: CardString(c) == k
  {
    if k == "8\U{2660}" { assert CardString(Card(8, Spades)) == k; }
    else if k == "9\U{2660}" { assert CardString(Card(9, Spades)) == k; }
    else if k == "10\U{2660}" { assert CardString(Card(10, Spades)) == k; }
    else if k == "J\U{2660}" { assert CardString(Card(11, Spades)) == k; }
    else if k == "Q\U{2660}" { assert CardString(Card(12, Spades)) == k; }
    else if k == "K\U{2660}" { assert CardString(Card(13, Spades)) == k; }
    else { assert CardString(Card(14, Spades)) == k; }
  }

  lemma HeartKeysAreCards(k: string)
    requires k in HeartKeys
    ensures exists c: Card :: CardString(c) == k
  {
    if k in {"2\U{2665}", "3\U{2665}", "4\U{2665}", "5\U{2665}", "6\U{2665}", "7\U{2665}"} {
      HeartLowKeysAreCards(k);
    } else {
      HeartHighKeysAreCards(k);
    }
  }

  lemma HeartLowKeysAreCards(k: string)
    requires k in {"2\U{2665}", "3\U{2665}", "4\U{2665}", "5\U{2665}", "6\U{2665}", "7\U{2665}"}
    ensures exists c: Card :: CardString(c) == k
  {
    if k == "2\U{2665}" { assert CardString(Card(2, Hearts)) == k; }
    else if k == "3\U{2665}" { assert CardString(Card(3, Hearts)) == k; }
    else if k == "4\U{2665}" { assert CardString(Card(4, Hearts)) == k; }
    else if k == "5\U{2665}" { assert CardString(Card(5, Hearts)) == k; }
    else if k == "6\U{2665}" { assert CardString(Card(6, Hearts)) == k; }
    else { assert CardString(Card(7, Hearts)) == k; }
  }

  lemma HeartHighKeysAreCards(k: string)
    requires k in {"8\U{2665}", "9\U{2665}", "10\U{2665}", "J\U{2665}", "Q\U{2665}", "K\U{2665}", "A\U{2665}"}
    ensures exists c: Card :: CardString(c) == k
  {
    if k == "8\U{2665}" { assert CardString(Card(8, Hearts)) == k; }
    else if k == "9\U{2665}" { assert CardString(Card(9, Hearts)) == k; }
    else if k == "10\U{2665}" { assert CardString(Card(10, Hearts)) == k; }
    else if k == "J\U{2665}" { assert CardString(Card(11, Hearts)) == k; }
    else if k == "Q\U{2665}" { assert CardString(Card(12, Hearts)) == k; }
    else if k == "K\U{2665}" { assert CardString(Card(13, Hearts)) == k; }
    else { assert CardString(Card(14, Hearts)) == k; }
  }

  lemma DiamondKeysAreCards(k: string)
    requires k in DiamondKeys
    ensures exists c: Card :: CardString(c) == k
  {
    if k in {"2\U{2666}", "3\U{2666}", "4\U{2666}", "5\U{2666}", "6\U{2666}", "7\U{2666}"} {
      DiamondLowKeysAreCards(k);
    } else {
      DiamondHighKeysAreCards(k);
    }
  }

  lemma DiamondLowKeysAreCards(k: string)
    requires k in {"2\U{2666}", "3\U{2666}", "4\U{2666}", "5\U{2666}", "6\U{2666}", "7\U{2666}"}
    ensures exists c: Card :: CardString(c) == k
  {
    if k == "2\U{2666}" { assert CardString(Card(2, Diamonds)) == k; }
    else if k == "3\U{2666}" { assert CardString(Card(3, Diamonds)) == k; }
    else if k == "4\U{2666}" { assert CardString(Card(4, Diamonds)) == k; }
    else if k == "5\U{2666}" { assert CardString(Card(5, Diamonds)) == k; }
    else if k == "6\U{2666}" { assert CardString(Card(6, Diamonds)) == k; }
    else { assert CardString(Card(7, Diamonds)) == k; }
  }

  lemma DiamondHighKeysAreCards(k: string)
    requires k in {"8\U{2666}", "9\U{2666}", "10\U{2666}", "J\U{2666}", "Q\U{2666}", "K\U{2666}", "A\U{2666}"}
    ensures exists c: Card :: CardString(c) == k
  {
    if k == "8\U{2666}" { assert CardString(Card(8, Diamonds)) == k; }
    else if k == "9\U{2666}" { assert CardString(Card(9, Diamonds)) == k; }
    else if k == "10\U{2666}" { assert CardString(Card(10, Diamonds)) == k; }
    else if k == "J\U{2666}" { assert CardString(Card(11, Diamonds)) == k; }
    else if k == "Q\U{2666}" { assert CardString(Card(12, Diamonds)) == k; }
    else if k == "K\U{2666}" { assert CardString(Card(13, Diamonds)) == k; }
    else { assert CardString(Card(14, Diamonds)) == k; }
  }

  lemma ClubKeysAreCards(k: string)
    requires k in ClubKeys
    ensures exists c: Card :: CardString(c) == k
  {
    if k in {"2\U{2663}", "3\U{2663}", "4\U{2663}", "5\U{2663}", "6\U{2663}", "7\U{2663}"} {
      ClubLowKeysAreCards(k);
    } else {
      ClubHighKeysAreCards(k);
    }
  }

  lemma ClubLowKeysAreCards(k: string)
    requires k in {"2\U{2663}", "3\U{2663}", "4\U{2663}", "5\U{2663}", "6\U{2663}", "7\U{2663}"}
    ensures exists c: Card :: CardString(c) == k
  {
    if k == "2\U{2663}" { assert CardString(Card(2, Clubs)) == k; }
    else if k == "3\U{2663}" { assert CardString(Card(3, Clubs)) == k; }
    else if k == "4\U{2663}" { assert CardString(Card(4, Clubs)) == k; }
    else if k == "5\U{2663}" { assert CardString(Card(5, Clubs)) == k; }
    else if k == "6\U{2663}" { assert CardString(Card(6, Clubs)) == k; }
    else { assert CardString(Card(7, Clubs)) == k; }
  }

  lemma ClubHighKeysAreCards(k: string)
    requires k in {"8\U{2663}", "9\U{2663}", "10\U{2663}", "J\U{2663}", "Q\U{2663}", "K\U{2663}", "A\U{2663}"}
    ensures exists c: Card :: CardString(c) == k
  {
    if k == "8\U{2663}" { assert CardString(Card(8, Clubs)) == k; }
    else if k == "9\U{2663}" { assert CardString(Card(9, Clubs)) == k; }
    else if k == "10\U{2663}" { assert CardString(Card(10, Clubs)) == k; }
    else if k == "J\U{2663}" { assert CardString(Card(11, Clubs)) == k; }
    else if k == "Q\U{2663}" { assert CardString(Card(12, Clubs)) == k; }
    else if k == "K\U{2663}" { assert CardString(Card(13, Clubs)) == k; }
    else { assert CardString(Card(14, Clubs)) == k; }
  }

  lemma SpadeCardIsKey(v: RankValue)
    ensures CardString(Card(v, Spades)) in SpadeKeys
  {
    if v == 2 { assert CardString(Card(2, Spades)) == "2\U{2660}"; }
    else if v == 3 { assert CardString(Card(3, Spades)) == "3\U{2660}"; }
    else if v == 4 { assert CardString(Card(4, Spades)) == "4\U{2660}"; }
    else if v == 5 { assert CardString(Card(5, Spades)) == "5\U{2660}"; }
    else if v == 6 { assert CardString(Card(6, Spades)) == "6\U{2660}"; }
    else if v == 7 { assert CardString(Card(7, Spades)) == "7\U{2660}"; }
    else if v == 8 { assert CardString(Card(8, Spades)) == "8\U{2660}"; }
    else if v == 9 { assert CardString(Card(9, Spades)) == "9\U{2660}"; }
    else if v == 10 { assert CardString(Card(10, Spades)) == "10\U{2660}"; }
    else if v == 11 { assert CardString(Card(11, Spades)) == "J\U{2660}"; }
    else if v == 12 { assert CardString(Card(12, Spades)) == "Q\U{2660}"; }
    else if v == 13 { assert CardString(Card(13, Spades)) == "K\U{2660}"; }
    else { assert CardString(Card(14, Spades)) == "A\U{2660}"; }
  }

  lemma HeartCardIsKey(v: RankValue)
    ensures CardString(Card(v, Hearts)) in HeartKeys
  {
    if v == 2 { assert CardString(Card(2, Hearts)) == "2\U{2665}"; }
    else if v == 3 { assert CardString(Card(3, Hearts)) == "3\U{2665}"; }
    else if v == 4 { assert CardString(Card(4, Hearts)) == "4\U{2665}"; }
    else if v == 5 { assert CardString(Card(5, Hearts)) == "5\U{2665}"; }
    else if v == 6 { assert CardString(Card(6, Hearts)) == "6\U{2665}"; }
    else if v == 7 { assert CardString(Card(7, Hearts)) == "7\U{2665}"; }
    else if v == 8 { assert CardString(Card(8, Hearts)) == "8\U{2665}"; }
    else if v == 9 { assert CardString(Card(9, Hearts)) == "9\U{2665}"; }
    else if v == 10 { assert CardString(Card(10, Hearts)) == "10\U{2665}"; }
    else if v == 11 { assert CardString(Card(11, Hearts)) == "J\U{2665}"; }
    else if v == 12 { assert CardString(Card(12, Hearts)) == "Q\U{2665}"; }
    else if v == 13 { assert CardString(Card(13, Hearts)) == "K\U{2665}"; }
    else { assert CardString(Card(14, Hearts)) == "A\U{2665}"; }
  }

  lemma DiamondCardIsKey(v: RankValue)
    ensures CardString(Card(v, Diamonds)) in DiamondKeys
  {
    if v == 2 { assert CardString(Card(2, Diamonds)) == "2\U{2666}"; }
    else if v == 3 { assert CardString(Card(3, Diamonds)) == "3\U{2666}"; }
    else if v == 4 { assert CardString(Card(4, Diamonds)) == "4\U{2666}"; }
    else if v == 5 { assert CardString(Card(5, Diamonds)) == "5\U{2666}"; }
    else if v == 6 { assert CardString(Card(6, Diamonds)) == "6\U{2666}"; }
    else if v == 7 { assert CardString(Card(7, Diamonds)) == "7\U{2666}"; }
    else if v == 8 { assert CardString(Card(8, Diamonds)) == "8\U{2666}"; }
    else if v == 9 { assert CardString(Card(9, Diamonds)) == "9\U{2666}"; }
    else if v == 10 { assert CardString(Card(10, Diamonds)) == "10\U{2666}"; }
    else if v == 11 { assert CardString(Card(11, Diamonds)) == "J\U{2666}"; }
    else if v == 12 { assert CardString(Card(12, Diamonds)) == "Q\U{2666}"; }
    else if v == 13 { assert CardString(Card(13, Diamonds)) == "K\U{2666}"; }
    else { assert CardString(Card(14, Diamonds)) == "A\U{2666}"; }
  }

  lemma ClubCardIsKey(v: RankValue)
    ensures CardString(Card(v, Clubs)) in ClubKeys
  {
    if v == 2 { assert CardString(Card(2, Clubs)) == "2\U{2663}"; }
    else if v == 3 { assert CardString(Card(3, Clubs)) == "3\U{2663}"; }
    else if v == 4 { assert CardString(Card(4, Clubs)) == "4\U{2663}"; }
    else if v == 5 { assert CardString(Card(5, Clubs)) == "5\U{2663}"; }
    else if v == 6 { assert CardString(Card(6, Clubs)) == "6\U{2663}"; }
    else if v == 7 { assert CardString(Card(7, Clubs)) == "7\U{2663}"; }
    else if v == 8 { assert CardString(Card(8, Clubs)) == "8\U{2663}"; }
    else if v == 9 { assert CardString(Card(9, Clubs)) == "9\U{2663}"; }
    else if v == 10 { assert CardString(Card(10, Clubs)) == "10\U{2663}"; }
    else if v == 11 { assert CardString(Card(11, Clubs)) == "J\U{2663}"; }
    else if v == 12 { assert CardString(Card(12, Clubs)) == "Q\U{2663}"; }
    else if v == 13 { assert CardString(Card(13, Clubs)) == "K\U{2663}"; }
    else { assert CardString(Card(14, Clubs)) == "A\U{2663}"; }
  }

  /** Every card's string is a key of the face-image table. */
  lemma CardStringIsKey(c: Card)
    ensures CardString(c) in CardUnicodeKeys
  {
    match c.suit
    case Spades => SpadeCardIsKey(c.value);
    case Hearts => HeartCardIsKey(c.value);
    case Diamonds => DiamondCardIsKey(c.value);
    case Clubs => ClubCardIsKey(c.value);
  }

  /**
   * The keys of the face-image table are exactly the 52 card strings and the
   * placeholder, which is not itself a card string.
   */
  lemma CardUnicodeKeysAreTheAlphabet()
    ensures forall k :: k in CardUnicodeKeys <==> (k == Back || exists c: Card :: CardString(c) == k)
    ensures forall k :: k in CardUnicodeKeys && k != Back ==> ParseCard(k).Some?
  {
    forall k | k in CardUnicodeKeys && k != Back
      ensures exists c: Card :: CardString(c) == k
    {
      if k in SpadeKeys { SpadeKeysAreCards(k); }
      else if k in HeartKeys { HeartKeysAreCards(k); }
      else if k in DiamondKeys { DiamondKeysAreCards(k); }
      else { ClubKeysAreCards(k); }
    }
    forall c: Card ensures CardString(c) in CardUnicodeKeys {
      CardStringIsKey(c);
    }
    forall k | k in CardUnicodeKeys && k != Back
      ensures ParseCard(k).Some?
    {
      var c: Card :| CardString(c) == k;
      ParsePrint(c);
    }
  }
}
