/**
 * Building the ordered 52-card deck: the current builder
 * (client/src/utils/game/initializeDeck.ts) and the legacy one
 * (client/src/utils/card/initializeDeck.ts), whose suit strings are the
 * UTF-8 bytes of the glyphs read back as Windows-1252 text.
 */
module Deck {
  import opened Cards

  /** Every element occurs once. */
  ghost predicate Distinct<T>(s: seq<T>)
  {
    forall i, j :: 0 <= i < j < |s| ==> s[i] != s[j]
  }

  /** No element occurs twice exactly when every multiplicity is at most one. */
  lemma {:induction false} DistinctMultiplicity<T>(s: seq<T>)
    ensures Distinct(s) <==> forall x :: multiset(s)[x] <= 1
  {
    if s != [] {
      var r := s[1..];
      DistinctMultiplicity(r);
      assert s == [s[0]] + r;
      assert multiset(s) == multiset{s[0]} + multiset(r);
      if Distinct(s) {
        assert Distinct(r) by {
          forall i, j | 0 <= i < j < |r| ensures r[i] != r[j] {
            assert r[i] == s[i + 1] && r[j] == s[j + 1];
          }
        }
        assert s[0] !in r by {
          forall k | 0 <= k < |r| ensures r[k] != s[0] {
            assert r[k] == s[k + 1];
          }
        }
        assert multiset(r)[s[0]] == 0;
      } else {
        var i, j :| 0 <= i < j < |s| && s[i] == s[j];
        if i == 0 {
          assert s[j] == r[j - 1];
          assert multiset(s)[s[0]] == 1 + multiset(r)[s[0]];
        } else {
          assert r[i - 1] == s[i] && r[j - 1] == s[j];
          assert !Distinct(r);
          var x :| multiset(r)[x] > 1;
          assert multiset(s)[x] > 1;
        }
      }
    }
  }

  /** A permutation of a sequence without duplicates has none either. */
  lemma DistinctPermutation<T>(a: seq<T>, b: seq<T>)
    requires Distinct(a) && multiset(a) == multiset(b)
    ensures Distinct(b)
  {
    DistinctMultiplicity(a);
    DistinctMultiplicity(b);
  }

  /** `ranks.map(rank => rank + suit)`: one suit's row of cards. */
  function SuitRow(ranks: seq<string>, suit: string): seq<string>
  {
    seq(|ranks|, r requires 0 <= r < |ranks| => ranks[r] + suit)
  }

  /** `suits.flatMap(suit => ranks.map(rank => rank + suit))`: suits outer, ranks inner. */
  function SuitMajor(suits: seq<string>, ranks: seq<string>): seq<string>
  {
    if suits == [] then [] else SuitRow(ranks, suits[0]) + SuitMajor(suits[1..], ranks)
  }

  /** With thirteen ranks, the card at position `13 * s + r` is rank `r` of suit `s`. */
  lemma {:induction false} SuitMajorAt(suits: seq<string>, ranks: seq<string>, s: nat, r: nat)
    requires |ranks| == 13
    requires s < |suits| && r < 13
    ensures |SuitMajor(suits, ranks)| == 13 * |suits|
    ensures SuitMajor(suits, ranks)[13 * s + r] == ranks[r] + suits[s]
  {
    if s == 0 {
      SuitMajorLength(suits[1..], ranks);
    } else {
      SuitMajorAt(suits[1..], ranks, s - 1, r);
    }
  }

  /** With thirteen ranks, position `i` holds rank `i % 13` of suit `i / 13`. */
  lemma SuitMajorLayout(suits: seq<string>, ranks: seq<string>)
    requires |ranks| == 13
    ensures |SuitMajor(suits, ranks)| == 13 * |suits|
    ensures forall i :: 0 <= i < 13 * |suits| ==> SuitMajor(suits, ranks)[i] == ranks[i % 13] + suits[i / 13]
  {
    SuitMajorLength(suits, ranks);
    forall i | 0 <= i < 13 * |suits| ensures SuitMajor(suits, ranks)[i] == ranks[i % 13] + suits[i / 13] {
      SuitMajorAt(suits, ranks, i / 13, i % 13);
    }
  }

  lemma {:induction false} SuitMajorLength(suits: seq<string>, ranks: seq<string>)
    requires |ranks| == 13
    ensures |SuitMajor(suits, ranks)| == 13 * |suits|
  {
    if suits != [] {
      SuitMajorLength(suits[1..], ranks);
    }
  }

  /** A string is in the deck exactly when it is some rank followed by some suit. */
  lemma {:induction false} SuitMajorMembers(suits: seq<string>, ranks: seq<string>, x: string)
    ensures x in SuitMajor(suits, ranks) <==> exists s, r :: 0 <= s < |suits| && 0 <= r < |ranks| && x == ranks[r] + suits[s]
  {
    if suits != [] {
      SuitMajorMembers(suits[1..], ranks, x);
      if x in SuitRow(ranks, suits[0]) {
        var r :| 0 <= r < |ranks| && SuitRow(ranks, suits[0])[r] == x;
        assert x == ranks[r] + suits[0];
      }
      if exists s, r :: 0 <= s < |suits| && 0 <= r < |ranks| && x == ranks[r] + suits[s] {
        var s, r :| 0 <= s < |suits| && 0 <= r < |ranks| && x == ranks[r] + suits[s];
        if s == 0 {
          assert SuitRow(ranks, suits[0])[r] == x;
        } else {
          assert x == ranks[r] + suits[1..][s - 1];
        }
      }
    }
  }

  /** `a + s == b + t` with suffixes of equal length splits into `a == b` and `s == t`. */
  lemma SplitSuffix(a: string, s: string, b: string, t: string)
    requires a + s == b + t && |s| == |t|
    ensures a == b && s == t
  {
    assert a == (a + s)[..|a|];
    assert b == (b + t)[..|b|];
    assert s == (a + s)[|a|..];
    assert t == (b + t)[|b|..];
  }

  /**
   * With distinct ranks, distinct suits and all suit strings of one length,
   * no card occurs twice.
   */
  lemma {:induction false} SuitMajorDistinct(suits: seq<string>, ranks: seq<string>)
    requires Distinct(suits) && Distinct(ranks)
    requires forall i, j :: 0 <= i < |suits| && 0 <= j < |suits| ==> |suits[i]| == |suits[j]|
    ensures Distinct(SuitMajor(suits, ranks))
  {
    if suits != [] {
      var row, rest := SuitRow(ranks, suits[0]), SuitMajor(suits[1..], ranks);
      SuitMajorDistinct(suits[1..], ranks);
      forall i, j | 0 <= i < j < |row| ensures row[i] != row[j] {
        if row[i] == row[j] { SplitSuffix(ranks[i], suits[0], ranks[j], suits[0]); }
      }
      forall i, j | 0 <= i < |row| && 0 <= j < |rest| ensures row[i] != rest[j] {
        SuitMajorMembers(suits[1..], ranks, rest[j]);
        var s, r :| 0 <= s < |suits[1..]| && 0 <= r < |ranks| && rest[j] == ranks[r] + suits[1..][s];
        if row[i] == rest[j] { SplitSuffix(ranks[i], suits[0], ranks[r], suits[s + 1]); }
      }
      var d := row + rest;
      forall i, j | 0 <= i < j < |d| ensures d[i] != d[j] {
        if j < |row| {
          assert d[i] == row[i] && d[j] == row[j];
        } else if i < |row| {
          assert d[i] == row[i] && d[j] == rest[j - |row|];
        } else {
          assert d[i] == rest[i - |row|] && d[j] == rest[j - |row|];
        }
      }
    }
  }

  /** initializeDeck: every rank of every suit, suits outer. */
  function InitializeDeck(): seq<string>
  {
    SuitMajor(Suits, RankTokens)
  }

  /**
   * The deck has 52 distinct cards; the one at 13 * s + r is rank token r
   * followed by suit glyph s.
   */
  lemma InitializeDeckLayout()
    ensures |InitializeDeck()| == 52
    ensures forall i :: 0 <= i < 52 ==> InitializeDeck()[i] == RankTokens[i % 13] + Suits[i / 13]
    ensures Distinct(InitializeDeck())
  {
    SuitMajorLayout(Suits, RankTokens);
    SuitsAreDistinctGlyphs();
    RankTokensAscend();
    SuitMajorDistinct(Suits, RankTokens);
  }

  /**
   * Every card's string is in the deck, every string in the deck is a card
   * string that parses back to itself, and with the placeholder the deck's
   * strings are the keys of the face-image table.
   */
  lemma InitializeDeckIsTheAlphabet()
    ensures forall c: Card :: CardString(c) in InitializeDeck()
    ensures forall x :: x in InitializeDeck() ==> ParseCard(x).Some? && CardString(ParseCard(x).value) == x
    ensures forall k :: k in CardUnicodeKeys <==> k == Back || k in InitializeDeck()
  {
    forall c: Card ensures CardString(c) in InitializeDeck() {
      SuitMajorMembers(Suits, RankTokens, CardString(c));
      assert CardString(c) == RankTokens[c.value - 2] + Suits[SuitIndex(c.suit)];
    }
    forall x | x in InitializeDeck()
      ensures ParseCard(x).Some? && CardString(ParseCard(x).value) == x
    {
      SuitMajorMembers(Suits, RankTokens, x);
      var s, r :| 0 <= s < 4 && 0 <= r < 13 && x == RankTokens[r] + Suits[s];
      var c := Card(r + 2, [Spades, Hearts, Diamonds, Clubs][s]);
      assert CardString(c) == x;
      ParsePrint(c);
    }
    CardUnicodeKeysAreTheAlphabet();
  }

  /** The legacy builder's suit strings, three characters each. */
  const LegacySuits: seq<string> := [
    "\U{00E2}\U{2122}\U{00A0}", "\U{00E2}\U{2122}\U{00A5}", "\U{00E2}\U{2122}\U{00A6}", "\U{00E2}\U{2122}\U{00A3}"
  ]

  /** The legacy builder's own rank list. */
  const LegacyRanks: seq<string> := ["2", "3", "4", "5", "6", "7", "8", "9", "10", "J", "Q", "K", "A"]

  /** The legacy initializeDeck: the same comprehension over its own lists. */
  function LegacyInitializeDeck(): seq<string>
  {
    SuitMajor(LegacySuits, LegacyRanks)
  }

  /** The three UTF-8 bytes of a character in U+0800 .. U+FFFF. */
  function Utf8Bytes3(c: char): (b: seq<int>)
    requires 0x800 <= c as int < 0x10000
    ensures |b| == 3 && 0xE0 <= b[0] < 0xF0 && 0x80 <= b[1] < 0xC0 && 0x80 <= b[2] < 0xC0
    ensures (b[0] - 0xE0) * 4096 + (b[1] - 0x80) * 64 + (b[2] - 0x80) == c as int
  {
    var n := c as int;
    [0xE0 + n / 4096, 0x80 + (n / 64) % 64, 0x80 + n % 64]
  }

  /** The Windows-1252 character of a byte (the five unassigned bytes read as their Latin-1 control codes). */
  function Windows1252(b: int): char
    requires 0 <= b < 256
  {
    if b < 0x80 || b >= 0xA0 then b as char
    else
      var high := [
        '\U{20AC}', '\U{0081}', '\U{201A}', '\U{0192}', '\U{201E}', '\U{2026}', '\U{2020}', '\U{2021}',
        '\U{02C6}', '\U{2030}', '\U{0160}', '\U{2039}', '\U{0152}', '\U{008D}', '\U{017D}', '\U{008F}',
        '\U{0090}', '\U{2018}', '\U{2019}', '\U{201C}', '\U{201D}', '\U{2022}', '\U{2013}', '\U{2014}',
        '\U{02DC}', '\U{2122}', '\U{0161}', '\U{203A}', '\U{0153}', '\U{009D}', '\U{017E}', '\U{0178}'];
      high[b - 0x80]
  }

  /** A character's UTF-8 bytes read back one byte per character as Windows-1252. */
  function Misdecode(c: char): string
    requires 0x800 <= c as int < 0x10000
  {
    var b := Utf8Bytes3(c);
    [Windows1252(b[0]), Windows1252(b[1]), Windows1252(b[2])]
  }

  /** Each legacy suit string is the corresponding glyph mis-decoded. */
  lemma LegacySuitsAreMisdecodedGlyphs()
    ensures forall s :: 0 <= s < 4 ==> LegacySuits[s] == Misdecode(Suits[s][0])
  {
    assert Utf8Bytes3(Suits[0][0]) == [0xE2, 0x99, 0xA0];
    assert Utf8Bytes3(Suits[1][0]) == [0xE2, 0x99, 0xA5];
    assert Utf8Bytes3(Suits[2][0]) == [0xE2, 0x99, 0xA6];
    assert Utf8Bytes3(Suits[3][0]) == [0xE2, 0x99, 0xA3];
  }

  /**
   * The legacy deck has 52 distinct entries, suits outer and ranks inner, over
   * the same rank list as the current one.
   */
  lemma LegacyInitializeDeckLayout()
    ensures LegacyRanks == RankTokens
    ensures |LegacyInitializeDeck()| == 52
    ensures forall i :: 0 <= i < 52 ==> LegacyInitializeDeck()[i] == RankTokens[i % 13] + LegacySuits[i / 13]
    ensures Distinct(LegacyInitializeDeck())
  {
    assert LegacyRanks == RankTokens;
    SuitMajorLayout(LegacySuits, RankTokens);
    RankTokensAscend();
    LegacySuitsDistinct();
    SuitMajorDistinct(LegacySuits, RankTokens);
  }

  /** The four legacy suit strings are distinct and three characters long. */
  lemma LegacySuitsDistinct()
    ensures Distinct(LegacySuits)
    ensures forall i :: 0 <= i < 4 ==> |LegacySuits[i]| == 3
  {
  }

  /** No legacy entry is a card string: its last character is not a suit glyph. */
  lemma LegacyCardsDoNotParse(x: string)
    requires x in LegacyInitializeDeck()
    ensures ParseCard(x).None?
  {
    SuitMajorMembers(LegacySuits, LegacyRanks, x);
    var s, r :| 0 <= s < 4 && 0 <= r < 13 && x == LegacyRanks[r] + LegacySuits[s];
    LegacyCardDoesNotParse(r, s);
  }

  /** The legacy entry for rank `r` and suit `s` does not parse. */
  lemma LegacyCardDoesNotParse(r: nat, s: nat)
    requires r < 13 && s < 4
    ensures ParseCard(LegacyRanks[r] + LegacySuits[s]).None?
  {
    var x := LegacyRanks[r] + LegacySuits[s];
    assert x[|x| - 1..] == LegacySuits[s][2..];
    LegacySuitEndsInNoGlyph(s);
  }

  /** The last character of a legacy suit string is not a suit glyph. */
  lemma LegacySuitEndsInNoGlyph(s: nat)
    requires s < 4
    ensures SuitOfGlyph(LegacySuits[s][2..]).None?
  {
    assert LegacySuits[s][2..] in {"\U{00A0}", "\U{00A5}", "\U{00A6}", "\U{00A3}"};
  }
}
