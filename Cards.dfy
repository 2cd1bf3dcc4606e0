/**
 * The playing cards of hw2/Cards.py: cards ordered by suit and then value,
 * a deck built from every value-suit combination and kept sorted, drawing
 * from its top (the end of the list), and playing a card from a hand.
 *
 * Python's `list.sort` is modelled by `SortCards`, an insertion sort; since
 * the card order is total, `SortedUnique` shows that every sorted
 * rearrangement is that same list, so the choice of algorithm is immaterial.
 */
module Cards {
  import opened Util
  import opened Strings

  datatype Card = Card(value: int, suit: string)

  // ---------------------------------------------------------------------------
  // Ordering

  /** `Card.__lt__`: by suit, then by value within a suit. */
  predicate CardLess(c: Card, d: Card)
    ensures CardLess(c, d) ==> c != d
  {
    LexLess(c.suit, d.suit) || (c.suit == d.suit && c.value < d.value)
  }

  lemma CardLessTransitive(c: Card, d: Card, e: Card)
    requires CardLess(c, d) && CardLess(d, e)
    ensures CardLess(c, e)
  {
    if LexLess(c.suit, d.suit) && LexLess(d.suit, e.suit) {
      LexLessTransitive(c.suit, d.suit, e.suit);
    }
  }

  /** The card order is total: two different cards are ordered one way or the other. */
  lemma CardLessTotal(c: Card, d: Card)
    requires c != d
    ensures CardLess(c, d) || CardLess(d, c)
  {
    if c.suit != d.suit {
      LexLessTotal(c.suit, d.suit);
    }
  }

  /** At most one of two cards is the smaller. */
  lemma CardLessAsymmetric(c: Card, d: Card)
    requires CardLess(c, d)
    ensures !CardLess(d, c)
  {
    if CardLess(d, c) {
      CardLessTransitive(c, d, c);
    }
  }

  // ---------------------------------------------------------------------------
  // Sorting

  /** Ascending in the sense of `list.sort`: no card is smaller than one before it. */
  predicate CardsSorted(s: seq<Card>)
  {
    forall i, j :: 0 <= i < j < |s| ==> !CardLess(s[j], s[i])
  }

  /** Inserts `c` before the first card greater than it. */
  function Insert(c: Card, s: seq<Card>): (r: seq<Card>)
    ensures multiset(r) == multiset(s) + multiset{c}
  {
    if s == [] then [c]
    else
      assert s == [s[0]] + s[1..];
      if CardLess(c, s[0]) then [c] + s
      else [s[0]] + Insert(c, s[1..])
  }

  /** A card no greater than any of a sorted list may go in front of it. */
  lemma ConsSorted(a: Card, rest: seq<Card>)
    requires CardsSorted(rest) && forall c :: c in rest ==> !CardLess(c, a)
    ensures CardsSorted([a] + rest)
  {
    var r := [a] + rest;
    forall i, j | 0 <= i < j < |r|
      ensures !CardLess(r[j], r[i])
    {
      assert r[j] == rest[j - 1];
      if i > 0 {
        assert r[i] == rest[i - 1];
      }
    }
  }

  lemma {:induction false} InsertSorted(c: Card, s: seq<Card>)
    requires CardsSorted(s)
    ensures CardsSorted(Insert(c, s))
  {
    if s == [] {
    } else if CardLess(c, s[0]) {
      forall d | d in s
        ensures !CardLess(d, c)
      {
        if CardLess(d, c) {
          CardLessTransitive(d, c, s[0]);
        }
      }
      ConsSorted(c, s);
    } else {
      InsertSorted(c, s[1..]);
      var tail := Insert(c, s[1..]);
      forall d | d in tail
        ensures !CardLess(d, s[0])
      {
        assert d in multiset(tail);
        if d != c {
          assert d in multiset(s[1..]);
          var m :| 0 <= m < |s[1..]| && s[1..][m] == d;
          assert s[m + 1] == d;
        }
      }
      ConsSorted(s[0], tail);
    }
  }

  /** The order `list.sort` leaves the cards in. */
  function SortCards(s: seq<Card>): (r: seq<Card>)
    ensures multiset(r) == multiset(s)
  {
    if s == [] then []
    else
      assert s == [s[0]] + s[1..];
      Insert(s[0], SortCards(s[1..]))
  }

  lemma {:induction false} SortCardsSorted(s: seq<Card>)
    ensures CardsSorted(SortCards(s))
  {
    if s != [] {
      SortCardsSorted(s[1..]);
      InsertSorted(s[0], SortCards(s[1..]));
    }
  }

  /** The head of a sorted list is its least card. */
  lemma SortedHead(s: seq<Card>)
    requires CardsSorted(s) && s != []
    ensures forall c :: c in s ==> c == s[0] || CardLess(s[0], c)
  {
    forall c | c in s
      ensures c == s[0] || CardLess(s[0], c)
    {
      var k :| 0 <= k < |s| && s[k] == c;
      if c != s[0] {
        CardLessTotal(c, s[0]);
      }
    }
  }

  lemma SameHead(s: seq<Card>, t: seq<Card>)
    requires CardsSorted(s) && CardsSorted(t) && multiset(s) == multiset(t) && s != []
    ensures t != [] && s[0] == t[0]
  {
    SortedHead(s);
    forall c | c in t
      ensures c == s[0] || CardLess(s[0], c)
    {
      assert c in multiset(t);
    }
    assert s[0] in multiset(t);
    SortedFirstIsMin(t, s[0]);
  }

  lemma SameTail(s: seq<Card>, t: seq<Card>)
    requires multiset(s) == multiset(t) && s != [] && t != [] && s[0] == t[0]
    ensures multiset(s[1..]) == multiset(t[1..]) && |s[1..]| < |s|
  {
    assert s == [s[0]] + s[1..] && t == [t[0]] + t[1..];
    assert multiset(s[1..]) == multiset(s) - multiset{s[0]};
    assert multiset(t[1..]) == multiset(t) - multiset{s[0]};
  }

  /** Two sorted arrangements of the same cards are the same list. */
  lemma {:induction false} SortedUnique(s: seq<Card>, t: seq<Card>)
    requires CardsSorted(s) && CardsSorted(t) && multiset(s) == multiset(t)
    ensures s == t
    decreases |s|
  {
    if s != [] {
      SameHead(s, t);
      SameTail(s, t);
      SortedUnique(s[1..], t[1..]);
    }
  }

  /** `SortCards` is the one sorted rearrangement of its input. */
  lemma SortCardsIsSort(s: seq<Card>, t: seq<Card>)
    requires CardsSorted(t) && multiset(t) == multiset(s)
    ensures SortCards(s) == t
  {
    SortCardsSorted(s);
    SortedUnique(SortCards(s), t);
  }

  /** The first card of a sorted list is the smallest of all. */
  lemma SortedFirstIsMin(s: seq<Card>, m: Card)
    requires CardsSorted(s) && m in s
    requires forall c :: c in s ==> c == m || CardLess(m, c)
    ensures s[0] == m
  {
    var k :| 0 <= k < |s| && s[k] == m;
  }

  /** The last card of a sorted list is the greatest of all. */
  lemma SortedLastIsMax(s: seq<Card>, m: Card)
    requires CardsSorted(s) && m in s
    requires forall c :: c in s ==> c == m || CardLess(c, m)
    ensures s[|s| - 1] == m
  {
    var k :| 0 <= k < |s| && s[k] == m;
  }

  // ---------------------------------------------------------------------------
  // The deck

  /** The cards of one value in the order of the suits. */
  function SuitRow(value: int, suits: seq<string>): (r: seq<Card>)
    ensures |r| == |suits|
  {
    if suits == [] then [] else SuitRow(value, suits[..|suits| - 1]) + [Card(value, suits[|suits| - 1])]
  }

  /** The cards in the order the constructor's nested loops append them: value by value, then suit by suit. */
  function Grid(values: seq<int>, suits: seq<string>): (r: seq<Card>)
    ensures |r| == |values| * |suits|
  {
    if values == [] then []
    else Grid(values[..|values| - 1], suits) + SuitRow(values[|values| - 1], suits)
  }

  lemma {:induction false} SuitRowHas(value: int, suits: seq<string>, c: Card)
    ensures c in SuitRow(value, suits) <==> c.value == value && c.suit in suits
  {
    if suits != [] {
      var init := suits[..|suits| - 1];
      SuitRowHas(value, init, c);
      assert suits == init + [suits[|suits| - 1]];
    }
  }

  /** The combinations are exactly the cards with a listed value and a listed suit. */
  lemma {:induction false} GridHas(values: seq<int>, suits: seq<string>, c: Card)
    ensures c in Grid(values, suits) <==> c.value in values && c.suit in suits
  {
    if values != [] {
      var init := values[..|values| - 1];
      GridHas(init, suits, c);
      SuitRowHas(values[|values| - 1], suits, c);
      assert values == init + [values[|values| - 1]];
    }
  }

  /** The nested loops of `Deck.__init__`, appending one card per value and suit. */
  method Combinations(suits: seq<string>, values: seq<int>) returns (cards: seq<Card>)
    ensures cards == Grid(values, suits)
  {
    cards := [];
    for i := 0 to |values|
      invariant cards == Grid(values[..i], suits)
    {
      for j := 0 to |suits|
        invariant cards == Grid(values[..i], suits) + SuitRow(values[i], suits[..j])
      {
        assert suits[..j + 1][..j] == suits[..j];
        cards := cards + [Card(values[i], suits[j])];
      }
      assert values[..i + 1][..i] == values[..i] && suits[..|suits|] == suits;
    }
    assert values[..|values|] == values;
  }

  class Deck {
    /** The cards, the top of the deck last. */
    var cards: seq<Card>

    /** `Deck(suits, values)`: every combination, sorted. */
    constructor(suits: seq<string>, values: seq<int>)
      ensures cards == SortCards(Grid(values, suits))
    {
      var grid := Combinations(suits, values);
      cards := SortCards(grid);
    }

    /** `Hand(cards)`: a deck holding the given cards in the given order; hands add `Play`. */
    constructor Hand(cards: seq<Card>)
      ensures this.cards == cards
    {
      this.cards := cards;
    }

    function Len(): (n: nat)
      reads this
      ensures n == |cards|
    {
      |cards|
    }

    /** `sort`: the cards in ascending order. */
    method Sort()
      modifies this
      ensures cards == SortCards(old(cards))
    {
      cards := SortCards(cards);
    }

    /** `draw_top`: the last card, removed; IndexError when the deck is empty. */
    method DrawTop() returns (r: Result<Card>)
      modifies this
      ensures old(cards) == [] ==> r == Err(IndexError) && cards == old(cards)
      ensures old(cards) != [] ==> r == Ok(old(cards)[|old(cards)| - 1]) && cards == old(cards)[..|old(cards)| - 1]
    {
      if cards == [] {
        return Err(IndexError);
      }
      r := Ok(cards[|cards| - 1]);
      cards := cards[..|cards| - 1];
    }

    /** `Hand.play`: removes the first occurrence of the card and returns it; ValueError if it is absent. */
    method Play(card: Card) returns (r: Result<Card>)
      modifies this
      ensures card !in old(cards) ==> r == Err(ValueError) && cards == old(cards)
      ensures card in old(cards) ==> r == Ok(card) && cards == RemoveFirst(old(cards), card)
    {
      if card !in cards {
        return Err(ValueError);
      }
      cards := RemoveFirst(cards, card);
      r := Ok(card);
    }
  }

  /** A new deck holds |values|·|suits| cards, in order, and exactly the listed combinations. */
  lemma NewDeck(suits: seq<string>, values: seq<int>, c: Card)
    ensures |SortCards(Grid(values, suits))| == |values| * |suits|
    ensures CardsSorted(SortCards(Grid(values, suits)))
    ensures c in SortCards(Grid(values, suits)) <==> c.value in values && c.suit in suits
  {
    var grid := Grid(values, suits);
    assert |multiset(SortCards(grid))| == |multiset(grid)|;
    SortCardsSorted(grid);
    GridHas(values, suits, c);
    assert c in SortCards(grid) <==> c in multiset(SortCards(grid));
  }

  /** `list.remove`: the list without the first occurrence of `x`. */
  function RemoveFirst(s: seq<Card>, x: Card): (r: seq<Card>)
    ensures x in s ==> multiset(r) == multiset(s) - multiset{x} && |r| == |s| - 1
    ensures x !in s ==> r == s
  {
    if s == [] then []
    else
      assert s == [s[0]] + s[1..];
      if s[0] == x then s[1..]
      else [s[0]] + RemoveFirst(s[1..], x)
  }

  /** It is the occurrence at the first index holding `x` that goes; the rest keep their order. */
  lemma {:induction false} RemoveFirstAt(s: seq<Card>, x: Card, k: nat)
    requires k < |s| && s[k] == x && x !in s[..k]
    ensures RemoveFirst(s, x) == s[..k] + s[k + 1..]
  {
    if k > 0 {
      var t := s[1..];
      assert s[0] != x by { assert s[0] == s[..k][0]; }
      assert t[..k - 1] == s[..k][1..];
      RemoveFirstAt(t, x, k - 1);
      assert RemoveFirst(s, x) == [s[0]] + RemoveFirst(t, x);
      assert s[..k] == [s[0]] + t[..k - 1] && s[k + 1..] == t[k..];
    }
  }

  // ---------------------------------------------------------------------------
  // The default deck

  function DefaultSuits(): seq<string>
  {
    ["clubs", "diamonds", "hearts", "spades"]
  }

  /** `range(1, 14)`. */
  function DefaultValues(): (r: seq<int>)
    ensures |r| == 13 && forall i :: 0 <= i < 13 ==> r[i] == i + 1
  {
    seq(13, i => i + 1)
  }

  /** Every card of the default deck lies between the ace of clubs and the king of spades. */
  lemma DefaultCardBounds(c: Card)
    requires c.value in DefaultValues() && c.suit in DefaultSuits()
    ensures c == Card(1, "clubs") || CardLess(Card(1, "clubs"), c)
    ensures c == Card(13, "spades") || CardLess(c, Card(13, "spades"))
  {
    var i :| 0 <= i < 13 && DefaultValues()[i] == c.value;
  }

  /** The default deck has 52 cards: the ace of clubs first, the king of spades last, so drawn first. */
  lemma DefaultDeck()
    ensures |SortCards(Grid(DefaultValues(), DefaultSuits()))| == 52
    ensures SortCards(Grid(DefaultValues(), DefaultSuits()))[0] == Card(1, "clubs")
    ensures SortCards(Grid(DefaultValues(), DefaultSuits()))[51] == Card(13, "spades")
  {
    var values, suits := DefaultValues(), DefaultSuits();
    var deck := SortCards(Grid(values, suits));
    var ace, king := Card(1, "clubs"), Card(13, "spades");
    assert values[0] == 1 && values[12] == 13;
    NewDeck(suits, values, ace);
    NewDeck(suits, values, king);
    forall c | c in deck
      ensures (c == ace || CardLess(ace, c)) && (c == king || CardLess(c, king))
    {
      NewDeck(suits, values, c);
      DefaultCardBounds(c);
    }
    SortedFirstIsMin(deck, ace);
    SortedLastIsMax(deck, king);
  }
}
