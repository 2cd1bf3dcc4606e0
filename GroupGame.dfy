/**
 * The card game GROUP! of hw2/what/hw2.py: cards with four attributes, a
 * deck holding one card per combination of attribute values, and the test
 * for whether some cards form a group.
 */
module GroupGame {
  import opened Util

  /** A card; datatype equality compares all four attributes, as `Card.__eq__` does. */
  datatype Card = Card(number: int, color: string, shading: string, shape: string)

  /** `itertools.product(numbers, colors, shadings, shapes)`: the last attribute varies fastest. */
  function Product(numbers: seq<int>, colors: seq<string>, shadings: seq<string>, shapes: seq<string>): (r: seq<Card>)
    ensures |r| == |numbers| * (|colors| * (|shadings| * |shapes|))
  {
    if numbers == [] then []
    else Row(numbers[0], colors, shadings, shapes) + Product(numbers[1..], colors, shadings, shapes)
  }

  /** The cards of one number, in product order. */
  function Row(number: int, colors: seq<string>, shadings: seq<string>, shapes: seq<string>): (r: seq<Card>)
    ensures |r| == |colors| * (|shadings| * |shapes|)
  {
    if colors == [] then []
    else Cell(number, colors[0], shadings, shapes) + Row(number, colors[1..], shadings, shapes)
  }

  function Cell(number: int, color: string, shadings: seq<string>, shapes: seq<string>): (r: seq<Card>)
    ensures |r| == |shadings| * |shapes|
  {
    if shadings == [] then []
    else Line(number, color, shadings[0], shapes) + Cell(number, color, shadings[1..], shapes)
  }

  function Line(number: int, color: string, shading: string, shapes: seq<string>): (r: seq<Card>)
    ensures |r| == |shapes|
    ensures forall k :: 0 <= k < |shapes| ==> r[k] == Card(number, color, shading, shapes[k])
  {
    if shapes == [] then [] else [Card(number, color, shading, shapes[0])] + Line(number, color, shading, shapes[1..])
  }

  /** Whether a card's attributes are drawn from the given values. */
  predicate Drawn(c: Card, numbers: seq<int>, colors: seq<string>, shadings: seq<string>, shapes: seq<string>)
  {
    c.number in numbers && c.color in colors && c.shading in shadings && c.shape in shapes
  }

  lemma {:induction false} CellIsCombinations(number: int, color: string, shadings: seq<string>, shapes: seq<string>, c: Card)
    ensures c in Cell(number, color, shadings, shapes) <==> Drawn(c, [number], [color], shadings, shapes)
  {
    if shadings != [] {
      CellIsCombinations(number, color, shadings[1..], shapes, c);
      var line := Line(number, color, shadings[0], shapes);
      assert c in line <==> Drawn(c, [number], [color], [shadings[0]], shapes) by {
        if c in line {
          var k :| 0 <= k < |line| && line[k] == c;
        }
        if Drawn(c, [number], [color], [shadings[0]], shapes) {
          var k :| 0 <= k < |shapes| && shapes[k] == c.shape;
          assert line[k] == c;
        }
      }
      assert shadings == [shadings[0]] + shadings[1..];
    }
  }

  lemma {:induction false} RowIsCombinations(number: int, colors: seq<string>, shadings: seq<string>, shapes: seq<string>, c: Card)
    ensures c in Row(number, colors, shadings, shapes) <==> Drawn(c, [number], colors, shadings, shapes)
  {
    if colors != [] {
      RowIsCombinations(number, colors[1..], shadings, shapes, c);
      CellIsCombinations(number, colors[0], shadings, shapes, c);
      assert colors == [colors[0]] + colors[1..];
    }
  }

  /** The deck holds exactly the cards whose every attribute is one of the given values. */
  lemma {:induction false} ProductIsCombinations(numbers: seq<int>, colors: seq<string>, shadings: seq<string>, shapes: seq<string>, c: Card)
    ensures c in Product(numbers, colors, shadings, shapes) <==> Drawn(c, numbers, colors, shadings, shapes)
  {
    if numbers != [] {
      ProductIsCombinations(numbers[1..], colors, shadings, shapes, c);
      RowIsCombinations(numbers[0], colors, shadings, shapes, c);
      assert numbers == [numbers[0]] + numbers[1..];
    }
  }

  /** The first combination comes first: every attribute at its first value. */
  lemma ProductFirst(numbers: seq<int>, colors: seq<string>, shadings: seq<string>, shapes: seq<string>)
    requires numbers != [] && colors != [] && shadings != [] && shapes != []
    ensures Product(numbers, colors, shadings, shapes)[0] == Card(numbers[0], colors[0], shadings[0], shapes[0])
  {
    var line := Line(numbers[0], colors[0], shadings[0], shapes);
    assert line[0] == Card(numbers[0], colors[0], shadings[0], shapes[0]);
    var cell := Cell(numbers[0], colors[0], shadings, shapes);
    assert cell[0] == line[0];
    var row := Row(numbers[0], colors, shadings, shapes);
    assert row[0] == cell[0];
  }

  function Reversed<T>(s: seq<T>): (r: seq<T>)
    ensures |r| == |s| && forall k :: 0 <= k < |s| ==> r[k] == s[|s| - 1 - k]
  {
    if s == [] then [] else Reversed(s[1..]) + [s[0]]
  }

  class Deck {
    /** The cards, the top of the deck last. */
    var cards: seq<Card>

    /** One card per combination, in reverse product order so that the first combination is on top. */
    constructor(numbers: seq<int>, colors: seq<string>, shadings: seq<string>, shapes: seq<string>)
      ensures cards == Reversed(Product(numbers, colors, shadings, shapes))
      ensures |cards| == |numbers| * (|colors| * (|shadings| * |shapes|))
    {
      cards := Reversed(Product(numbers, colors, shadings, shapes));
    }

    function Len(): (n: nat)
      reads this
      ensures n == |cards|
    {
      |cards|
    }

    /** `draw_top`: the top card, removed; AttributeError when the deck is empty. */
    method DrawTop() returns (r: Result<Card>)
      modifies this
      ensures old(cards) == [] ==> r == Err(AttributeError) && cards == old(cards)
      ensures old(cards) != [] ==> r == Ok(old(cards)[|old(cards)| - 1]) && cards == old(cards)[..|old(cards)| - 1]
    {
      if cards == [] {
        return Err(AttributeError);
      }
      r := Ok(cards[|cards| - 1]);
      cards := cards[..|cards| - 1];
    }
  }

  /** The first draw from a new deck is the first combination of attribute values. */
  method FirstDraw(numbers: seq<int>, colors: seq<string>, shadings: seq<string>, shapes: seq<string>) returns (r: Result<Card>)
    requires numbers != [] && colors != [] && shadings != [] && shapes != []
    ensures r == Ok(Card(numbers[0], colors[0], shadings[0], shapes[0]))
  {
    var deck := new Deck(numbers, colors, shadings, shapes);
    ProductFirst(numbers, colors, shadings, shapes);
    r := deck.DrawTop();
  }

  // ---------------------------------------------------------------------------
  // is_group

  /** One attribute's distinct values are acceptable: all the same, or all different. */
  predicate SameOrAllDifferent(distinct: nat, count: nat)
  {
    distinct == 1 || distinct == count
  }

  /** `is_group`: for each of the four attributes, the number of distinct values is 1 or the number of cards. */
  predicate IsGroup(cards: seq<Card>)
    ensures |cards| <= 1 ==> IsGroup(cards)
  {
    SmallAttributes(cards);
    && SameOrAllDifferent(|set c | c in cards :: c.number|, |cards|)
    && SameOrAllDifferent(|set c | c in cards :: c.color|, |cards|)
    && SameOrAllDifferent(|set c | c in cards :: c.shading|, |cards|)
    && SameOrAllDifferent(|set c | c in cards :: c.shape|, |cards|)
  }

  /** Three values are all equal or pairwise different. */
  predicate AllOrNone<T(==)>(x: T, y: T, z: T)
  {
    (x == y && y == z) || (x != y && y != z && x != z)
  }

  /** Three values take one distinct value exactly when all are equal, three when all differ. */
  lemma ThreeValues<T>(x: T, y: T, z: T)
    ensures |{x, y, z}| == 1 <==> x == y && y == z
    ensures |{x, y, z}| == 3 <==> x != y && y != z && x != z
  {
    if x == y && y == z {
      assert {x, y, z} == {x};
    } else if x == y {
      assert {x, y, z} == {x, z};
    } else if y == z {
      assert {x, y, z} == {x, y};
    } else if x == z {
      assert {x, y, z} == {x, y};
    } else {
      assert |{x, y}| == 2;
    }
  }

  /** For three cards, a group is the classic rule: each attribute all the same or all different. */
  lemma IsGroupOfThree(a: Card, b: Card, c: Card)
    ensures IsGroup([a, b, c]) <==>
      AllOrNone(a.number, b.number, c.number) && AllOrNone(a.color, b.color, c.color) &&
      AllOrNone(a.shading, b.shading, c.shading) && AllOrNone(a.shape, b.shape, c.shape)
  {
    var cards := [a, b, c];
    assert (set d | d in cards :: d.number) == {a.number, b.number, c.number};
    assert (set d | d in cards :: d.color) == {a.color, b.color, c.color};
    assert (set d | d in cards :: d.shading) == {a.shading, b.shading, c.shading};
    assert (set d | d in cards :: d.shape) == {a.shape, b.shape, c.shape};
    ThreeValues(a.number, b.number, c.number);
    ThreeValues(a.color, b.color, c.color);
    ThreeValues(a.shading, b.shading, c.shading);
    ThreeValues(a.shape, b.shape, c.shape);
  }

  /** No cards, or one card, show one value of each attribute per card. */
  lemma SmallAttributes(cards: seq<Card>)
    ensures |cards| <= 1 ==>
      && |set d | d in cards :: d.number| == |cards| && |set d | d in cards :: d.color| == |cards|
      && |set d | d in cards :: d.shading| == |cards| && |set d | d in cards :: d.shape| == |cards|
  {
    if |cards| == 1 {
      var c := cards[0];
      assert (set d | d in cards :: d.number) == {c.number};
      assert (set d | d in cards :: d.color) == {c.color};
      assert (set d | d in cards :: d.shading) == {c.shading};
      assert (set d | d in cards :: d.shape) == {c.shape};
    } else if |cards| == 0 {
      assert (set d | d in cards :: d.number) == {};
      assert (set d | d in cards :: d.color) == {};
      assert (set d | d in cards :: d.shading) == {};
      assert (set d | d in cards :: d.shape) == {};
    }
  }
}
