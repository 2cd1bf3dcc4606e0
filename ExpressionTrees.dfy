/**
 * The binary expression trees of hw9/BET.py, used to find the ways of
 * making 24 from a hand of cards: leaves are cards (valued 1 to 13),
 * inner nodes the four operators, read with `Fraction`'s exact
 * arithmetic, division by zero giving 0. Trees are parsed from postfix
 * with a stack, printed fully parenthesised, built over every split of a
 * hand, and filtered for the value 24 over every ordering of the hand.
 */
module ExpressionTrees {
  import opened Util
  import opened Seqs

  /** `_TARGET_VALUE`. */
  const Target := 24

  // ---------------------------------------------------------------------
  // Cards and operators

  /** `CardType`. */
  datatype Card = Ace | Two | Three | Four | Five | Six | Seven | Eight | Nine | Ten | Jack | Queen | King

  /** `CardType.value`. */
  function Value(c: Card): (v: int)
    ensures 1 <= v <= 13
  {
    match c
    case Ace => 1
    case Two => 2
    case Three => 3
    case Four => 4
    case Five => 5
    case Six => 6
    case Seven => 7
    case Eight => 8
    case Nine => 9
    case Ten => 10
    case Jack => 11
    case Queen => 12
    case King => 13
  }

  /** `CardType.__str__`: one character, except the two of `10`, never a parenthesis. */
  function CardName(c: Card): (r: string)
    ensures |r| == 1 || r == "10"
    ensures r[0] != '(' && r[0] != ')'
  {
    match c
    case Ace => "A"
    case Two => "2"
    case Three => "3"
    case Four => "4"
    case Five => "5"
    case Six => "6"
    case Seven => "7"
    case Eight => "8"
    case Nine => "9"
    case Ten => "10"
    case Jack => "J"
    case Queen => "Q"
    case King => "K"
  }

  /**
   * `CardType.from_str`: the inverse of `CardName`; any other string
   * misses the lookup table and raises KeyError.
   */
  function ParseCard(s: string): (r: Result<Card>)
    ensures r.Ok? ==> CardName(r.value) == s
    ensures forall c :: CardName(c) == s ==> r == Ok(c)
    ensures r.Err? ==> r.error == KeyError
  {
    match s
    case "A" => Ok(Ace)
    case "2" => Ok(Two)
    case "3" => Ok(Three)
    case "4" => Ok(Four)
    case "5" => Ok(Five)
    case "6" => Ok(Six)
    case "7" => Ok(Seven)
    case "8" => Ok(Eight)
    case "9" => Ok(Nine)
    case "10" => Ok(Ten)
    case "J" => Ok(Jack)
    case "Q" => Ok(Queen)
    case "K" => Ok(King)
    case _ => Err(KeyError)
  }

  /** `OperatorType`, in its declaration (and iteration) order. */
  datatype Op = Add | Subtract | Multiply | Divide

  const AllOps: seq<Op> := [Add, Subtract, Multiply, Divide]

  /** `OperatorType.__str__`: one character, never a card's name. */
  function OpName(o: Op): (r: string)
    ensures |r| == 1 && forall c :: CardName(c) != r
  {
    match o
    case Add => "+"
    case Subtract => "-"
    case Multiply => "*"
    case Divide => "/"
  }

  /** `OperatorType.from_str`: the inverse of `OpName`; KeyError otherwise. */
  function ParseOp(s: string): (r: Result<Op>)
    ensures r.Ok? ==> OpName(r.value) == s
    ensures forall o :: OpName(o) == s ==> r == Ok(o)
    ensures r.Err? ==> r.error == KeyError
  {
    match s
    case "+" => Ok(Add)
    case "-" => Ok(Subtract)
    case "*" => Ok(Multiply)
    case "/" => Ok(Divide)
    case _ => Err(KeyError)
  }

  // ---------------------------------------------------------------------
  // Trees

  /** `BETLeaf(value)` and `BETOperator(operator, left, right)`. */
  datatype Tree = Leaf(card: Card) | Node(op: Op, left: Tree, right: Tree)

  /** The cards of a tree from left to right. */
  function Leaves(t: Tree): (cs: seq<Card>)
    ensures |cs| >= 1
  {
    match t
    case Leaf(c) => [c]
    case Node(_, l, r) => Leaves(l) + Leaves(r)
  }

  /** The number of operator nodes. */
  function Operators(t: Tree): nat
  {
    match t
    case Leaf(_) => 0
    case Node(_, l, r) => Operators(l) + 1 + Operators(r)
  }

  /**
   * `__eq__` of both node classes: a leaf against an operator node is
   * `NotImplemented` both ways, which Python then settles as unequal.
   */
  function Equal(a: Tree, b: Tree): (e: bool)
    ensures e <==> a == b
  {
    match (a, b)
    case (Leaf(c), Leaf(d)) => c == d
    case (Node(o, l, r), Node(p, m, s)) => o == p && Equal(l, m) && Equal(r, s)
    case _ => false
  }

  /** `__repr__`: fully parenthesised infix, `(left op right)`; only an operator node opens with a parenthesis. */
  function Show(t: Tree): (s: string)
    ensures |s| >= 1 && (s[0] == '(' <==> t.Node?)
  {
    match t
    case Leaf(c) => CardName(c)
    case Node(o, l, r) => "(" + Show(l) + OpName(o) + Show(r) + ")"
  }

  /** How many times `ch` occurs in `s`. */
  function Occurrences(s: string, ch: char): nat
  {
    if |s| == 0 then 0 else (if s[0] == ch then 1 else 0) + Occurrences(s[1..], ch)
  }

  lemma {:induction false} OccurrencesAppend(s: string, t: string, ch: char)
    ensures Occurrences(s + t, ch) == Occurrences(s, ch) + Occurrences(t, ch)
  {
    if |s| > 0 {
      assert (s + t)[1..] == s[1..] + t;
      OccurrencesAppend(s[1..], t, ch);
    } else {
      assert s + t == t;
    }
  }

  lemma {:induction false} NoOccurrences(s: string, ch: char)
    requires forall k :: 0 <= k < |s| ==> s[k] != ch
    ensures Occurrences(s, ch) == 0
  {
    if |s| > 0 {
      NoOccurrences(s[1..], ch);
    }
  }

  lemma ShowNodeOccurrences(o: Op, l: Tree, r: Tree, ch: char)
    requires ch == '(' || ch == ')'
    ensures Occurrences(Show(Node(o, l, r)), ch) == Occurrences(Show(l), ch) + 1 + Occurrences(Show(r), ch)
  {
    var a, b := "(" + Show(l) + OpName(o), Show(r) + ")";
    assert Show(Node(o, l, r)) == a + b;
    OccurrencesAppend(a, b, ch);
    OccurrencesAppend("(" + Show(l), OpName(o), ch);
    OccurrencesAppend("(", Show(l), ch);
    OccurrencesAppend(Show(r), ")", ch);
  }

  /** Every operator node contributes one opening and one closing parenthesis, and nothing else does. */
  lemma {:induction false} ShowParenthesised(t: Tree)
    ensures Occurrences(Show(t), '(') == Operators(t)
    ensures Occurrences(Show(t), ')') == Operators(t)
  {
    match t
    case Leaf(c) =>
      assert forall k :: 0 <= k < |CardName(c)| ==> CardName(c)[k] != '(' && CardName(c)[k] != ')';
      NoOccurrences(CardName(c), '(');
      NoOccurrences(CardName(c), ')');
    case Node(o, l, r) =>
      ShowParenthesised(l);
      ShowParenthesised(r);
      ShowNodeOccurrences(o, l, r, '(');
      ShowNodeOccurrences(o, l, r, ')');
  }

  // ---------------------------------------------------------------------
  // Exact evaluation

  /** A `Fraction` (or a Python int, with denominator 1), kept with a positive denominator. */
  datatype Fraction = Fraction(num: int, den: int)

  type Rational = q: Fraction | q.den > 0 witness Fraction(0, 1)

  /** The number a rational stands for. */
  ghost function RealOf(q: Rational): real
  {
    q.num as real / q.den as real
  }

  lemma PositiveProduct(a: int, b: int)
    requires a > 0 && b > 0
    ensures a * b > 0
  {
  }

  function Plus(a: Rational, b: Rational): (q: Rational)
  {
    PositiveProduct(a.den, b.den);
    Fraction(a.num * b.den + b.num * a.den, a.den * b.den)
  }

  function Minus(a: Rational, b: Rational): (q: Rational)
  {
    PositiveProduct(a.den, b.den);
    Fraction(a.num * b.den - b.num * a.den, a.den * b.den)
  }

  function Times(a: Rational, b: Rational): (q: Rational)
  {
    PositiveProduct(a.den, b.den);
    Fraction(a.num * b.num, a.den * b.den)
  }

  /** `Fraction(a, b)`, and `Fraction(0)` when `b == 0`. */
  function Over(a: Rational, b: Rational): (q: Rational)
  {
    if b.num == 0 then Fraction(0, 1)
    else if b.num > 0 then
      PositiveProduct(a.den, b.num);
      Fraction(a.num * b.den, a.den * b.num)
    else
      PositiveProduct(a.den, -b.num);
      Fraction(-a.num * b.den, a.den * -b.num)
  }

  /** The exact result of one operator. */
  function Apply(o: Op, x: Rational, y: Rational): Rational
  {
    match o
    case Add => Plus(x, y)
    case Subtract => Minus(x, y)
    case Multiply => Times(x, y)
    case Divide => Over(x, y)
  }

  /** `BETLeaf.evaluate` and `BETOperator.evaluate`. */
  function Evaluate(t: Tree): Rational
  {
    match t
    case Leaf(c) => Fraction(Value(c), 1)
    case Node(o, l, r) => Apply(o, Evaluate(l), Evaluate(r))
  }

  /** One operator in ordinary arithmetic, dividing by zero giving zero. */
  ghost function ApplyReal(o: Op, x: real, y: real): real
  {
    match o
    case Add => x + y
    case Subtract => x - y
    case Multiply => x * y
    case Divide => if y == 0.0 then 0.0 else x / y
  }

  /** What an expression means in ordinary arithmetic. */
  ghost function Meaning(t: Tree): real
  {
    match t
    case Leaf(c) => Value(c) as real
    case Node(o, l, r) => ApplyReal(o, Meaning(l), Meaning(r))
  }

  lemma PlusMeaning(a: Rational, b: Rational)
    ensures RealOf(Plus(a, b)) == RealOf(a) + RealOf(b)
  {
    var x, p, y, q := a.num as real, a.den as real, b.num as real, b.den as real;
    assert RealOf(a) * p == x && RealOf(b) * q == y;
    assert RealOf(Plus(a, b)) * (p * q) == x * q + y * p;
    assert (RealOf(a) + RealOf(b)) * (p * q) == x * q + y * p;
  }

  lemma MinusMeaning(a: Rational, b: Rational)
    ensures RealOf(Minus(a, b)) == RealOf(a) - RealOf(b)
  {
    var x, p, y, q := a.num as real, a.den as real, b.num as real, b.den as real;
    assert RealOf(a) * p == x && RealOf(b) * q == y;
    assert RealOf(Minus(a, b)) * (p * q) == x * q - y * p;
    assert (RealOf(a) - RealOf(b)) * (p * q) == x * q - y * p;
  }

  lemma TimesMeaning(a: Rational, b: Rational)
    ensures RealOf(Times(a, b)) == RealOf(a) * RealOf(b)
  {
    var x, p, y, q := a.num as real, a.den as real, b.num as real, b.den as real;
    assert RealOf(a) * p == x && RealOf(b) * q == y;
    assert RealOf(Times(a, b)) * (p * q) == x * y;
    assert (RealOf(a) * RealOf(b)) * (p * q) == x * y;
  }

  lemma OverMeaning(a: Rational, b: Rational)
    ensures RealOf(b) == 0.0 ==> RealOf(Over(a, b)) == 0.0
    ensures RealOf(b) != 0.0 ==> RealOf(Over(a, b)) == RealOf(a) / RealOf(b)
  {
    var x, p, y, q := a.num as real, a.den as real, b.num as real, b.den as real;
    assert RealOf(a) * p == x && RealOf(b) * q == y;
    if b.num != 0 {
      var v := RealOf(Over(a, b));
      assert v * (p * y) == x * q;
      assert v * RealOf(b) == RealOf(a);
    }
  }

  /** Each operator's exact result is its ordinary value. */
  lemma ApplyMeaning(o: Op, x: Rational, y: Rational)
    ensures RealOf(Apply(o, x, y)) == ApplyReal(o, RealOf(x), RealOf(y))
  {
    match o
    case Add => PlusMeaning(x, y);
    case Subtract => MinusMeaning(x, y);
    case Multiply => TimesMeaning(x, y);
    case Divide => OverMeaning(x, y);
  }

  /** `tree.evaluate() == _TARGET_VALUE`, comparing a fraction with an integer by value. */
  predicate IsSolution(t: Tree)
  {
    var q := Evaluate(t);
    q.num == Target * q.den
  }

  lemma TargetValue(q: Rational)
    ensures q.num == Target * q.den <==> RealOf(q) == Target as real
  {
    var n, d := q.num as real, q.den as real;
    assert RealOf(q) * d == n;
    if RealOf(q) == Target as real {
      assert n == Target as real * d;
    }
  }

  /** The exact arithmetic gives every expression its ordinary value. */
  lemma {:induction false} EvaluateMeaning(t: Tree)
    ensures RealOf(Evaluate(t)) == Meaning(t)
  {
    match t
    case Leaf(c) =>
    case Node(o, l, r) =>
      EvaluateMeaning(l);
      EvaluateMeaning(r);
      ApplyMeaning(o, Evaluate(l), Evaluate(r));
  }

  lemma IsSolutionMeaning(t: Tree)
    ensures IsSolution(t) <==> Meaning(t) == Target as real
  {
    EvaluateMeaning(t);
    TargetValue(Evaluate(t));
  }

  // ---------------------------------------------------------------------
  // Postfix

  /** The whitespace `str.split()` separates on. */
  predicate IsSpace(ch: char)
  {
    ch == ' ' || '\t' <= ch <= '\r' || '\U{1c}' <= ch <= '\U{1f}'
    || ch == '\U{85}' || ch == '\U{a0}' || ch == '\U{1680}' || '\U{2000}' <= ch <= '\U{200a}'
    || ch == '\U{2028}' || ch == '\U{2029}' || ch == '\U{202f}' || ch == '\U{205f}' || ch == '\U{3000}'
  }

  /** A non-empty run of non-whitespace characters. */
  predicate IsWord(w: string)
  {
    |w| > 0 && forall k :: 0 <= k < |w| ==> !IsSpace(w[k])
  }

  /** The length of the leading run of non-whitespace characters. */
  function WordLength(s: string): (n: nat)
    ensures n <= |s| && forall k :: 0 <= k < n ==> !IsSpace(s[k])
    ensures n < |s| ==> IsSpace(s[n])
  {
    if |s| == 0 || IsSpace(s[0]) then 0 else 1 + WordLength(s[1..])
  }

  /** `str.split()` with no separator: the maximal runs of non-whitespace. */
  function Words(s: string): (ws: seq<string>)
    ensures forall k :: 0 <= k < |ws| ==> IsWord(ws[k])
    decreases |s|
  {
    if |s| == 0 then []
    else if IsSpace(s[0]) then Words(s[1..])
    else
      var n := WordLength(s);
      [s[..n]] + Words(s[n..])
  }

  /** `' '.join(ws)`. */
  function Unwords(ws: seq<string>): string
  {
    if |ws| == 0 then ""
    else if |ws| == 1 then ws[0]
    else ws[0] + " " + Unwords(ws[1..])
  }

  lemma {:induction false} WordLengthOfWord(w: string, rest: string)
    requires IsWord(w)
    requires |rest| == 0 || IsSpace(rest[0])
    ensures WordLength(w + rest) == |w|
    decreases |w|
  {
    if |w| > 1 {
      assert (w + rest)[1..] == w[1..] + rest;
      WordLengthOfWord(w[1..], rest);
    } else {
      assert (w + rest)[1..] == rest;
    }
  }

  /** Splitting words joined by single spaces gives the words back. */
  lemma {:induction false} WordsUnwords(ws: seq<string>)
    requires forall k :: 0 <= k < |ws| ==> IsWord(ws[k])
    ensures Words(Unwords(ws)) == ws
  {
    if |ws| == 1 {
      var w := ws[0];
      WordLengthOfWord(w, "");
      assert w + "" == w && w[..|w|] == w && w[|w|..] == "";
    } else if |ws| > 1 {
      var w, rest := ws[0], Unwords(ws[1..]);
      var s := w + " " + rest;
      WordLengthOfWord(w, " " + rest);
      assert s == w + (" " + rest);
      assert s[..|w|] == w && s[|w|..] == " " + rest && (" " + rest)[1..] == rest;
      WordsUnwords(ws[1..]);
    }
  }

  /**
   * One token of `from_postfix`: the trees below the new top are kept, an
   * operator taking two trees off and a card adding one.
   */
  function Push(stack: seq<Tree>, token: string): (r: Result<seq<Tree>>)
    ensures r.Ok? ==> |r.value| == |stack| + 1 || (|stack| >= 2 && |r.value| == |stack| - 1)
    ensures r.Ok? ==> 1 <= |r.value| <= |stack| + 1 && r.value[..|r.value| - 1] == stack[..|r.value| - 1]
    ensures r.Err? ==> r.error == KeyError || (r.error == ValueError && |stack| <= 1)
  {
    // An operator token is exactly one that `OperatorType.from_str` accepts.
    match ParseOp(token)
    case Ok(o) =>
      if |stack| <= 1 then Err(ValueError)
      else Ok(stack[..|stack| - 2] + [Node(o, stack[|stack| - 2], stack[|stack| - 1])])
    case Err(_) =>
      match ParseCard(token)
      case Ok(c) => Ok(stack + [Leaf(c)])
      case Err(e) => Err(e)
  }

  /**
   * The tokens pushed in turn, stopping at the first error, which is a
   * KeyError (an unknown card) or a ValueError (a missing operand).
   */
  function Run(stack: seq<Tree>, tokens: seq<string>): (r: Result<seq<Tree>>)
    ensures r.Err? ==> r.error == KeyError || r.error == ValueError
    decreases |tokens|
  {
    if |tokens| == 0 then Ok(stack)
    else
      match Push(stack, tokens[0])
      case Err(e) => Err(e)
      case Ok(s) => Run(s, tokens[1..])
  }

  /** The final check: the result is the one tree left, and ValueError when not exactly one is. */
  function Finish(r: Result<seq<Tree>>): (t: Result<Tree>)
    ensures t.Ok? <==> r.Ok? && |r.value| == 1
    ensures t.Ok? ==> r.value == [t.value]
    ensures t.Err? && r.Ok? ==> t.error == ValueError
  {
    match r
    case Err(e) => Err(e)
    case Ok(s) => if |s| == 1 then Ok(s[0]) else Err(ValueError)
  }

  /** The postfix tokens of a tree, the form `from_postfix` reads. */
  function Postfix(t: Tree): (ts: seq<string>)
    ensures forall k :: 0 <= k < |ts| ==> IsWord(ts[k])
  {
    match t
    case Leaf(c) => [CardName(c)]
    case Node(o, l, r) => Postfix(l) + Postfix(r) + [OpName(o)]
  }

  /** The postfix tokens of a stack's trees, bottom first. */
  function Flatten(s: seq<Tree>): seq<string>
  {
    if |s| == 0 then [] else Flatten(s[..|s| - 1]) + Postfix(s[|s| - 1])
  }

  /** Reading a tree's postfix form leaves that tree on top of the stack. */
  lemma {:induction false} RunPostfix(t: Tree, stack: seq<Tree>, rest: seq<string>)
    ensures Run(stack, Postfix(t) + rest) == Run(stack + [t], rest)
  {
    match t
    case Leaf(c) =>
      var name := CardName(c);
      assert ParseOp(name).Err? by {
        match c
        case Ace =>
        case Two =>
        case Three =>
        case Four =>
        case Five =>
        case Six =>
        case Seven =>
        case Eight =>
        case Nine =>
        case Ten =>
        case Jack =>
        case Queen =>
        case King =>
      }
      assert ([name] + rest)[0] == name && ([name] + rest)[1..] == rest;
    case Node(o, l, r) =>
      var tail := [OpName(o)] + rest;
      assert Postfix(t) + rest == Postfix(l) + (Postfix(r) + tail);
      RunPostfix(l, stack, Postfix(r) + tail);
      RunPostfix(r, stack + [l], tail);
      var s := stack + [l] + [r];
      assert s[..|s| - 2] == stack && s[|s| - 2] == l && s[|s| - 1] == r;
      assert tail[0] == OpName(o) && tail[1..] == rest;
  }

  /** Combining the two topmost trees under an operator appends that operator's token. */
  lemma FlattenTopTwo(pre: seq<Tree>, a: Tree, b: Tree, o: Op)
    ensures Flatten(pre + [Node(o, a, b)]) == Flatten(pre + [a, b]) + [OpName(o)]
  {
    var s, t := pre + [Node(o, a, b)], pre + [a, b];
    assert s[..|s| - 1] == pre;
    assert t[..|t| - 1] == pre + [a] && (pre + [a])[..|pre|] == pre;
  }

  /** One accepted token extends the stack's postfix tokens by that token. */
  lemma PushFlattens(stack: seq<Tree>, token: string)
    requires Push(stack, token).Ok?
    ensures Flatten(Push(stack, token).value) == Flatten(stack) + [token]
  {
    match ParseOp(token)
    case Ok(o) =>
      var n := |stack|;
      FlattenTopTwo(stack[..n - 2], stack[n - 2], stack[n - 1], o);
      assert stack == stack[..n - 2] + [stack[n - 2], stack[n - 1]];
    case Err(_) =>
      var s := stack + [Leaf(ParseCard(token).value)];
      assert s[..|s| - 1] == stack;
  }

  /** Whatever a run accepts ends up, in order, as the postfix tokens of the stack. */
  lemma {:induction false} RunFlattens(stack: seq<Tree>, tokens: seq<string>)
    requires Run(stack, tokens).Ok?
    ensures Flatten(Run(stack, tokens).value) == Flatten(stack) + tokens
    decreases |tokens|
  {
    if |tokens| > 0 {
      var s := Push(stack, tokens[0]).value;
      PushFlattens(stack, tokens[0]);
      RunFlattens(s, tokens[1..]);
      assert tokens == [tokens[0]] + tokens[1..];
    }
  }

  /** `from_postfix` accepts exactly the postfix forms of trees, and gives back that tree. */
  lemma ParsePostfix(tokens: seq<string>)
    ensures Finish(Run([], tokens)).Ok? ==> Postfix(Finish(Run([], tokens)).value) == tokens
    ensures forall t :: Postfix(t) == tokens ==> Finish(Run([], tokens)) == Ok(t)
  {
    if Finish(Run([], tokens)).Ok? {
      RunFlattens([], tokens);
      var s := Run([], tokens).value;
      assert |s| == 1;
      assert s[..0] == [];
      assert Flatten(s) == Flatten([]) + Postfix(s[0]);
      assert Flatten(s) == tokens;
      assert Finish(Run([], tokens)).value == s[0];
    }
    forall t | Postfix(t) == tokens
      ensures Finish(Run([], tokens)) == Ok(t)
    {
      RunPostfix(t, [], []);
      assert Postfix(t) + [] == Postfix(t);
    }
  }

  /**
   * `from_postfix`: the tokens are pushed on a stack, an operator taking
   * the two topmost trees as its right and left operand.
   */
  method FromPostfix(expression: string) returns (r: Result<Tree>)
    ensures r == Finish(Run([], Words(expression)))
    ensures r.Ok? ==> Postfix(r.value) == Words(expression)
    ensures forall t :: Postfix(t) == Words(expression) ==> r == Ok(t)
    ensures r.Err? ==> r.error == KeyError || r.error == ValueError
  {
    var tokens := Words(expression);
    ParsePostfix(tokens);
    var stack: seq<Tree> := [];
    var raised: Option<Error> := None;
    var i := 0;
    while i < |tokens| && raised.None?
      invariant 0 <= i <= |tokens|
      invariant raised.None? ==> Run([], tokens) == Run(stack, tokens[i..])
      invariant raised.Some? ==> Run([], tokens) == Err(raised.value)
      decreases |tokens| - i
    {
      RunStep(stack, tokens[i..]);
      assert tokens[i..][1..] == tokens[i + 1..];
      var next := PushToken(stack, tokens[i]);
      match next {
        case Ok(s) => stack := s;
        case Err(e) => raised := Some(e);
      }
      i := i + 1;
    }
    if raised.Some? {
      r := Err(raised.value);
    } else if |stack| != 1 {
      assert tokens[i..] == [];
      r := Err(ValueError);
    } else {
      assert tokens[i..] == [];
      r := Ok(stack[0]);
    }
  }

  /** One step of a run. */
  lemma RunStep(stack: seq<Tree>, tokens: seq<string>)
    requires |tokens| > 0
    ensures Run(stack, tokens) == match Push(stack, tokens[0])
                                  case Err(e) => Err(e)
                                  case Ok(s) => Run(s, tokens[1..])
  {
  }

  /** The body of `from_postfix`'s loop: pop two operands for an operator, push a leaf for a card. */
  method PushToken(stack: seq<Tree>, token: string) returns (r: Result<seq<Tree>>)
    ensures r == Push(stack, token)
  {
    match ParseOp(token) {
      case Ok(o) =>
        if |stack| <= 1 {
          return Err(ValueError);
        }
        var right := stack[|stack| - 1];
        var left := stack[|stack| - 2];
        r := Ok(stack[..|stack| - 2] + [Node(o, left, right)]);
      case Err(_) =>
        var card := ParseCard(token);
        if card.Err? {
          return Err(KeyError);
        }
        r := Ok(stack + [Leaf(card.value)]);
    }
  }

  lemma UnwordsCons(w: string, ws: seq<string>)
    requires |ws| > 0
    ensures Unwords([w] + ws) == w + " " + Unwords(ws)
  {
    assert ([w] + ws)[1..] == ws;
  }

  /** `' '.join(tokens)` of the docstring's first example. */
  lemma JoinExample()
    ensures Unwords(["A", "2", "3", "4", "+", "-", "*"]) == "A 2 3 4 + - *"
  {
    UnwordsCons("-", ["*"]);
    UnwordsCons("+", ["-", "*"]);
    UnwordsCons("4", ["+", "-", "*"]);
    UnwordsCons("3", ["4", "+", "-", "*"]);
    UnwordsCons("2", ["3", "4", "+", "-", "*"]);
    UnwordsCons("A", ["2", "3", "4", "+", "-", "*"]);
  }

  /** `repr` of the docstring's first example. */
  lemma ShowExample()
    ensures Show(Node(Multiply, Leaf(Ace), Node(Subtract, Leaf(Two), Node(Add, Leaf(Three), Leaf(Four)))))
            == "(A*(2-(3+4)))"
  {
    var sum := Node(Add, Leaf(Three), Leaf(Four));
    assert Show(sum) == "(3+4)";
    var diff := Node(Subtract, Leaf(Two), sum);
    assert Show(diff) == "(" + "2" + "-" + "(3+4)" + ")";
    assert Show(Node(Multiply, Leaf(Ace), diff)) == "(" + "A" + "*" + "(2-(3+4))" + ")";
  }

  /** `'A 2 3 4 + - *'.split()` is the postfix form of the docstring's tree. */
  lemma SplitExample(t: Tree)
    requires t == Node(Multiply, Leaf(Ace), Node(Subtract, Leaf(Two), Node(Add, Leaf(Three), Leaf(Four))))
    ensures Words("A 2 3 4 + - *") == Postfix(t)
  {
    assert Postfix(t) == ["A", "2", "3", "4", "+", "-", "*"];
    JoinExample();
    WordsUnwords(Postfix(t));
  }

  /** The docstring's first example: `'A 2 3 4 + - *'` gives `(A*(2-(3+4)))`. */
  lemma PostfixExample(s: string, t: Tree)
    requires s == "A 2 3 4 + - *"
    requires t == Node(Multiply, Leaf(Ace), Node(Subtract, Leaf(Two), Node(Add, Leaf(Three), Leaf(Four))))
    ensures Finish(Run([], Words(s))) == Ok(t)
  {
    SplitExample(t);
    ParsePostfix(Postfix(t));
  }

  /** Joining one more word adds a space and the word. */
  lemma {:induction false} UnwordsSnoc(ws: seq<string>, w: string)
    requires |ws| > 0
    ensures Unwords(ws + [w]) == Unwords(ws) + " " + w
    decreases |ws|
  {
    if |ws| == 1 {
      assert ws + [w] == [ws[0]] + [w];
      UnwordsCons(ws[0], [w]);
    } else {
      assert ws + [w] == [ws[0]] + (ws[1..] + [w]);
      UnwordsCons(ws[0], ws[1..] + [w]);
      UnwordsSnoc(ws[1..], w);
      UnwordsCons(ws[0], ws[1..]);
      assert [ws[0]] + ws[1..] == ws;
    }
  }

  /** The docstring's second example, `'Q J *'`. */
  lemma PostfixExampleQJ(s: string, t: Tree)
    requires s == "Q J *" && t == Node(Multiply, Leaf(Queen), Leaf(Jack))
    ensures Finish(Run([], Words(s))) == Ok(t)
  {
    SplitQJ(t);
    ParsePostfix(Postfix(t));
  }

  lemma SplitQJ(t: Tree)
    requires t == Node(Multiply, Leaf(Queen), Leaf(Jack))
    ensures Words("Q J *") == Postfix(t)
  {
    UnwordsCons("J", ["*"]);
    UnwordsCons("Q", ["J", "*"]);
    assert Unwords(["Q", "J", "*"]) == "Q J *";
    WordsUnwords(["Q", "J", "*"]);
  }

  /** Two complete expressions side by side leave two trees: a ValueError. */
  lemma TwoTreesLeft(a: Tree, b: Tree)
    ensures Finish(Run([], Postfix(a) + Postfix(b))) == Err(ValueError)
  {
    var pb := Postfix(b);
    var empty: seq<string> := [];
    assert pb + empty == pb;
    RunPostfix(a, [], pb);
    assert [] + [a] == [a];
    RunPostfix(b, [a], empty);
    var both := [a] + [b];
    assert Run(both, empty) == Ok(both);
    assert |both| == 2;
  }

  /** An operator after a complete expression finds one tree: a ValueError. */
  lemma MissingOperand(t: Tree, o: Op)
    ensures Finish(Run([], Postfix(t) + [OpName(o)])) == Err(ValueError)
  {
    RunPostfix(t, [], [OpName(o)]);
    assert [] + [t] == [t];
    assert [OpName(o)][0] == OpName(o) && [OpName(o)][1..] == [];
    assert Push([t], OpName(o)) == Err(ValueError);
  }

  lemma JoinTwoTrees()
    ensures Unwords(["A", "2", "3", "4", "+", "-"]) == "A 2 3 4 + -"
  {
    UnwordsCons("+", ["-"]);
    UnwordsCons("4", ["+", "-"]);
    UnwordsCons("3", ["4", "+", "-"]);
    UnwordsCons("2", ["3", "4", "+", "-"]);
    UnwordsCons("A", ["2", "3", "4", "+", "-"]);
  }

  /** `'A 2 3 4 + -'.split()`: a card, then a complete expression. */
  lemma SplitTwoTrees(a: Tree, b: Tree)
    requires a == Leaf(Ace) && b == Node(Subtract, Leaf(Two), Node(Add, Leaf(Three), Leaf(Four)))
    ensures Words("A 2 3 4 + -") == Postfix(a) + Postfix(b)
  {
    assert Postfix(a) + Postfix(b) == ["A", "2", "3", "4", "+", "-"];
    JoinTwoTrees();
    WordsUnwords(Postfix(a) + Postfix(b));
  }

  lemma JoinMissingOperand()
    ensures Unwords(["A", "2", "3", "4", "+", "-", "*", "*"]) == "A 2 3 4 + - * *"
  {
    var ts := ["A", "2", "3", "4", "+", "-", "*"];
    JoinExample();
    UnwordsSnoc(ts, "*");
    assert ts + ["*"] == ["A", "2", "3", "4", "+", "-", "*", "*"];
  }

  /** `'A 2 3 4 + - * *'.split()`: a complete expression, then one more operator. */
  lemma SplitMissingOperand(t: Tree)
    requires t == Node(Multiply, Leaf(Ace), Node(Subtract, Leaf(Two), Node(Add, Leaf(Three), Leaf(Four))))
    ensures Words("A 2 3 4 + - * *") == Postfix(t) + [OpName(Multiply)]
  {
    assert Postfix(t) == ["A", "2", "3", "4", "+", "-", "*"];
    assert Postfix(t) + [OpName(Multiply)] == ["A", "2", "3", "4", "+", "-", "*", "*"];
    JoinMissingOperand();
    WordsUnwords(Postfix(t) + [OpName(Multiply)]);
  }

  /** `'A 2'.split()`: two cards. */
  lemma SplitNoOperator(a: Tree, b: Tree)
    requires a == Leaf(Ace) && b == Leaf(Two)
    ensures Words("A 2") == Postfix(a) + Postfix(b)
  {
    assert Postfix(a) + Postfix(b) == ["A", "2"];
    UnwordsCons("A", ["2"]);
    assert Unwords(["A", "2"]) == "A 2";
    WordsUnwords(Postfix(a) + Postfix(b));
  }

  /** The unit tests' rejected inputs. */
  lemma InvalidPostfix(s1: string, s2: string, s3: string)
    requires s1 == "A 2 3 4 + -" && s2 == "A 2 3 4 + - * *" && s3 == "A 2"
    ensures Finish(Run([], Words(s1))) == Err(ValueError)
    ensures Finish(Run([], Words(s2))) == Err(ValueError)
    ensures Finish(Run([], Words(s3))) == Err(ValueError)
  {
    var three := Node(Subtract, Leaf(Two), Node(Add, Leaf(Three), Leaf(Four)));
    SplitTwoTrees(Leaf(Ace), three);
    TwoTreesLeft(Leaf(Ace), three);
    var t := Node(Multiply, Leaf(Ace), three);
    SplitMissingOperand(t);
    MissingOperand(t, Multiply);
    SplitNoOperator(Leaf(Ace), Leaf(Two));
    TwoTreesLeft(Leaf(Ace), Leaf(Two));
  }

  // ---------------------------------------------------------------------
  // All trees over a hand

  /** `Node(o, l, r)` for every `r`, in order. */
  function Row(o: Op, l: Tree, rights: seq<Tree>): (ts: seq<Tree>)
    ensures |ts| == |rights|
  {
    seq(|rights|, k requires 0 <= k < |rights| => Node(o, l, rights[k]))
  }

  /** The two inner loops of `create_trees`: each left tree with each right tree. */
  function Pairs(o: Op, lefts: seq<Tree>, rights: seq<Tree>): (ts: seq<Tree>)
    ensures |ts| == |lefts| * |rights|
  {
    if |lefts| == 0 then []
    else Row(o, lefts[0], rights) + Pairs(o, lefts[1..], rights)
  }

  /** The loop over `OperatorType`, around `Pairs`. */
  function ForOps(ops: seq<Op>, lefts: seq<Tree>, rights: seq<Tree>): (ts: seq<Tree>)
    ensures |ts| == |ops| * (|lefts| * |rights|)
  {
    if |ops| == 0 then []
    else Pairs(ops[0], lefts, rights) + ForOps(ops[1..], lefts, rights)
  }

  /** `create_trees(cards)`: how many trees it yields depends only on the number of cards. */
  function Trees(cards: seq<Card>): (ts: seq<Tree>)
    ensures |ts| == Count(|cards|)
    decreases |cards|, 1
  {
    if |cards| == 0 then []
    else if |cards| == 1 then [Leaf(cards[0])]
    else SplitsFrom(cards, 0)
  }

  /** The splits `i`, `i + 1`, ... of the outer loop of `create_trees`. */
  function SplitsFrom(cards: seq<Card>, i: nat): (ts: seq<Tree>)
    requires i <= |cards|
    ensures 1 <= i ==> |ts| == CountFrom(|cards|, i)
    decreases |cards|, 0, |cards| - i
  {
    if i == |cards| then []
    // `cards[:0]` has no trees, so the inner loops never build the right-hand trees.
    else if i == 0 then SplitsFrom(cards, 1)
    else ForOps(AllOps, Trees(cards[..i]), Trees(cards[i..])) + SplitsFrom(cards, i + 1)
  }

  lemma {:induction false} InRow(o: Op, l: Tree, rights: seq<Tree>, t: Tree)
    ensures t in Row(o, l, rights) <==> t.Node? && t.op == o && t.left == l && t.right in rights
  {
    if t.Node? && t.op == o && t.left == l && t.right in rights {
      var k :| 0 <= k < |rights| && rights[k] == t.right;
      assert Row(o, l, rights)[k] == t;
    }
  }

  lemma {:induction false} InPairs(o: Op, lefts: seq<Tree>, rights: seq<Tree>, t: Tree)
    ensures t in Pairs(o, lefts, rights) <==> t.Node? && t.op == o && t.left in lefts && t.right in rights
  {
    if |lefts| > 0 {
      InRow(o, lefts[0], rights, t);
      InPairs(o, lefts[1..], rights, t);
      assert lefts == [lefts[0]] + lefts[1..];
    }
  }

  lemma {:induction false} InForOps(ops: seq<Op>, lefts: seq<Tree>, rights: seq<Tree>, t: Tree)
    ensures t in ForOps(ops, lefts, rights) <==> t.Node? && t.op in ops && t.left in lefts && t.right in rights
  {
    if |ops| > 0 {
      InPairs(ops[0], lefts, rights, t);
      InForOps(ops[1..], lefts, rights, t);
      assert ops == [ops[0]] + ops[1..];
    }
  }

  /** `create_trees(cards)` yields exactly the trees whose cards, read left to right, are `cards`. */
  lemma {:induction false} TreesExactly(cards: seq<Card>, t: Tree)
    ensures t in Trees(cards) <==> Leaves(t) == cards
    decreases |cards|, 1
  {
    if |cards| == 1 {
      if t.Node? {
        assert |Leaves(t)| == |Leaves(t.left)| + |Leaves(t.right)| >= 2;
      }
    } else if |cards| >= 2 {
      SplitsExactly(cards, 1, t);
    }
  }

  lemma {:induction false} SplitsExactly(cards: seq<Card>, i: nat, t: Tree)
    requires 1 <= i <= |cards|
    ensures t in SplitsFrom(cards, i) <==> t.Node? && i <= |Leaves(t.left)| && Leaves(t) == cards
    decreases |cards|, 0, |cards| - i, 1
  {
    if i < |cards| {
      var here := ForOps(AllOps, Trees(cards[..i]), Trees(cards[i..]));
      var later := SplitsFrom(cards, i + 1);
      assert SplitsFrom(cards, i) == here + later;
      assert t in here + later <==> t in here || t in later;
      SplitsExactly(cards, i + 1, t);
      SplitHere(cards, i, t);
    } else if t.Node? {
      assert |Leaves(t)| == |Leaves(t.left)| + |Leaves(t.right)| > |Leaves(t.left)|;
    }
  }

  /** The trees of one split are those whose left operand holds the first `i` cards. */
  lemma {:induction false} SplitHere(cards: seq<Card>, i: nat, t: Tree)
    requires 1 <= i < |cards|
    ensures t in ForOps(AllOps, Trees(cards[..i]), Trees(cards[i..]))
            <==> t.Node? && |Leaves(t.left)| == i && Leaves(t) == cards
    decreases |cards|, 0, |cards| - i, 0
  {
    InForOps(AllOps, Trees(cards[..i]), Trees(cards[i..]), t);
    if t.Node? {
      EveryOp(t.op);
      TreesExactly(cards[..i], t.left);
      TreesExactly(cards[i..], t.right);
      SplitAt(cards, i, t.left, t.right);
    }
  }

  lemma EveryOp(o: Op)
    ensures o in AllOps
  {
    match o
    case Add =>
    case Subtract =>
    case Multiply =>
    case Divide =>
  }

  /** Cutting `cards` at `i` is the same as taking a left part of `i` cards. */
  lemma SplitAt(cards: seq<Card>, i: nat, l: Tree, r: Tree)
    requires 1 <= i < |cards|
    ensures (Leaves(l) == cards[..i] && Leaves(r) == cards[i..]) <==> (|Leaves(l)| == i && Leaves(l) + Leaves(r) == cards)
  {
    if |Leaves(l)| == i && Leaves(l) + Leaves(r) == cards {
      assert Leaves(l) == cards[..i] && Leaves(r) == cards[i..];
    }
    if Leaves(l) == cards[..i] && Leaves(r) == cards[i..] {
      assert cards == cards[..i] + cards[i..];
    }
  }

  /** The number of trees over `n` cards in order: four operators at each split. */
  function Count(n: nat): nat
    decreases n, 1
  {
    if n <= 1 then n else CountFrom(n, 1)
  }

  function CountFrom(n: nat, i: nat): nat
    requires 1 <= i <= n
    decreases n, 0, n - i
  {
    if i == n then 0 else 4 * (Count(i) * Count(n - i)) + CountFrom(n, i + 1)
  }

  /** The docstring and unit test counts: none for no cards, one leaf for one card, 4 for two cards, 320 for four. */
  lemma TreesCounts(cards: seq<Card>)
    ensures |cards| == 0 ==> Trees(cards) == []
    ensures |cards| == 1 ==> Trees(cards) == [Leaf(cards[0])]
    ensures |cards| == 2 ==> |Trees(cards)| == 4
    ensures |cards| == 4 ==> |Trees(cards)| == 320
  {
    assert Count(2) == 4;
    assert Count(3) == 32;
    assert Count(4) == 320;
  }

  /** The docstring's `create_trees(['A', '2'])`: `[(A+2), (A-2), (A*2), (A/2)]`. */
  lemma TreesOfTwo(a: Card, b: Card)
    ensures Trees([a, b]) == [Node(Add, Leaf(a), Leaf(b)), Node(Subtract, Leaf(a), Leaf(b)),
                              Node(Multiply, Leaf(a), Leaf(b)), Node(Divide, Leaf(a), Leaf(b))]
  {
    var cards := [a, b];
    assert cards[..1] == [a] && cards[1..] == [b];
    var ls, rs := [Leaf(a)], [Leaf(b)];
    assert Trees(cards) == SplitsFrom(cards, 0) == SplitsFrom(cards, 1);
    assert Trees(cards[..1]) == ls && Trees(cards[1..]) == rs;
    assert SplitsFrom(cards, 1) == ForOps(AllOps, ls, rs) + SplitsFrom(cards, 2);
    ForOpsSingle(AllOps, Leaf(a), Leaf(b));
  }

  /** With one tree on each side, one node per operator. */
  lemma {:induction false} ForOpsSingle(ops: seq<Op>, l: Tree, r: Tree)
    ensures ForOps(ops, [l], [r]) == seq(|ops|, k requires 0 <= k < |ops| => Node(ops[k], l, r))
  {
    if |ops| > 0 {
      ForOpsSingle(ops[1..], l, r);
      assert Row(ops[0], l, [r]) == [Node(ops[0], l, r)];
      assert [l][1..] == [];
    }
  }

  // ---------------------------------------------------------------------
  // Solutions

  /** `s` without its `i`th element. */
  function RemoveAt(s: seq<Card>, i: nat): (r: seq<Card>)
    requires i < |s|
    ensures |r| == |s| - 1
    ensures multiset(r) == multiset(s) - multiset{s[i]}
  {
    assert s == s[..i] + [s[i]] + s[i + 1..];
    s[..i] + s[i + 1..]
  }

  /** `x` in front of each sequence. */
  function Prepend(x: Card, ps: seq<seq<Card>>): (r: seq<seq<Card>>)
    ensures |r| == |ps|
  {
    seq(|ps|, k requires 0 <= k < |ps| => [x] + ps[k])
  }

  /**
   * `itertools.permutations(s)`: each position in turn supplies the first
   * element, followed by the orderings of the others, which is the order
   * of the positions' lexicographic ranking.
   */
  function Permutations(s: seq<Card>): (ps: seq<seq<Card>>)
    ensures |ps| == Factorial(|s|)
    decreases |s|, 1
  {
    if |s| == 0 then [[]] else PermutationsFrom(s, 0)
  }

  /** The orderings whose first element comes from position `i` or later: `|s| - i` groups of `(|s| - 1)!`. */
  function PermutationsFrom(s: seq<Card>, i: nat): (ps: seq<seq<Card>>)
    requires i <= |s|
    ensures |s| > 0 ==> |ps| == (|s| - i) * Factorial(|s| - 1)
    decreases |s|, 0, |s| - i
  {
    if i == |s| then []
    else
      var rest := PermutationsFrom(s, i + 1);
      CountStep(|s| - i, Factorial(|s| - 1));
      Prepend(s[i], Permutations(RemoveAt(s, i))) + rest
  }

  /** One more group of `f` orderings. */
  lemma CountStep(m: nat, f: nat)
    requires m >= 1
    ensures m * f == f + (m - 1) * f
  {
  }

  /** `n!`, the number of orderings of `n` distinct positions. */
  function Factorial(n: nat): nat
  {
    if n == 0 then 1 else n * Factorial(n - 1)
  }

  /** The orderings are exactly the rearrangements of `s`. */
  lemma {:induction false} PermutationsExactly(s: seq<Card>, p: seq<Card>)
    ensures p in Permutations(s) <==> multiset(p) == multiset(s)
    decreases |s|, 1
  {
    if |s| == 0 {
      if multiset(p) == multiset(s) {
        assert |p| == |multiset(p)| == 0;
      }
    } else {
      PermutationsFromExactly(s, 0, p);
      if multiset(p) == multiset(s) {
        assert |p| == |multiset(p)| > 0;
        assert p[0] in multiset(s);
        assert s[0..] == s;
      }
    }
  }

  lemma {:induction false} PermutationsFromExactly(s: seq<Card>, j: nat, p: seq<Card>)
    requires j <= |s|
    ensures p in PermutationsFrom(s, j) <==> |p| > 0 && multiset(p) == multiset(s) && p[0] in s[j..]
    decreases |s|, 0, |s| - j, 1
  {
    if j < |s| {
      assert s[j..] == [s[j]] + s[j + 1..];
      var here, later := Prepend(s[j], Permutations(RemoveAt(s, j))), PermutationsFrom(s, j + 1);
      assert p in PermutationsFrom(s, j) <==> p in here || p in later;
      PermutationsFromExactly(s, j + 1, p);
      PrependedAt(s, j, p);
    }
  }

  /** The orderings that start with the `j`th element. */
  lemma {:induction false} PrependedAt(s: seq<Card>, j: nat, p: seq<Card>)
    requires j < |s|
    ensures p in Prepend(s[j], Permutations(RemoveAt(s, j)))
            <==> |p| > 0 && p[0] == s[j] && multiset(p) == multiset(s)
    decreases |s|, 0, |s| - j, 0
  {
    var ps := Permutations(RemoveAt(s, j));
    if |p| > 0 {
      PermutationsExactly(RemoveAt(s, j), p[1..]);
      assert p == [p[0]] + p[1..];
      assert multiset(p) == multiset{p[0]} + multiset(p[1..]);
      PrependedIn(s[j], ps, p);
    } else {
      PrependedIn(s[j], ps, p);
    }
  }

  /** Membership in `Prepend(x, ps)`. */
  lemma PrependedIn(x: Card, ps: seq<seq<Card>>, p: seq<Card>)
    ensures p in Prepend(x, ps) <==> |p| > 0 && p[0] == x && p[1..] in ps
  {
    var r := Prepend(x, ps);
    if p in r {
      var k :| 0 <= k < |r| && r[k] == p;
      assert p[1..] == ps[k];
    }
    if |p| > 0 && p[0] == x && p[1..] in ps {
      var k :| 0 <= k < |ps| && ps[k] == p[1..];
      assert r[k] == [x] + p[1..] == p;
    }
  }

  /** `set(cards)`. */
  function CardSet(s: seq<Card>): set<Card>
  {
    set c | c in s
  }

  /** `len(set(cards)) == len(cards)` holds exactly when no card repeats. */
  lemma {:induction false} CardSetSize(s: seq<Card>)
    ensures |CardSet(s)| <= |s|
    ensures |CardSet(s)| == |s| <==> NoDups(s)
  {
    if |s| > 0 {
      var rest := s[1..];
      CardSetSize(rest);
      assert CardSet(s) == {s[0]} + CardSet(rest);
      if s[0] in rest {
        assert CardSet(s) == CardSet(rest);
        var k :| 0 <= k < |rest| && rest[k] == s[0];
        assert s[k + 1] == s[0];
      } else {
        assert s[0] !in CardSet(rest);
        if NoDups(rest) {
          forall a, b | 0 <= a < b < |s|
            ensures s[a] != s[b]
          {
            if a > 0 {
              assert s[a] == rest[a - 1] && s[b] == rest[b - 1];
            } else {
              assert s[b] == rest[b - 1];
            }
          }
        }
        if NoDups(s) {
          forall a, b | 0 <= a < b < |rest|
            ensures rest[a] != rest[b]
          {
            assert rest[a] == s[a + 1] && rest[b] == s[b + 1];
          }
        }
      }
    } else {
      assert CardSet(s) == {};
    }
  }

  /** Every tree in `sols` makes 24 from a rearrangement `m` of the hand. */
  ghost predicate Reported(sols: seq<Tree>, m: multiset<Card>)
  {
    forall k :: 0 <= k < |sols| ==> IsSolution(sols[k]) && multiset(Leaves(sols[k])) == m
  }

  /** Every tree of `ts` before `n` that makes 24 is in `sols`. */
  ghost predicate Found(ts: seq<Tree>, n: int, sols: seq<Tree>)
  {
    forall k :: 0 <= k < n && k < |ts| && IsSolution(ts[k]) ==> ts[k] in sols
  }

  /** Every tree of `ts` before `n` is in `seen`. */
  ghost predicate Within(ts: seq<Tree>, n: int, seen: set<Tree>)
  {
    forall k :: 0 <= k < n && k < |ts| ==> ts[k] in seen
  }

  /** Every tree of `ts` is over the rearrangement `m` of the hand. */
  ghost predicate OverHand(ts: seq<Tree>, m: multiset<Card>)
  {
    forall k :: 0 <= k < |ts| ==> multiset(Leaves(ts[k])) == m
  }

  /** `b` is `a` with more trees after it. */
  ghost predicate Extends(a: seq<Tree>, b: seq<Tree>)
  {
    |a| <= |b| && b[..|a|] == a
  }

  lemma FoundExtends(ts: seq<Tree>, n: int, a: seq<Tree>, b: seq<Tree>)
    requires Found(ts, n, a) && Extends(a, b)
    ensures Found(ts, n, b)
  {
    forall k | 0 <= k < n && k < |ts| && IsSolution(ts[k])
      ensures ts[k] in b
    {
      var i :| 0 <= i < |a| && a[i] == ts[k];
      assert b[i] == a[i];
    }
  }

  /** The trees over one ordering of the hand are over the hand. */
  lemma TreesOverHand(p: seq<Card>, m: multiset<Card>)
    requires multiset(p) == m
    ensures OverHand(Trees(p), m)
  {
    forall k | 0 <= k < |Trees(p)|
      ensures multiset(Leaves(Trees(p)[k])) == m
    {
      TreesExactly(p, Trees(p)[k]);
    }
  }

  /** The inner loop of the first branch: keep every tree that makes 24. */
  method ScanAll(ts: seq<Tree>, sols0: seq<Tree>, ghost m: multiset<Card>) returns (sols: seq<Tree>)
    requires Reported(sols0, m) && OverHand(ts, m)
    ensures Reported(sols, m) && Found(ts, |ts|, sols) && Extends(sols0, sols)
  {
    sols := sols0;
    var k := 0;
    while k < |ts|
      invariant 0 <= k <= |ts|
      invariant Reported(sols, m) && Found(ts, k, sols) && Extends(sols0, sols)
    {
      if IsSolution(ts[k]) {
        ghost var before := sols;
        sols := sols + [ts[k]];
        FoundExtends(ts, k, before, sols);
      }
      k := k + 1;
    }
  }

  /** The first branch of `find_solutions`, for a hand without repeated cards. */
  method CollectAll(perms: seq<seq<Card>>, ghost m: multiset<Card>) returns (sols: seq<Tree>)
    requires forall j :: 0 <= j < |perms| ==> multiset(perms[j]) == m
    ensures Reported(sols, m)
    ensures forall j :: 0 <= j < |perms| ==> Found(Trees(perms[j]), |Trees(perms[j])|, sols)
  {
    sols := [];
    var i := 0;
    while i < |perms|
      invariant 0 <= i <= |perms|
      invariant Reported(sols, m)
      invariant forall j :: 0 <= j < i ==> Found(Trees(perms[j]), |Trees(perms[j])|, sols)
    {
      var ts := Trees(perms[i]);
      TreesOverHand(perms[i], m);
      ghost var before := sols;
      sols := ScanAll(ts, sols, m);
      forall j | 0 <= j < i
        ensures Found(Trees(perms[j]), |Trees(perms[j])|, sols)
      {
        FoundExtends(Trees(perms[j]), |Trees(perms[j])|, before, sols);
      }
      i := i + 1;
    }
  }

  /** Every tree in `seen` that makes 24 is in `sols`, and every tree of `sols` is in `seen`. */
  ghost predicate Kept(seen: set<Tree>, sols: seq<Tree>)
  {
    (forall t :: t in seen && IsSolution(t) ==> t in sols)
    && (forall k :: 0 <= k < |sols| ==> sols[k] in seen)
  }

  /** The inner loop of the second branch: report each tree that makes 24 the first time it is seen. */
  method ScanUnseen(ts: seq<Tree>, sols0: seq<Tree>, seen0: set<Tree>, ghost m: multiset<Card>)
    returns (sols: seq<Tree>, seen: set<Tree>)
    requires Reported(sols0, m) && NoDups(sols0) && Kept(seen0, sols0) && OverHand(ts, m)
    ensures Reported(sols, m) && NoDups(sols) && Kept(seen, sols)
    ensures seen0 <= seen && Within(ts, |ts|, seen)
  {
    sols, seen := sols0, seen0;
    var k := 0;
    while k < |ts|
      invariant 0 <= k <= |ts|
      invariant Reported(sols, m) && NoDups(sols) && Kept(seen, sols)
      invariant seen0 <= seen && Within(ts, k, seen)
    {
      var t := ts[k];
      if t !in seen {
        if IsSolution(t) {
          sols := sols + [t];
        }
        seen := seen + {t};
      }
      k := k + 1;
    }
  }

  /** The second branch of `find_solutions`, for a hand with a repeated card. */
  method CollectUnseen(perms: seq<seq<Card>>, ghost m: multiset<Card>) returns (sols: seq<Tree>)
    requires forall j :: 0 <= j < |perms| ==> multiset(perms[j]) == m
    ensures Reported(sols, m) && NoDups(sols)
    ensures forall j :: 0 <= j < |perms| ==> Found(Trees(perms[j]), |Trees(perms[j])|, sols)
  {
    sols := [];
    var seen: set<Tree> := {};
    var i := 0;
    while i < |perms|
      invariant 0 <= i <= |perms|
      invariant Reported(sols, m) && NoDups(sols) && Kept(seen, sols)
      invariant forall j :: 0 <= j < i ==> Within(Trees(perms[j]), |Trees(perms[j])|, seen)
    {
      TreesOverHand(perms[i], m);
      sols, seen := ScanUnseen(Trees(perms[i]), sols, seen, m);
      i := i + 1;
    }
    forall j | 0 <= j < |perms|
      ensures Found(Trees(perms[j]), |Trees(perms[j])|, sols)
    {
      assert Within(Trees(perms[j]), |Trees(perms[j])|, seen);
    }
  }

  /**
   * `find_solutions`: the trees over every ordering of the hand that make
   * 24; when a card repeats, a tree is reported only the first time it
   * is built.
   */
  method FindSolutions(cards: seq<Card>) returns (solutions: seq<Tree>)
    ensures forall k :: 0 <= k < |solutions| ==>
              IsSolution(solutions[k]) && multiset(Leaves(solutions[k])) == multiset(cards)
    ensures forall t :: IsSolution(t) && multiset(Leaves(t)) == multiset(cards) ==> t in solutions
    ensures !NoDups(cards) ==> NoDups(solutions)
  {
    var perms := Permutations(cards);
    forall j | 0 <= j < |perms|
      ensures multiset(perms[j]) == multiset(cards)
    {
      PermutationsExactly(cards, perms[j]);
    }
    CardSetSize(cards);
    if |CardSet(cards)| == |cards| {
      solutions := CollectAll(perms, multiset(cards));
    } else {
      solutions := CollectUnseen(perms, multiset(cards));
    }
    FoundAllSolutions(cards, solutions);
  }

  /** A list that holds every solution of every ordering holds every solution over the cards. */
  lemma FoundAllSolutions(cards: seq<Card>, solutions: seq<Tree>)
    requires forall j :: 0 <= j < |Permutations(cards)| ==>
               Found(Trees(Permutations(cards)[j]), |Trees(Permutations(cards)[j])|, solutions)
    ensures forall t :: IsSolution(t) && multiset(Leaves(t)) == multiset(cards) ==> t in solutions
  {
    var perms := Permutations(cards);
    forall t | IsSolution(t) && multiset(Leaves(t)) == multiset(cards)
      ensures t in solutions
    {
      PermutationsExactly(cards, Leaves(t));
      var j :| 0 <= j < |perms| && perms[j] == Leaves(t);
      TreesExactly(Leaves(t), t);
      var k :| 0 <= k < |Trees(perms[j])| && Trees(perms[j])[k] == t;
      assert Found(Trees(perms[j]), |Trees(perms[j])|, solutions);
    }
  }
}
