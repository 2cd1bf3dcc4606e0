/**
 * The probe sequence of the open-addressing hash map (hw8/hashmap.py).
 *
 * A lookup for hash `h` in a table of `c` slots starts at slot `h & (c - 1)`
 * with `perturb = h`, and moves on with
 *     index   := (5 * index + perturb + 1) & (c - 1)
 *     perturb := perturb >> 5
 * For a non-negative hash and a power-of-two `c`, `x & (c - 1)` is `x % c`
 * and `p >> 5` is `p / 32`, which is how they are written here.
 *
 * The main result, `ProbeCovers`, is that the sequence visits EVERY slot:
 * once `perturb` has shifted down to zero the step is `x -> (5x + 1) mod c`,
 * which has full period when `c` is a power of two. The hash map's lookup
 * loop terminates because of it, as soon as the table has one empty slot.
 */
module HashProbe {

  /** `c` is a power of two: 1, 2, 4, 8, ... */
  predicate IsPow2(c: nat)
    decreases c
  {
    c == 1 || (c >= 2 && c % 2 == 0 && IsPow2(c / 2))
  }

  function Pow5(n: nat): (r: nat)
    ensures r >= 1
  {
    if n == 0 then 1 else 5 * Pow5(n - 1)
  }

  /** 1 + 5 + 25 + ... + 5^(n-1) */
  function Geo(n: nat): nat
  {
    if n == 0 then 0 else Geo(n - 1) + Pow5(n - 1)
  }

  // ---------------------------------------------------------------------------
  // The probe itself

  /** (index, perturb) after `n` steps of the probe for hash `h` in `c` slots. */
  function ProbeState(h: nat, c: nat, n: nat): (st: (nat, nat))
    requires c > 0
    ensures st.0 < c
  {
    if n == 0 then (h % c, h)
    else
      var (i, p) := ProbeState(h, c, n - 1);
      ((5 * i + p + 1) % c, p / 32)
  }

  /** The slot visited at step `n`. */
  function Probe(h: nat, c: nat, n: nat): nat
    requires c > 0
  {
    ProbeState(h, c, n).0
  }

  /** The step once `perturb` has reached zero. */
  function Step(x: nat, c: nat): nat
    requires c > 0
  {
    (5 * x + 1) % c
  }

  function Iter(x: nat, n: nat, c: nat): (r: nat)
    requires c > 0 && x < c
    ensures r < c
  {
    if n == 0 then x else Step(Iter(x, n - 1, c), c)
  }

  // ---------------------------------------------------------------------------
  // Arithmetic facts about multiplication, division and remainders

  lemma MulAtLeast(c: nat, k: int)
    requires k >= 1
    ensures c * k >= c
  {
    assert c * k == c * (k - 1) + c;
  }

  lemma MulNonPositive(c: nat, k: int)
    requires k <= 0
    ensures c * k <= 0
  {
    assert c * k == -(c * (-k));
  }

  lemma Distrib(x: int, y: int, z: int)
    ensures x * (y + z) == x * y + x * z
  {
  }

  lemma Double(x: int, y: int)
    ensures (2 * x) * y == 2 * (x * y)
  {
  }

  lemma Assoc5(x: int, y: int)
    ensures (5 * x) * y == 5 * (x * y)
  {
  }

  lemma ClosedFormStep(P: int, G: int, x: int)
    ensures 5 * (P * x + G) + 1 == (5 * P) * x + (5 * G + 1)
  {
  }

  lemma OddTimesOdd(x: int, y: int)
    ensures (2 * x + 1) * (2 * y + 1) == 2 * (2 * x * y + x + y) + 1
  {
  }

  lemma GeoDoubling(E: int, q: int)
    ensures E + (4 * q + 1) * E == 2 * (E * (2 * q + 1))
  {
  }

  lemma OrbitGap(P: int, G: int, x: int)
    ensures P * (4 * G + 1) * x + P * G == P * x + G * (P * (4 * x + 1))
  {
  }

  /** Division with remainder has only one answer. */
  lemma DivModUnique(x: int, c: int, q: int, r: int)
    requires c > 0 && 0 <= r < c && x == c * q + r
    ensures x % c == r && x / c == q
  {
    var q0, r0 := x / c, x % c;
    assert x == c * q0 + r0;
    if q > q0 {
      MulAtLeast(c, q - q0);
      assert false;
    } else if q < q0 {
      MulAtLeast(c, q0 - q);
      assert false;
    }
  }

  lemma ModAddMultiple(c: nat, m: int, y: int)
    requires c > 0
    ensures (c * m + y) % c == y % c
  {
    var q, r := y / c, y % c;
    assert y == c * q + r;
    assert c * m + y == c * (m + q) + r;
    DivModUnique(c * m + y, c, m + q, r);
  }

  lemma ModEqualDiff(A: int, B: int, c: nat) returns (k: int)
    requires c > 0 && A % c == B % c
    ensures B - A == c * k
  {
    k := B / c - A / c;
    assert A == c * (A / c) + A % c;
    assert B == c * (B / c) + B % c;
    assert c * k == c * (B / c) - c * (A / c);
  }

  // ---------------------------------------------------------------------------
  // Powers of five and the geometric sum

  lemma {:induction false} Pow5Add(a: nat, b: nat)
    ensures Pow5(a + b) == Pow5(a) * Pow5(b)
  {
    if b > 0 {
      Pow5Add(a, b - 1);
      assert Pow5(a + b) == 5 * Pow5(a + b - 1);
      assert Pow5(b) == 5 * Pow5(b - 1);
    }
  }

  /** Every power of five is one more than a multiple of four. */
  lemma {:induction false} Pow5Form(n: nat) returns (q: nat)
    ensures Pow5(n) == 4 * q + 1
  {
    if n > 0 {
      var q' := Pow5Form(n - 1);
      q := 5 * q' + 1;
    } else {
      q := 0;
    }
  }

  lemma {:induction false} GeoPow(n: nat)
    ensures 4 * Geo(n) + 1 == Pow5(n)
  {
    if n > 0 {
      GeoPow(n - 1);
    }
  }

  lemma {:induction false} GeoAdd(a: nat, b: nat)
    ensures Geo(a + b) == Geo(a) + Pow5(a) * Geo(b)
  {
    if b > 0 {
      GeoAdd(a, b - 1);
      Pow5Add(a, b - 1);
      var P, G, Q := Pow5(a), Geo(b - 1), Pow5(b - 1);
      assert Geo(b) == G + Q;
      assert Geo(a + b) == Geo(a + b - 1) + Pow5(a + b - 1);
      Distrib(P, G, Q);
    }
  }

  /** The geometric sum of n terms has the parity of n (every term is odd). */
  lemma {:induction false} GeoParity(n: nat) returns (g: nat)
    ensures Geo(n) == 2 * g + n % 2
  {
    if n > 0 {
      var g' := GeoParity(n - 1);
      var q := Pow5Form(n - 1);
      g := g' + 2 * q + (n - 1) % 2;
    } else {
      g := 0;
    }
  }

  // ---------------------------------------------------------------------------
  // Divisibility by a power of two

  /** An odd factor does not help a product become divisible by a power of two. */
  lemma {:induction false} DividesOddFactor(c: nat, a: nat, u: nat, k: int) returns (j: int)
    requires IsPow2(c) && a * (2 * u + 1) == c * k
    ensures a == c * j
    decreases c
  {
    if c == 1 {
      j := a;
    } else {
      var h := c / 2;
      var a', r := a / 2, a % 2;
      assert a == 2 * a' + r;
      var t := 2 * u + 1;
      Double(h, k);
      if r == 1 {
        OddTimesOdd(a', u);
        assert false;
      }
      Double(a', t);
      var j' := DividesOddFactor(h, a', u, k);
      j := j';
      Double(h, j');
    }
  }

  lemma EvenOfGeoEven(d: nat, m: int)
    requires Geo(d) == 2 * m
    ensures d % 2 == 0
  {
    var g := GeoParity(d);
  }

  lemma GeoOfEven(e: nat) returns (q: nat)
    ensures Geo(e + e) == 2 * (Geo(e) * (2 * q + 1))
  {
    GeoAdd(e, e);
    q := Pow5Form(e);
    var E, P := Geo(e), Pow5(e);
    assert Geo(e + e) == E + P * E;
    assert P == 4 * q + 1;
    GeoDoubling(E, q);
  }

  /** The 2-adic heart of the full-period theorem: c | Geo(d) implies c | d. */
  lemma {:induction false} GeoDivides(c: nat, d: nat, k: int) returns (j: int)
    requires IsPow2(c) && Geo(d) == c * k
    ensures d == c * j
    decreases c
  {
    if c == 1 {
      j := d;
    } else {
      var h := c / 2;
      Double(h, k);
      EvenOfGeoEven(d, h * k);
      var e := d / 2;
      assert d == e + e;
      var q := GeoOfEven(e);
      var t := 2 * q + 1;
      assert Geo(e) * t == h * k;
      var j1 := DividesOddFactor(h, Geo(e), q, k);
      var j2 := GeoDivides(h, e, j1);
      j := j2;
      Double(h, j2);
    }
  }

  // ---------------------------------------------------------------------------
  // Full period of x -> 5x + 1 (mod c)

  lemma StepMod(a: nat, c: nat)
    requires c > 0
    ensures Step(a % c, c) == (5 * a + 1) % c
  {
    var q := a / c;
    assert a == c * q + a % c;
    assert 5 * a + 1 == c * (5 * q) + (5 * (a % c) + 1);
    ModAddMultiple(c, 5 * q, 5 * (a % c) + 1);
  }

  /** x after `n` steps of x -> 5x + 1, without the reduction mod c. */
  function Unreduced(x: nat, n: nat): nat
  {
    if n == 0 then x else 5 * Unreduced(x, n - 1) + 1
  }

  /** Iterating mod c is reducing the unreduced iterate mod c. */
  lemma {:induction false} IterUnreduced(x: nat, n: nat, c: nat)
    requires c > 0 && x < c
    ensures Iter(x, n, c) == Unreduced(x, n) % c
  {
    if n == 0 {
      DivModUnique(x, c, 0, x);
    } else {
      IterUnreduced(x, n - 1, c);
      StepMod(Unreduced(x, n - 1), c);
    }
  }

  /** The unreduced iterate in closed form: 5^n x + 1 + 5 + ... + 5^(n-1). */
  lemma {:induction false} UnreducedClosedForm(x: nat, n: nat)
    ensures Unreduced(x, n) == Pow5(n) * x + Geo(n)
  {
    if n > 0 {
      UnreducedClosedForm(x, n - 1);
      var P, G := Pow5(n - 1), Geo(n - 1);
      GeoPow(n - 1);
      ClosedFormStep(P, G, x);
    }
  }

  lemma IterClosedForm(x: nat, n: nat, c: nat)
    requires c > 0 && x < c
    ensures Iter(x, n, c) == (Pow5(n) * x + Geo(n)) % c
  {
    IterUnreduced(x, n, c);
    UnreducedClosedForm(x, n);
  }

  /** The distance between two points of an orbit, in closed form. */
  lemma OrbitDifference(x: nat, a: nat, d: nat)
    ensures Pow5(a + d) * x + Geo(a + d) == (Pow5(a) * x + Geo(a)) + Geo(d) * (Pow5(a) * (4 * x + 1))
  {
    Pow5Add(a, d);
    GeoAdd(a, d);
    GeoPow(d);
    var P, G := Pow5(a), Geo(d);
    assert Pow5(a + d) == P * (4 * G + 1);
    OrbitGap(P, G, x);
  }

  /** The factor by which two points of an orbit differ, beyond the geometric sum, is odd. */
  lemma OddMultiplier(a: nat, x: nat) returns (u: nat)
    ensures Pow5(a) * (4 * x + 1) == 2 * u + 1
  {
    var q := Pow5Form(a);
    var P := Pow5(a);
    assert P == 2 * (2 * q) + 1;
    OddTimesOdd(2 * q, 2 * x);
    u := 2 * (2 * q) * (2 * x) + 2 * q + 2 * x;
  }

  lemma NoMultipleBelow(c: nat, d: nat, j: int)
    requires 0 < d < c
    ensures d != c * j
  {
    if j >= 1 {
      MulAtLeast(c, j);
    } else {
      MulNonPositive(c, j);
    }
  }

  /** Within one period no slot is visited twice. */
  lemma IterInjective(x: nat, a: nat, b: nat, c: nat)
    requires IsPow2(c) && x < c && a < b < c
    ensures Iter(x, a, c) != Iter(x, b, c)
  {
    var d := b - a;
    var A := Pow5(a) * x + Geo(a);
    var B := Pow5(b) * x + Geo(b);
    var u := OddMultiplier(a, x);
    assert B == A + Geo(d) * (2 * u + 1) by {
      OrbitDifference(x, a, d);
    }
    assert Iter(x, a, c) == A % c && Iter(x, b, c) == B % c by {
      IterClosedForm(x, a, c);
      IterClosedForm(x, b, c);
    }
    if A % c == B % c {
      var k := ModEqualDiff(A, B, c);
      var j1 := DividesOddFactor(c, Geo(d), u, k);
      var j := GeoDivides(c, d, j1);
      NoMultipleBelow(c, d, j);
    }
  }

  ghost function Orbit(x: nat, n: nat, c: nat): set<nat>
    requires c > 0 && x < c
  {
    if n == 0 then {} else Orbit(x, n - 1, c) + {Iter(x, n - 1, c)}
  }

  /** {0, 1, ..., c - 1} */
  ghost function Slots(c: nat): set<nat>
  {
    if c == 0 then {} else Slots(c - 1) + {c - 1}
  }

  lemma {:induction false} SlotsFacts(c: nat)
    ensures |Slots(c)| == c
    ensures forall e: nat :: e in Slots(c) <==> e < c
  {
    if c > 0 {
      SlotsFacts(c - 1);
    }
  }

  /** Every point of the orbit is reached at some step before `n`. */
  lemma {:induction false} OrbitMember(x: nat, n: nat, c: nat, e: nat) returns (m: nat)
    requires c > 0 && x < c && e in Orbit(x, n, c)
    ensures m < n && Iter(x, m, c) == e
  {
    if e == Iter(x, n - 1, c) {
      m := n - 1;
    } else {
      m := OrbitMember(x, n - 1, c, e);
    }
  }

  lemma {:induction false} OrbitFacts(x: nat, n: nat, c: nat)
    requires IsPow2(c) && x < c && n <= c
    ensures |Orbit(x, n, c)| == n && Orbit(x, n, c) <= Slots(c)
  {
    if n > 0 {
      OrbitFacts(x, n - 1, c);
      var before := Orbit(x, n - 1, c);
      var y := Iter(x, n - 1, c);
      assert y !in before by {
        if y in before {
          var m := OrbitMember(x, n - 1, c, y);
          IterInjective(x, m, n - 1, c);
        }
      }
      assert y in Slots(c) by {
        SlotsFacts(c);
      }
    }
  }

  lemma {:induction false} SubsetSameSize(A: set<nat>, B: set<nat>)
    requires A <= B && |A| == |B|
    ensures A == B
  {
    if A != B {
      var e :| e in B && e !in A;
      assert A <= B - {e};
      assert |B - {e}| == |B| - 1;
      SubsetSize(A, B - {e});
    }
  }

  lemma {:induction false} SubsetSize(A: set<nat>, B: set<nat>)
    requires A <= B
    ensures |A| <= |B|
  {
    if A != {} {
      var e :| e in A;
      SubsetSize(A - {e}, B - {e});
    }
  }

  /** Full period: from any start, x -> 5x + 1 (mod c) reaches every slot within c steps. */
  lemma FullPeriod(x: nat, e: nat, c: nat) returns (m: nat)
    requires IsPow2(c) && x < c && e < c
    ensures m < c && Iter(x, m, c) == e
  {
    assert e in Orbit(x, c, c) by {
      OrbitFacts(x, c, c);
      SlotsFacts(c);
      SubsetSameSize(Orbit(x, c, c), Slots(c));
    }
    m := OrbitMember(x, c, c, e);
  }

  // ---------------------------------------------------------------------------
  // From the perturbed probe to the plain step

  lemma {:induction false} PerturbShrinks(h: nat, c: nat, n: nat)
    requires c > 0 && n <= h
    ensures ProbeState(h, c, n).1 + n <= h
  {
    if n > 0 {
      PerturbShrinks(h, c, n - 1);
    }
  }

  lemma {:induction false} PerturbVanishes(h: nat, c: nat)
    requires c > 0
    ensures ProbeState(h, c, h).1 == 0
  {
    PerturbShrinks(h, c, h);
  }

  lemma {:induction false} ProbeAfterPerturb(h: nat, c: nat, m: nat)
    requires c > 0
    ensures ProbeState(h, c, h + m) == (Iter(Probe(h, c, h), m, c), 0)
  {
    if m == 0 {
      PerturbVanishes(h, c);
    } else {
      ProbeAfterPerturb(h, c, m - 1);
      var st := ProbeState(h, c, h + m - 1);
      assert st == (Iter(Probe(h, c, h), m - 1, c), 0);
      assert ProbeState(h, c, h + m) == ((5 * st.0 + st.1 + 1) % c, st.1 / 32);
    }
  }

  /** Every slot of a power-of-two table lies on the probe sequence of every hash. */
  lemma ProbeCovers(h: nat, c: nat, e: nat)
    requires IsPow2(c) && e < c
    ensures exists n: nat :: Probe(h, c, n) == e
  {
    var m := FullPeriod(Probe(h, c, h), e, c);
    ProbeAfterPerturb(h, c, m);
    assert Probe(h, c, h + m) == e;
  }
}
