/**
 How many steps GetAncestor of src/chain.cpp takes. The skip heights are chosen for speed, which the source
 only reports from simulations. Here a bound is proved: with every skip pointer in place, going back less
 than 2^n blocks takes at most (n * n + 10 * n + 13) / 4 steps, from any height.

 Main result: StepsBound. The walk has two parts. At first each jump clears the lowest one of the height, or
 the two lowest (EvenSteps, OddSteps). Once a jump would go too far the height ends in ones and the
 distance is below the power of two they stand for; then each round of jumps gets to fewer ones
 (OnesSteps, Phase, Tail).
 */
module ChainSteps {
  import opened Chain

  // ----- powers of two -----

  lemma {:induction false} PowSum(a: nat, b: nat)
    ensures Pow2(a + b) == Pow2(a) * Pow2(b)
  {
    if a > 0 {
      PowSum(a - 1, b);
      Twice(Pow2(a - 1), Pow2(b));
    }
  }

  lemma Twice(p: nat, q: nat)
    ensures 2 * (p * q) == 2 * p * q
  {
  }

  lemma {:induction false} PowLess(a: nat, b: nat)
    ensures Pow2(a) < Pow2(b) ==> a < b
  {
    if a >= b {
      PowSum(b, a - b);
      AtLeast(Pow2(b), Pow2(a - b));
    }
  }

  lemma AtLeast(p: nat, q: nat)
    requires q > 0
    ensures p <= p * q
  {
  }

  // y * 2^(a + b), regrouped.
  lemma Scale(y: nat, a: nat, b: nat)
    ensures y * Pow2(a + b) == y * Pow2(a) * Pow2(b)
  {
    PowSum(a, b);
    Regroup(y, Pow2(a), Pow2(b));
  }

  lemma Regroup(y: nat, p: nat, q: nat)
    ensures y * (p * q) == y * p * q
  {
  }

  // ----- skip heights of scaled numbers -----

  lemma {:induction false} InvertScaled(y: nat, k: nat)
    ensures InvertLowestOne(y * Pow2(k)) == InvertLowestOne(y) * Pow2(k)
    decreases k
  {
    hide InvertLowestOne;
    if k > 0 {
      InvertScaled(y, k - 1);
      Double(y, Pow2(k - 1));
      InvertDouble(y * Pow2(k - 1));
      Double(InvertLowestOne(y), Pow2(k - 1));
    }
  }

  lemma Double(y: nat, p: nat)
    ensures y * (2 * p) == 2 * (y * p)
  {
  }

  lemma InvertDouble(n: nat)
    ensures InvertLowestOne(2 * n) == 2 * InvertLowestOne(n)
  {
  }

  lemma InvertOdd(x: nat)
    ensures InvertLowestOne(2 * x + 1) == 2 * x
  {
  }

  // One removal leaves an even number, two leave a multiple of four.
  lemma {:induction false} InvertTwice(x: nat)
    ensures InvertLowestOne(x) % 2 == 0 && InvertLowestOne(InvertLowestOne(x)) % 4 == 0
  {
    hide InvertLowestOne;
    if x == 0 {
      InvertNone();
    } else {
      var z := x / 2;
      InvertTwice(z);
      if x == 2 * z {
        InvertDouble(z);
        InvertDouble(InvertLowestOne(z));
      } else {
        InvertOdd(z);
        InvertDouble(z);
      }
    }
  }

  lemma InvertNone()
    ensures InvertLowestOne(0) == 0
  {
  }

  lemma SkipAtEven(q: nat)
    requires q > 0
    ensures GetSkipHeight(2 * q) == InvertLowestOne(2 * q)
  {
    hide InvertLowestOne;
  }

  lemma SkipAtOdd(q: nat)
    requires q > 0
    ensures GetSkipHeight(2 * q + 1) == InvertLowestOne(InvertLowestOne(2 * q)) + 1
  {
    hide InvertLowestOne;
  }

  lemma SkipEven(y: nat, k: nat)
    requires y > 0 && k > 0
    ensures GetSkipHeight(y * Pow2(k)) == InvertLowestOne(y) * Pow2(k)
  {
    hide InvertLowestOne, GetSkipHeight;
    Double(y, Pow2(k - 1));
    PositiveProduct(y, Pow2(k - 1));
    SkipAtEven(y * Pow2(k - 1));
    InvertScaled(y, k);
  }

  lemma PositiveProduct(y: nat, p: nat)
    requires y > 0 && p > 0
    ensures y * p > 0
  {
  }

  lemma SkipOdd(y: nat, k: nat)
    requires y > 0 && k > 0
    ensures GetSkipHeight(y * Pow2(k) + 1) == InvertLowestOne(InvertLowestOne(y)) * Pow2(k) + 1
  {
    hide InvertLowestOne, GetSkipHeight;
    Double(y, Pow2(k - 1));
    PositiveProduct(y, Pow2(k - 1));
    SkipAtOdd(y * Pow2(k - 1));
    InvertScaled(y, k);
    InvertScaled(InvertLowestOne(y), k);
  }

  // ----- single steps -----

  // From an odd height the skip is taken whenever it does not go too far.
  lemma OddNext(y: nat, k: nat, t: nat)
    requires y > 0 && k > 0 && t < y * Pow2(k) + 1
    ensures var skip := InvertLowestOne(InvertLowestOne(y)) * Pow2(k) + 1;
            NextHeight(y * Pow2(k) + 1, t) == if skip >= t then skip else y * Pow2(k)
  {
    SkipOdd(y, k);
    SkipEven(y, k);
    hide InvertLowestOne, GetSkipHeight;
    Monotone(InvertLowestOne(InvertLowestOne(y)), InvertLowestOne(y), Pow2(k));
  }

  lemma Monotone(a: nat, b: nat, p: nat)
    requires a <= b
    ensures a * p <= b * p
  {
  }

  lemma StepsOne(h: nat, t: nat)
    requires t <= h <= t + 1
    ensures Steps(h, t) <= 1
  {
    hide GetSkipHeight;
    if t < h {
      StepsNext(h, t);
      StepsDone(t);
    }
  }

  // The skip of the parent is not better than that of an even height with the lowest one at k.
  predicate NoBetter(e: nat, k: nat, t: nat)
    requires e > 0
  {
    GetSkipHeight(e - 1) < t || GetSkipHeight(e - 1) >= e - Pow2(k) - 2
  }

  lemma EvenNext(x: nat, k: nat, t: nat)
    requires k > 0 && t < (2 * x + 1) * Pow2(k)
    ensures var e, skip := (2 * x + 1) * Pow2(k), 2 * x * Pow2(k);
            && skip == e - Pow2(k)
            && NextHeight(e, t) == if skip == t || (skip > t && NoBetter(e, k, t)) then skip else e - 1
  {
    SkipEven(2 * x + 1, k);
    InvertOdd(x);
    hide InvertLowestOne, GetSkipHeight;
    Before(2 * x + 1, Pow2(k));
  }

  lemma Before(y: nat, p: nat)
    requires y > 0
    ensures (y - 1) * p == y * p - p
  {
  }

  // For a multiple of eight it never is.
  lemma EightNoBetter(z: nat, k: nat, t: nat)
    requires z > 0 && k >= 3
    ensures NoBetter(8 * z, k, t)
  {
    hide InvertLowestOne, GetSkipHeight;
    PowSmall();
    SkipOdd(4 * z - 1, 1);
    InvertThree(z - 1);
    PowSum(3, k - 3);
    AtLeast(8, Pow2(k - 3));
  }

  lemma PowSmall()
    ensures Pow2(0) == 1 && Pow2(1) == 2 && Pow2(2) == 4 && Pow2(3) == 8 && Pow2(4) == 16
  {
  }

  lemma InvertThree(v: nat)
    ensures InvertLowestOne(InvertLowestOne(4 * v + 3)) == 4 * v
  {
    hide InvertLowestOne;
    InvertOdd(2 * v + 1);
    InvertDouble(2 * v + 1);
    InvertOdd(v);
  }

  lemma Eightfold(y: nat, k: nat)
    requires y > 0 && k >= 3
    ensures y * Pow2(k - 3) > 0 && y * Pow2(k) == 8 * (y * Pow2(k - 3))
  {
    hide Pow2;
    PowSmall();
    PowSum(k - 3, 3);
    Regroup(y, Pow2(k - 3), 8);
    PositiveProduct(y, Pow2(k - 3));
  }

  // ----- heights that end in ones -----

  // The steps from a height that ends in m ones, to a distance below 2^m.
  function OnesBound(m: nat): nat {
    if m == 0 then 0 else OnesBound(m - 1) + (m - 1) / 2 + 2
  }

  lemma {:induction false} OnesBoundGrows(m: nat, n: nat)
    requires m <= n
    ensures OnesBound(m) <= OnesBound(n)
    ensures m < n ==> OnesBound(m) + m / 2 + 2 <= OnesBound(n)
    decreases n
  {
    if m < n {
      OnesBoundGrows(m, n - 1);
    }
  }

  lemma {:induction false} OnesBoundClosed(m: nat)
    ensures 4 * OnesBound(m) == m * m + 6 * m + m % 2
  {
    if m > 0 {
      var n := m - 1;
      OnesBoundClosed(n);
      Square(n);
      Halves(n);
    }
  }

  lemma Square(n: nat)
    ensures (n + 1) * (n + 1) == n * n + 2 * n + 1
  {
  }

  lemma Halves(n: nat)
    ensures 4 * (n / 2) == 2 * n - 2 * (n % 2) && (n + 1) % 2 == 1 - n % 2
  {
  }

  lemma {:induction false} OnesSteps(y: nat, m: nat, t: nat)
    requires y > 0 && t <= y * Pow2(m) - 1 < t + Pow2(m)
    ensures Steps(y * Pow2(m) - 1, t) <= OnesBound(m)
    decreases m, m
  {
    hide Pow2, Steps, OnesBound;
    PowSmall();
    AtLeast(Pow2(m), y);
    if m == 0 {
      StepsDone(t);
    } else {
      Before(y, Pow2(m));
      PowLessEqual(1, m);
      Phase(y, m, 1, t);
    }
  }

  // All but the lowest j of the m ones are left, and the lowest bit.
  lemma {:induction false} Phase(y: nat, m: nat, j: nat, t: nat)
    requires y > 0 && 1 <= j <= m && j % 2 == 1 && Pow2(j) <= Pow2(m) <= y * Pow2(m)
    requires (y - 1) * Pow2(m) <= t <= y * Pow2(m) - Pow2(j) + 1
    ensures Steps(y * Pow2(m) - Pow2(j) + 1, t) + (j - 1) / 2 <= OnesBound(m)
    decreases m, m - j
  {
    hide GetSkipHeight, InvertLowestOne, Steps, OnesBound, NextHeight;
    var h := y * Pow2(m) - Pow2(j) + 1;
    OnesBoundGrows(m - 1, m);
    Before(y, Pow2(m));
    if t == h {
      StepsDone(h);
    } else if j == m {
      StepsOne(h, t);
    } else if j == m - 1 {
      EndForm(y, j);
      PhaseEnd(y - 1, j, t);
    } else {
      var v := PhaseForm(y, m, j);
      PhaseMove(v, j, t);
      if v * Pow2(j + 2) + 1 >= t {
        PowLessEqual(j + 2, m);
        Phase(y, m, j + 2, t);
      } else {
        PhaseDown(v, j, t);
        OnesBoundGrows(j + 1, m);
      }
    }
  }

  lemma EndForm(y: nat, j: nat)
    requires y > 0
    ensures y * Pow2(j + 1) - Pow2(j) == (2 * (y - 1) + 1) * Pow2(j)
    ensures (y - 1) * Pow2(j + 1) == (y - 1) * (2 * Pow2(j))
  {
    EndParts(y - 1, Pow2(j));
  }

  lemma EndParts(u: nat, p: nat)
    ensures (u + 1) * (2 * p) - p == (2 * u + 1) * p
  {
  }

  lemma PowLessEqual(a: nat, b: nat)
    requires a <= b
    ensures Pow2(a) <= Pow2(b)
  {
    PowSum(a, b - a);
    AtLeast(Pow2(a), Pow2(b - a));
  }

  lemma PhaseMove(v: nat, j: nat, t: nat)
    requires j > 0 && t < (4 * v + 3) * Pow2(j) + 1
    ensures var h, next := (4 * v + 3) * Pow2(j), v * Pow2(j + 2) + 1;
            Steps(h + 1, t) == 1 + Steps(if next >= t then next else h, t)
  {
    hide GetSkipHeight, InvertLowestOne, Steps, NextHeight;
    OddNext(4 * v + 3, j, t);
    StepsNext((4 * v + 3) * Pow2(j) + 1, t);
    InvertThree(v);
    FourParts(v, Pow2(j));
    assert Pow2(j + 2) == 4 * Pow2(j);
  }

  lemma {:induction false} PhaseDown(v: nat, j: nat, t: nat)
    requires j % 2 == 1 && v * Pow2(j + 2) + 1 < t <= (4 * v + 3) * Pow2(j)
    ensures Steps((4 * v + 3) * Pow2(j), t) <= 2 + OnesBound(j + 1)
    decreases j + 1, j + 3
  {
    hide GetSkipHeight, InvertLowestOne, Steps, NextHeight, OnesBound, NoBetter;
    PhaseSkip(v, j, t);
    FourParts(v, Pow2(j));
    assert Pow2(j + 2) == 4 * Pow2(j);
    Tail(2 * v + 1, j, t);
  }

  lemma PhaseForm(y: nat, m: nat, j: nat) returns (v: nat)
    requires y > 0 && j + 2 <= m
    ensures y * Pow2(m) - Pow2(j) == (4 * v + 3) * Pow2(j)
    ensures y * Pow2(m) - Pow2(j + 2) == v * Pow2(j + 2) == 4 * v * Pow2(j)
  {
    PositiveProduct(y, Pow2(m - j - 2));
    v := y * Pow2(m - j - 2) - 1;
    Scale(y, m - j - 2, j + 2);
    assert Pow2(j + 2) == 4 * Pow2(j);
    FourParts(v, Pow2(j));
  }

  lemma FourParts(v: nat, p: nat)
    ensures (v + 1) * (4 * p) - p == (4 * v + 3) * p && (v + 1) * (4 * p) - 4 * p == v * (4 * p) == 4 * v * p
  {
  }

  lemma PhaseSkip(v: nat, j: nat, t: nat)
    requires j % 2 == 1 && t > v * Pow2(j + 2) + 1
    ensures (4 * v + 3) * Pow2(j) > 0 && NoBetter((4 * v + 3) * Pow2(j), j, t)
  {
    hide InvertLowestOne, GetSkipHeight, Pow2;
    PositiveProduct(4 * v + 3, Pow2(j));
    PowSmall();
    if j == 1 {
      SkipOdd(2 * v + 1, 2);
      InvertOdd(v);
    } else {
      Eightfold(4 * v + 3, j);
      EightNoBetter((4 * v + 3) * Pow2(j - 3), j, t);
    }
  }

  // After the odd jumps: at most one even jump, then the height ends in fewer ones.
  lemma {:induction false} Tail(u: nat, j: nat, t: nat)
    requires j > 0 && t <= (2 * u + 1) * Pow2(j) < t + 3 * Pow2(j) && NoBetter((2 * u + 1) * Pow2(j), j, t)
    ensures Steps((2 * u + 1) * Pow2(j), t) <= 2 + OnesBound(j + 1)
    decreases j + 1, j + 2
  {
    hide GetSkipHeight, InvertLowestOne, Steps, OnesBound, NextHeight, NoBetter;
    var e := (2 * u + 1) * Pow2(j);
    if t == e {
      StepsDone(e);
    } else {
      EvenNext(u, j, t);
      StepsNext(e, t);
      if e - Pow2(j) < t {
        OnesSteps(2 * u + 1, j, t);
        OnesBoundGrows(j, j + 1);
      } else {
        TailSkip(u, j, t);
      }
    }
  }

  lemma {:induction false} TailSkip(u: nat, j: nat, t: nat)
    requires j > 0 && t <= 2 * u * Pow2(j) < t + 2 * Pow2(j)
    ensures Steps(2 * u * Pow2(j), t) <= 1 + OnesBound(j + 1)
    decreases j + 1, j + 2, 0
  {
    hide GetSkipHeight, InvertLowestOne, Steps, OnesBound;
    Regroup(u, 2, Pow2(j));
    var e := u * Pow2(j + 1);
    assert e == 2 * u * Pow2(j);
    if t == e {
      StepsDone(e);
    } else {
      assert u > 0;
      SkipEven(u, j + 1);
      Below(u, Pow2(j + 1));
      StepsNext(e, t);
      OnesSteps(u, j + 1, t);
    }
  }

  lemma Below(u: nat, p: nat)
    requires u > 0
    ensures InvertLowestOne(u) * p <= u * p - p
  {
    Monotone(InvertLowestOne(u), u - 1, p);
    Before(u, p);
  }

  // Only one of the ones is left.
  lemma {:induction false} PhaseEnd(u: nat, j: nat, t: nat)
    requires j > 0 && u * (2 * Pow2(j)) <= t <= (2 * u + 1) * Pow2(j)
    ensures Steps((2 * u + 1) * Pow2(j) + 1, t) <= 2 + OnesBound(j)
    decreases j + 1, 0, 1
  {
    hide GetSkipHeight, InvertLowestOne, Steps, NextHeight, OnesBound;
    var p := Pow2(j);
    assert p >= 2 by { assert p == 2 * Pow2(j - 1); }
    OddNext(2 * u + 1, j, t);
    StepsNext((2 * u + 1) * p + 1, t);
    InvertOdd(u);
    if u == 0 && t <= 1 {
      InvertNone();
      StepsOne(1, t);
    } else {
      EndSkip(u, p, t);
      EndEven(u, j, t);
    }
  }

  lemma EndSkip(u: nat, p: nat, t: nat)
    requires p >= 2 && u * (2 * p) <= t && (u > 0 || t > 1)
    ensures InvertLowestOne(2 * u) * p + 1 < t
  {
    if u > 0 {
      InvertDouble(u);
      Below(u, 2 * p);
      Double(InvertLowestOne(u), p);
      Twice(InvertLowestOne(u), p);
    } else {
      InvertNone();
    }
  }

  lemma {:induction false} EndEven(u: nat, j: nat, t: nat)
    requires j > 0 && u * (2 * Pow2(j)) <= t <= (2 * u + 1) * Pow2(j)
    ensures Steps((2 * u + 1) * Pow2(j), t) <= 1 + OnesBound(j)
    decreases j + 1, 0, 0
  {
    hide GetSkipHeight, InvertLowestOne, Steps, OnesBound, NextHeight, NoBetter;
    var e := (2 * u + 1) * Pow2(j);
    Double(u, Pow2(j));
    Twice(u, Pow2(j));
    if t == e {
      StepsDone(e);
    } else {
      EvenNext(u, j, t);
      StepsNext(e, t);
      if t == e - Pow2(j) {
        StepsDone(t);
      } else {
        OnesSteps(2 * u + 1, j, t);
      }
    }
  }

  // ----- the first part of the walk -----

  // The jumps that are still possible below a distance of 2^n when the lowest one is at k.
  function Room(n: nat, k: nat): nat {
    (if k < n then n - k else 0) + if k <= 2 then 2 else 0
  }

  // A height that ends in k ones, at a distance below both 2^k and 2^n.
  lemma OnesAny(y: nat, k: nat, t: nat, n: nat)
    requires y > 0 && t <= y * Pow2(k) - 1 < t + Pow2(k) && y * Pow2(k) - 1 < t + Pow2(n)
    ensures Steps(y * Pow2(k) - 1, t) <= OnesBound(n)
  {
    hide Steps, OnesBound;
    if k <= n {
      OnesSteps(y, k, t);
      OnesBoundGrows(k, n);
    } else {
      Scale(y, k - n, n);
      PositiveProduct(y, Pow2(k - n));
      OnesSteps(y * Pow2(k - n), n, t);
    }
  }

  lemma {:induction false} EvenSteps(x: nat, k: nat, t: nat, n: nat)
    requires k > 0 && t <= (2 * x + 1) * Pow2(k) < t + Pow2(n)
    ensures Steps((2 * x + 1) * Pow2(k), t) <= Room(n, k) + 1 + OnesBound(n)
    decreases (2 * x + 1) * Pow2(k), 0
  {
    hide GetSkipHeight, InvertLowestOne, Steps, OnesBound, NextHeight, NoBetter, Room;
    var h := (2 * x + 1) * Pow2(k);
    if t == h {
      StepsDone(h);
    } else {
      EvenNext(x, k, t);
      StepsNext(h, t);
      if h - Pow2(k) < t {
        OnesAny(2 * x + 1, k, t, n);
      } else {
        PowLess(k, n);
        RoomShrinks(n, k);
        if NextHeight(h, t) == h - Pow2(k) {
          Twice(x, Pow2(k));
          Double(x, Pow2(k));
          EvenAny(x, k + 1, t, n);
        } else {
          RefusedSteps(x, k, t, n);
        }
      }
    }
  }

  lemma RoomShrinks(n: nat, k: nat)
    requires k < n
    ensures forall k' :: k < k' ==> Room(n, k') + 1 <= Room(n, k)
    ensures k <= 2 ==> forall k' :: 4 <= k' ==> Room(n, k') + 3 <= Room(n, k)
  {
  }

  lemma {:induction false} EvenAny(r: nat, c: nat, t: nat, n: nat)
    requires c > 0 && t <= r * Pow2(c) < t + Pow2(n)
    ensures exists k :: k >= c && Steps(r * Pow2(c), t) <= Room(n, k) + 1 + OnesBound(n)
    decreases r * Pow2(c), 1
  {
    hide GetSkipHeight, InvertLowestOne, Steps, OnesBound, NextHeight, Room;
    if r == 0 {
      StepsDone(0);
      assert Steps(r * Pow2(c), t) <= Room(n, c) + 1 + OnesBound(n);
    } else {
      var k, x := LowestOne(r);
      Scale(2 * x + 1, k, c);
      EvenSteps(x, k + c, t, n);
    }
  }

  lemma {:induction false} OddAny(r: nat, c: nat, t: nat, n: nat)
    requires c > 0 && t <= r * Pow2(c) + 1 < t + Pow2(n)
    ensures exists k :: k >= c && Steps(r * Pow2(c) + 1, t) <= Room(n, k) + 2 + OnesBound(n)
    decreases r * Pow2(c) + 1, 1
  {
    hide GetSkipHeight, InvertLowestOne, Steps, OnesBound, NextHeight, Room;
    if r == 0 {
      StepsOne(1, t);
      assert Steps(r * Pow2(c) + 1, t) <= Room(n, c) + 2 + OnesBound(n);
    } else {
      var k, x := LowestOne(r);
      Scale(2 * x + 1, k, c);
      OddSteps(x, k + c, t, n);
    }
  }

  lemma {:induction false} OddSteps(x: nat, k: nat, t: nat, n: nat)
    requires k > 0 && t <= (2 * x + 1) * Pow2(k) + 1 < t + Pow2(n)
    ensures Steps((2 * x + 1) * Pow2(k) + 1, t) <= Room(n, k) + 2 + OnesBound(n)
    decreases (2 * x + 1) * Pow2(k) + 1, 0
  {
    hide GetSkipHeight, InvertLowestOne, Steps, OnesBound, NextHeight, Room;
    var h := (2 * x + 1) * Pow2(k) + 1;
    if t == h {
      StepsDone(h);
    } else {
      OddNext(2 * x + 1, k, t);
      StepsNext(h, t);
      var r := OddJump(x, k);
      if r * Pow2(k + 2) + 1 >= t {
        PowLess(k, n);
        RoomShrinks(n, k);
        OddAny(r, k + 2, t, n);
      } else {
        EvenSteps(x, k, t, n);
      }
    }
  }

  // Two lowest ones removed.
  lemma OddJump(x: nat, k: nat) returns (r: nat)
    ensures InvertLowestOne(InvertLowestOne(2 * x + 1)) * Pow2(k) == r * Pow2(k + 2)
    ensures r * Pow2(k + 2) + Pow2(k) <= (2 * x + 1) * Pow2(k)
  {
    InvertTwice(2 * x + 1);
    InvertOdd(x);
    var i := InvertLowestOne(InvertLowestOne(2 * x + 1));
    assert i <= 2 * x;
    hide InvertLowestOne;
    r := i / 4;
    assert i == 4 * r;
    JumpParts(r, x, Pow2(k));
    assert Pow2(k + 2) == 4 * Pow2(k);
  }

  lemma JumpParts(r: nat, x: nat, p: nat)
    requires 4 * r <= 2 * x
    ensures 4 * r * p == r * (4 * p) && r * (4 * p) + p <= (2 * x + 1) * p
  {
    Monotone(4 * r, 2 * x, p);
    Regroup(r, 4, p);
  }

  // The skip of the parent was better: it is taken next, and clears at least the lowest four bits.
  lemma {:induction false} RefusedSteps(x: nat, k: nat, t: nat, n: nat)
    requires k > 0 && t < (2 * x + 1) * Pow2(k) < t + Pow2(n) && !NoBetter((2 * x + 1) * Pow2(k), k, t)
    ensures k <= 2 && exists k' :: k' >= 4 && Steps((2 * x + 1) * Pow2(k) - 1, t) <= 1 + Room(n, k') + 2 + OnesBound(n)
    decreases (2 * x + 1) * Pow2(k) - 1, 2
  {
    hide GetSkipHeight, InvertLowestOne, Steps, OnesBound, NextHeight, Room;
    var h := (2 * x + 1) * Pow2(k);
    if k >= 3 {
      Eightfold(2 * x + 1, k);
      EightNoBetter((2 * x + 1) * Pow2(k - 3), k, t);
      assert false;
    }
    var r := ParentSkip(x, k, t);
    StepsNext(h - 1, t);
    OddAny(r, 4, t, n);
  }

  lemma ParentSkip(x: nat, k: nat, t: nat) returns (r: nat)
    requires 1 <= k <= 2 && t < (2 * x + 1) * Pow2(k) && !NoBetter((2 * x + 1) * Pow2(k), k, t)
    ensures t < (2 * x + 1) * Pow2(k) - 1 && t <= r * Pow2(4) + 1 < (2 * x + 1) * Pow2(k) - 1
    ensures NextHeight((2 * x + 1) * Pow2(k) - 1, t) == r * Pow2(4) + 1
  {
    hide GetSkipHeight, InvertLowestOne, NextHeight, Pow2;
    PowSmall();
    if k == 1 {
      assert (2 * x + 1) * 2 - 1 == 4 * x + 1;
      r := ParentSkip1(x, t);
    } else {
      assert (2 * x + 1) * 4 - 1 == 8 * x + 3;
      r := ParentSkip2(x, t);
    }
  }

  lemma ParentSkip1(x: nat, t: nat) returns (r: nat)
    requires t <= GetSkipHeight(4 * x + 1) < 4 * x - 2
    ensures GetSkipHeight(4 * x + 1) == 16 * r + 1 && NextHeight(4 * x + 1, t) == 16 * r + 1
  {
    hide GetSkipHeight, InvertLowestOne, NextHeight, Pow2;
    PowSmall();
    InvertTwice(x);
    SkipOdd(x, 2);
    OddNext(x, 2, t);
    r := InvertLowestOne(InvertLowestOne(x)) / 4;
  }

  lemma ParentSkip2(x: nat, t: nat) returns (r: nat)
    requires t <= GetSkipHeight(8 * x + 3) < 8 * x - 2
    ensures GetSkipHeight(8 * x + 3) == 16 * r + 1 && NextHeight(8 * x + 3, t) == 16 * r + 1
  {
    hide GetSkipHeight, InvertLowestOne, NextHeight, Pow2;
    PowSmall();
    InvertTwice(x);
    SkipOdd(4 * x + 1, 1);
    OddNext(4 * x + 1, 1, t);
    InvertOdd(2 * x);
    InvertDouble(2 * x);
    InvertDouble(x);
    r := InvertLowestOne(x) / 2;
  }

  // ----- any height -----

  /** With every skip pointer in place, GetAncestor goes back less than 2^n blocks in at most
      (n * n + 10 * n + 13) / 4 steps. */
  lemma StepsBound(h: nat, t: nat, n: nat)
    requires t <= h < t + Pow2(n)
    ensures 4 * Steps(h, t) <= n * n + 10 * n + 13
  {
    hide GetSkipHeight, InvertLowestOne, Steps, OnesBound, NextHeight, Room;
    OnesBoundClosed(n);
    if t == h {
      StepsDone(h);
    } else {
      RoomFirst(n);
      assert Pow2(1) == 2;
      if h % 2 == 0 {
        EvenAny(h / 2, 1, t, n);
      } else {
        OddAny(h / 2, 1, t, n);
      }
    }
  }

  lemma RoomFirst(n: nat)
    ensures forall k :: k >= 1 ==> Room(n, k) <= n + 1 || n == 0
    ensures Pow2(0) == 1
  {
  }
}
