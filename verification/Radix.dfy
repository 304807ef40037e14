/**
 Numbers as digits in any base, most significant first, and the growth bounds behind the buffer sizes of
 src/base58.cpp.
 */
module Radix {
  import opened ArithModel

  function Power(b: nat, n: nat): nat {
    if n == 0 then 1 else b * Power(b, n - 1)
  }

  function Val(s: seq<nat>, b: nat): nat {
    if s == [] then 0 else Val(s[..|s| - 1], b) * b + s[|s| - 1]
  }

  // The digits of a number, without leading zeros.
  function Digits(n: nat, b: nat): seq<nat>
    requires b > 1
    decreases n
  {
    if n == 0 then [] else
    Smaller(n, b);
    Digits(Quo(n, b), b) + [Rem(n, b)]
  }

  lemma Smaller(n: nat, b: nat)
    requires n > 0 && b > 1
    ensures Quo(n, b) < n
  {
    QuoRem(n, b);
    Monotone(2, b, Quo(n, b));
  }

  ghost predicate AreDigits(s: seq<nat>, b: nat) {
    forall i :: 0 <= i < |s| ==> s[i] < b
  }

  // No leading zero.
  ghost predicate IsMinimal(s: seq<nat>) {
    s == [] || s[0] != 0
  }

  lemma {:induction false} DigitsOk(n: nat, b: nat)
    requires b > 1
    ensures AreDigits(Digits(n, b), b) && IsMinimal(Digits(n, b)) && Val(Digits(n, b), b) == n
    decreases n
  {
    hide Quo, Rem;
    if n > 0 {
      Smaller(n, b);
      QuoRem(n, b);
      DigitsOk(Quo(n, b), b);
      var d, s := Rem(n, b), Digits(Quo(n, b), b);
      assert (s + [d])[..|s|] == s;
    }
  }

  lemma {:induction false} ValPositive(s: seq<nat>, b: nat)
    requires b > 1 && s != [] && s[0] != 0
    ensures Val(s, b) > 0
  {
    if |s| > 1 {
      ValPositive(s[..|s| - 1], b);
      Monotone(1, Val(s[..|s| - 1], b), b);
    }
  }

  /** Digits without a leading zero are the digits of their value. */
  lemma {:induction false} DigitsUnique(s: seq<nat>, b: nat)
    requires b > 1 && AreDigits(s, b) && IsMinimal(s)
    ensures Digits(Val(s, b), b) == s
    decreases |s|
  {
    hide Quo, Rem;
    if s != [] {
      var s', d := s[..|s| - 1], s[|s| - 1];
      DigitsUnique(s', b);
      ValPositive(s, b);
      QuoRem(Val(s, b), b);
      assert Quo(Val(s, b), b) == Val(s', b) && Rem(Val(s, b), b) == d by { LastDigit(Val(s', b), d, b); }
      assert s == s' + [d];
    }
  }

  lemma LastDigit(v: nat, d: nat, b: nat)
    requires d < b
    ensures Quo(v * b + d, b) == v && Rem(v * b + d, b) == d
  {
    ModUnique(d, v, b);
  }

  lemma ValLast(s: seq<nat>, d: nat, b: nat)
    ensures Val(s + [d], b) == Val(s, b) * b + d && Val([], b) == 0
  {
    assert (s + [d])[..|s|] == s;
  }

  lemma FirstSum(d: int, p: int, v: int, b: int, last: int)
    ensures (d * p + v) * b + last == d * (b * p) + (v * b + last)
  {
    Distrib(d * p, v, b);
    Commute(d, p, b);
    Commute(p, b, d);
  }

  lemma {:induction false} ValFirst(d: nat, s: seq<nat>, b: nat)
    ensures Val([d] + s, b) == d * Power(b, |s|) + Val(s, b)
    decreases |s|
  {
    hide Val, Power;
    if s == [] {
      ValLast([], d, b);
      PowerStep(b, 0);
      assert [d] + s == [] + [d];
    } else {
      var s', last := s[..|s| - 1], s[|s| - 1];
      ValFirst(d, s', b);
      assert [d] + s == ([d] + s') + [last] && s == s' + [last];
      ValLast([d] + s', last, b);
      ValLast(s', last, b);
      PowerStep(b, |s'|);
      FirstSum(d, Power(b, |s'|), Val(s', b), b, last);
    }
  }

  lemma {:induction false} ValZeros(s: seq<nat>, t: seq<nat>, b: nat)
    requires forall i :: 0 <= i < |s| ==> s[i] == 0
    ensures Val(s + t, b) == Val(t, b)
    decreases |s|
  {
    hide Val, Power;
    if s == [] {
      assert s + t == t;
    } else {
      ValZeros(s[1..], t, b);
      ValFirst(0, s[1..] + t, b);
      assert s + t == [0] + (s[1..] + t);
    }
  }

  lemma {:induction false} ValBound(s: seq<nat>, b: nat)
    requires b > 1 && AreDigits(s, b)
    ensures Val(s, b) < Power(b, |s|)
    decreases |s|
  {
    hide Val, Power;
    if s == [] {
      ValLast([], 0, b);
      PowerStep(b, 0);
    } else {
      var s', last := s[..|s| - 1], s[|s| - 1];
      ValBound(s', b);
      assert s == s' + [last];
      ValLast(s', last, b);
      PowerStep(b, |s'|);
      Fits(last, Val(s', b), b, Power(b, |s'|));
    }
  }

  // ----- powers -----

  lemma {:induction false} PowerAdd(b: nat, m: nat, n: nat)
    ensures Power(b, m + n) == Power(b, m) * Power(b, n)
    decreases m
  {
    if m > 0 {
      PowerAdd(b, m - 1, n);
      Assoc(b, Power(b, m - 1), Power(b, n));
    }
  }

  lemma {:induction false} PowerMul(b: nat, m: nat, n: nat)
    ensures Power(Power(b, m), n) == Power(b, m * n)
    decreases n
  {
    if n > 0 {
      PowerMul(b, m, n - 1);
      PowerAdd(b, m, m * (n - 1));
      Distrib(n - 1, 1, m);
    }
  }

  lemma {:induction false} PowerPositive(b: nat, n: nat)
    requires b > 0
    ensures Power(b, n) > 0
  {
    if n > 0 {
      PowerPositive(b, n - 1);
      Monotone(1, b, Power(b, n - 1));
    }
  }

  lemma {:induction false} PowerMonotone(a: nat, b: nat, n: nat)
    requires a <= b
    ensures Power(a, n) <= Power(b, n)
  {
    if n > 0 {
      PowerMonotone(a, b, n - 1);
      Monotone(Power(a, n - 1), Power(b, n - 1), a);
      Monotone(a, b, Power(b, n - 1));
    }
  }

  lemma {:induction false} PowerGrows(b: nat, m: nat, n: nat)
    requires b > 0 && m <= n
    ensures Power(b, m) <= Power(b, n)
    decreases n
  {
    if m < n {
      PowerGrows(b, m, n - 1);
      PowerPositive(b, n - 1);
      Monotone(1, b, Power(b, n - 1));
    }
  }

  lemma {:induction false} PowerStrict(a: nat, b: nat, n: nat)
    requires a < b && n > 0
    ensures Power(a, n) < Power(b, n)
  {
    if n > 1 {
      PowerStrict(a, b, n - 1);
      Monotone(Power(a, n - 1), Power(b, n - 1), a);
      PowerPositive(b, n - 1);
      Monotone(a + 1, b, Power(b, n - 1));
      Distrib(a, 1, Power(b, n - 1));
    }
  }

  // Comparing numbers by comparing powers of them.
  lemma RootMonotone(a: nat, b: nat, n: nat)
    requires n > 0 && Power(a, n) <= Power(b, n)
    ensures a <= b
  {
    if a > b {
      PowerStrict(b, a, n);
    }
  }

  lemma Power58()
    ensures Power(58, 11) == 24986644000165537792
  {
    assert Power(58, 2) == 3364;
    PowerAdd(58, 2, 2);
    PowerAdd(58, 4, 4);
    PowerAdd(58, 8, 2);
    assert Power(58, 11) == 58 * Power(58, 10);
  }

  lemma Power2()
    ensures Power(2, 64) == 18446744073709551616
  {
    assert Power(2, 4) == 16;
    PowerAdd(2, 4, 4);
    PowerAdd(2, 8, 8);
    PowerAdd(2, 16, 16);
    PowerAdd(2, 32, 32);
  }

  // 2^64 <= 58^11 and 58^22 <= 2^129.
  lemma Constants()
    ensures Power(2, 64) <= Power(58, 11) && Power(58, 22) <= Power(2, 129)
  {
    hide Power;
    Power58();
    Power2();
    PowerAdd(58, 11, 11);
    PowerAdd(2, 64, 64);
    assert Power(2, 129) == 2 * Power(2, 128) by { PowerStep(2, 128); }
  }

  lemma PowerStep(b: nat, n: nat)
    ensures Power(b, 0) == 1 && Power(b, n + 1) == b * Power(b, n)
  {
  }

  lemma Power256(n: nat)
    ensures Power(256, n) == Power(2, 8 * n)
  {
    assert Power(2, 8) == 256;
    PowerMul(2, 8, n);
  }

  /** The buffer for n bytes in base 58 is large enough. */
  lemma EncodeFits(n: nat)
    ensures Power(256, n) <= Power(58, n * 138 / 100 + 1)
  {
    hide Power;
    var s := n * 138 / 100 + 1;
    Constants();
    Power256(n);
    PowerMul(2, 8 * n, 8);
    PowerMul(2, 64, n);
    PowerMul(58, 11, n);
    PowerMul(58, s, 8);
    PowerMonotone(Power(2, 64), Power(58, 11), n);
    PowerGrows(58, 11 * n, s * 8);
    RootMonotone(Power(256, n), Power(58, s), 8);
  }

  /** The buffer for n characters in base 256 is large enough. */
  lemma DecodeFits(n: nat)
    ensures Power(58, n) <= Power(256, n * 733 / 1000 + 1)
  {
    hide Power;
    var s := n * 733 / 1000 + 1;
    Constants();
    Power256(s);
    PowerMul(58, n, 22);
    PowerMul(58, 22, n);
    PowerMul(2, 129, n);
    PowerMul(2, 8 * s, 22);
    PowerMonotone(Power(58, 22), Power(2, 129), n);
    PowerGrows(2, 129 * n, 8 * s * 22);
    RootMonotone(Power(58, n), Power(256, s), 22);
  }
}
