/** The arithmetic of a wrapping selection counter: which of n candidates a run of selections
    picks, and how often. */
module RoundRobin {

  // The counter is an unsigned 64-bit integer.
  const WRAP: nat := 0x1_0000_0000_0000_0000

  // How many of the numbers in [0, m) leave remainder r when divided by n.
  function Below(n: nat, r: nat, m: nat): (c: nat)
    requires r < n
  {
    if m == 0 then 0 else Below(n, r, m - 1) + if (m - 1) % n == r then 1 else 0
  }

  // How many of the m selections from counter value s on pick candidate r of n.
  function Picked(n: nat, r: nat, s: nat, m: nat): (c: nat)
    requires r < n
  {
    if m == 0 then 0 else Picked(n, r, s, m - 1) + if (s + (m - 1)) % WRAP % n == r then 1 else 0
  }

  lemma DivisionStep(x: nat, n: nat)
    requires n > 0
    ensures (x + 1) / n == x / n + (if (x + 1) % n == 0 then 1 else 0)
  {
    var q, t := x / n, x % n;
    assert x == q * n + t;
    if t == n - 1 {
      assert x + 1 == (q + 1) * n + 0;
      QuotientIs(x + 1, n, q + 1, 0);
    } else {
      QuotientIs(x + 1, n, q, t + 1);
    }
  }

  lemma QuotientIs(x: int, n: nat, q: int, t: nat)
    requires t < n && x == q * n + t
    ensures x / n == q && x % n == t
  {
    var d := x / n - q;
    assert d * n == t - x % n by { assert x == (x / n) * n + x % n; }
    MultipleIsFar(d, n);
  }

  lemma MultipleIsFar(d: int, n: int)
    requires n >= 0
    ensures d >= 1 ==> d * n >= n
    ensures d <= -1 ==> d * n <= -n
  {
  }

  lemma ShiftedRemainder(n: nat, r: nat, m: nat)
    requires r < n
    ensures (m + n - r) % n == 0 <==> m % n == r
  {
    var q, t := m / n, m % n;
    assert m == q * n + t;
    if t >= r {
      assert m + n - r == (q + 1) * n + (t - r);
      QuotientIs(m + n - r, n, q + 1, t - r);
    } else {
      QuotientIs(m + n - r, n, q, n + t - r);
    }
  }

  lemma {:induction false} BelowIs(n: nat, r: nat, m: nat)
    requires r < n
    ensures Below(n, r, m) == (m + n - 1 - r) / n
  {
    if m == 0 {
      QuotientIs(n - 1 - r, n, 0, n - 1 - r);
    } else {
      BelowIs(n, r, m - 1);
      DivisionStep(m - 1 + n - 1 - r, n);
      ShiftedRemainder(n, r, m - 1);
    }
  }

  lemma BelowWrap(x: nat)
    ensures x < WRAP ==> x % WRAP == x
    ensures WRAP <= x < 2 * WRAP ==> x % WRAP == x - WRAP
  {
  }

  lemma AddMultiple(x: int, n: nat, j: int)
    requires n > 0
    ensures (x + j * n) / n == x / n + j && (x + j * n) % n == x % n
  {
    var q, t := x / n, x % n;
    assert x + j * n == (q + j) * n + t by { assert x == q * n + t; }
    QuotientIs(x + j * n, n, q + j, t);
  }

  lemma Distribute(a: int, b: int, n: int)
    ensures (a - b) * n == a * n - b * n && (a + b) * n == a * n + b * n
  {
  }

  // The counter values left of position x, on the line on which the counter does not wrap, that
  // pick candidate r: all of [0, WRAP) once for every wrap, and the rest.
  function Line(n: nat, r: nat, x: nat): nat
    requires r < n
  {
    x / WRAP * Below(n, r, WRAP) + Below(n, r, x % WRAP)
  }

  lemma LineStep(n: nat, r: nat, x: nat)
    requires r < n
    ensures Line(n, r, x + 1) == Line(n, r, x) + if x % WRAP % n == r then 1 else 0
  {
    var q, b := x / WRAP, x % WRAP;
    var all := Below(n, r, WRAP);
    if b + 1 < WRAP {
      assert (x + 1) / WRAP == q && (x + 1) % WRAP == b + 1;
    } else {
      assert (x + 1) / WRAP == q + 1 && (x + 1) % WRAP == 0;
      Distribute(q, 1, all);
      assert Below(n, r, WRAP) == Below(n, r, b) + if b % n == r then 1 else 0;
    }
  }

  lemma {:induction false} PickedIs(n: nat, r: nat, s: nat, m: nat)
    requires r < n && s < WRAP
    ensures Picked(n, r, s, m) == Line(n, r, s + m) - Below(n, r, s)
  {
    if m == 0 {
      assert s / WRAP == 0 && s % WRAP == s;
    } else {
      PickedIs(n, r, s, m - 1);
      LineStep(n, r, s + (m - 1));
      assert s + (m - 1) + 1 == s + m;
    }
  }

  // Candidate r has one more than the full rounds below x if its turn comes in the last one.
  function Turn(n: nat, r: nat, x: nat): nat
    requires r < n
  {
    if r < x % n then 1 else 0
  }

  lemma BelowSplit(n: nat, r: nat, x: nat)
    requires r < n
    ensures Below(n, r, x) == x / n + Turn(n, r, x)
  {
    BelowIs(n, r, x);
    var a, t := x / n, x % n;
    assert x == a * n + t;
    if r < t {
      Distribute(a, 1, n);
      QuotientIs(x + n - 1 - r, n, a + 1, t - 1 - r);
    } else {
      QuotientIs(x + n - 1 - r, n, a, n - 1 - (r - t));
    }
  }

  // What every candidate gets alike, and what candidate r gets on top, from s to e.
  function Alike(n: nat, s: nat, e: nat): int
    requires n > 0
  {
    e / WRAP * (WRAP / n) + e % WRAP / n - s / n
  }

  function OnTop(n: nat, r: nat, s: nat, e: nat): int
    requires r < n
  {
    e / WRAP * Turn(n, r, WRAP) + Turn(n, r, e % WRAP) - Turn(n, r, s)
  }

  lemma PickedSplit(n: nat, r: nat, s: nat, m: nat)
    requires r < n && s < WRAP
    ensures Picked(n, r, s, m) == Alike(n, s, s + m) + OnTop(n, r, s, s + m)
  {
    var q := (s + m) / WRAP;
    PickedIs(n, r, s, m);
    BelowSplit(n, r, WRAP);
    BelowSplit(n, r, (s + m) % WRAP);
    BelowSplit(n, r, s);
    hide Below, Turn;
    assert q * (WRAP / n + Turn(n, r, WRAP)) == q * (WRAP / n) + q * Turn(n, r, WRAP);
  }

  // The remainders account for what k rounds have over or under the common share.
  lemma RemaindersAdd(n: nat, s: nat, k: nat)
    requires n > 0
    ensures var e := s + k * n;
      k * n == Alike(n, s, e) * n + e / WRAP * (WRAP % n) + e % WRAP % n - s % n
  {
    var e := s + k * n;
    var q, w, b := e / WRAP, WRAP / n, e % WRAP;
    assert e == q * WRAP + b;
    assert q * WRAP == q * (w * n) + q * (WRAP % n) by {
      assert WRAP == w * n + WRAP % n;
      ProductOfSum(q, w * n, WRAP % n);
    }
    assert b == b / n * n + b % n && s == s / n * n + s % n;
    AlikeTimes(q, w, b / n, s / n, n);
  }

  lemma ProductOfSum(q: int, a: int, b: int)
    ensures q * (a + b) == q * a + q * b
  {
  }

  lemma AlikeTimes(q: int, w: int, b: int, s: int, n: int)
    ensures (q * w + b - s) * n == q * (w * n) + b * n - s * n
  {
    Distribute(q * w + b, s, n);
    Distribute(q * w, b, n);
  }

  ghost predicate Fair(n: nat, s: nat, k: nat) {
    forall r: nat :: r < n ==> Picked(n, r, s, k * n) == k
  }

  // The counter does not wrap, or every wrap falls on a round, or the only one does.
  predicate WrapsOnRounds(n: nat, s: nat, k: nat)
    requires n > 0
  {
    s + k * n <= WRAP || WRAP % n == 0 || (s + k * n < 2 * WRAP && (WRAP - s) % n == 0)
  }

  lemma RangeOfRounds(n: nat, s: nat, k: nat)
    requires n > 0 && WRAP % n == 0
    ensures (s + k * n) % WRAP % n == s % n
  {
    var e := s + k * n;
    var q, w := e / WRAP, WRAP / n;
    AddMultiple(s, n, k);
    AddMultiple(e, n, 0 - q * w);
    assert e % WRAP == e + (0 - q * w) * n by {
      assert e == q * WRAP + e % WRAP;
      BackByRounds(q, w, n);
    }
  }

  // What the last partial rounds on either side of a wrap leave.
  lemma RemaindersMatch(n: nat, s: nat, k: nat)
    requires n > 0 && s < WRAP && WrapsOnRounds(n, s, k)
    ensures var e := s + k * n;
      || (e / WRAP == 0 && e % WRAP % n == s % n)
      || (WRAP % n == 0 && e % WRAP % n == s % n)
      || (e / WRAP == 1 && WRAP % n == s % n && e % WRAP % n == 0)
  {
    var e := s + k * n;
    if WRAP % n == 0 {
      RangeOfRounds(n, s, k);
    } else if e < WRAP {
      assert e / WRAP == 0 && e % WRAP == e;
      AddMultiple(s, n, k);
    } else {
      if e == WRAP { QuotientIs(WRAP - s, n, k, 0); }
      assert e / WRAP == 1;
      OnlyWrapOnARound(n, s, k);
    }
  }

  lemma SharesAreEqual(n: nat, r: nat, s: nat, k: nat)
    requires r < n && s < WRAP && WrapsOnRounds(n, s, k)
    ensures OnTop(n, r, s, s + k * n) == 0
  {
    RemaindersMatch(n, s, k);
    var q := (s + k * n) / WRAP;
    if Turn(n, r, WRAP) == 0 { assert q * Turn(n, r, WRAP) == 0; }
  }

  lemma BackByRounds(q: int, w: int, n: int)
    ensures (0 - q * w) * n == -(q * (w * n))
  {
  }

  lemma OnlyWrapOnARound(n: nat, s: nat, k: nat)
    requires n > 0 && s < WRAP && (s + k * n) / WRAP == 1 && (WRAP - s) % n == 0
    ensures WRAP % n == s % n && (s + k * n) % WRAP % n == 0
  {
    var j := (WRAP - s) / n;
    assert WRAP == s + j * n;
    AddMultiple(s, n, j);
    Distribute(k, j, n);
    assert (s + k * n) % WRAP == (k - j) * n;
    QuotientIs((k - j) * n, n, k - j, 0);
  }

  lemma CancelFactor(a: int, b: int, n: nat)
    requires n > 0 && a * n == b * n
    ensures a == b
  {
    Distribute(a, b, n);
    MultipleIsFar(a - b, n);
  }

  lemma CommonShareIs(n: nat, s: nat, k: nat)
    requires n > 0 && s < WRAP && WrapsOnRounds(n, s, k)
    ensures Alike(n, s, s + k * n) == k
  {
    RemaindersMatch(n, s, k);
    RemaindersAdd(n, s, k);
    hide Alike;
    CancelFactor(k, Alike(n, s, s + k * n), n);
  }

  // The last candidate never has a turn on top, so the first must not have one either.
  lemma FairMeansNothingOnTop(n: nat, s: nat, k: nat)
    requires n > 0 && s < WRAP && Fair(n, s, k)
    ensures Alike(n, s, s + k * n) == k && OnTop(n, 0, s, s + k * n) == 0
  {
    var e := s + k * n;
    PickedSplit(n, n - 1, s, k * n);
    PickedSplit(n, 0, s, k * n);
    assert Picked(n, n - 1, s, k * n) == k && Picked(n, 0, s, k * n) == k;
    hide Alike, Picked;
    LastHasNothingOnTop(n, s, e);
  }

  lemma LastHasNothingOnTop(n: nat, s: nat, e: nat)
    requires n > 0
    ensures OnTop(n, n - 1, s, e) == 0
  {
    assert Turn(n, n - 1, WRAP) == Turn(n, n - 1, e % WRAP) == Turn(n, n - 1, s) == 0;
  }

  lemma OneWrapAtMost(n: nat, s: nat, e: nat)
    requires n > 0 && OnTop(n, 0, s, e) == 0 && WRAP % n != 0 && e >= WRAP
    ensures e / WRAP == 1 && e % WRAP % n == 0
  {
    assert Turn(n, 0, WRAP) == 1;
  }

  lemma UnequalOtherwise(n: nat, s: nat, k: nat)
    requires n > 0 && s < WRAP && Fair(n, s, k)
    ensures WrapsOnRounds(n, s, k)
  {
    var e := s + k * n;
    FairMeansNothingOnTop(n, s, k);
    if WRAP % n != 0 && e > WRAP {
      OneWrapAtMost(n, s, e);
      RemaindersAdd(n, s, k);
      hide Alike, Fair, OnTop;
      SameRemainder(n, s);
    }
  }

  lemma SameRemainder(n: nat, s: nat)
    requires n > 0
    ensures WRAP % n == s % n && s <= WRAP ==> (WRAP - s) % n == 0
  {
    if WRAP % n == s % n && s <= WRAP {
      Distribute(WRAP / n, s / n, n);
      QuotientIs(WRAP - s, n, WRAP / n - s / n, 0);
    }
  }

  /** k rounds over n candidates from counter value s pick each exactly k times if and only if the
      counter does not wrap on the way, or n divides its range, or it wraps once and on a round. */
  lemma FairExactlyWhen(n: nat, s: nat, k: nat)
    requires n > 0 && s < WRAP
    ensures Fair(n, s, k) <==> WrapsOnRounds(n, s, k)
  {
    if WrapsOnRounds(n, s, k) {
      CommonShareIs(n, s, k);
      forall r: nat | r < n ensures Picked(n, r, s, k * n) == k {
        SharesAreEqual(n, r, s, k);
        PickedSplit(n, r, s, k * n);
      }
    } else if Fair(n, s, k) {
      UnequalOtherwise(n, s, k);
    }
  }
}
