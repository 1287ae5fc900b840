/**
 * The table sizes of the open-addressing `Hashtable`: a fixed list of
 * primes, and past its end a search for the next prime by trial division.
 *
 * `TestPrime` as the source writes it stops its trial divisions one short
 * of the square root and never rejects 1, so it accepts 1, 9, 15, 25, ...;
 * `TrialAsWritten` models that loop and `TestPrimeAcceptsSquares` exhibits
 * the composites it lets through. The `TestPrime` method below is the
 * corrected test, proved to decide primality, and it is the one
 * `CalcPrime` uses. `CalcPrimeAsWritten` is the search with the source's
 * test, and `CalcPrimeAsWrittenComposite` shows it returning a composite.
 */
module HashPrimes {

  /** `Int32.MaxValue`, the bound of `CalcPrime`'s search. */
  const MAX_INT: int := 0x7FFF_FFFF

  /** The `primeTbl` of the source, in increasing order. */
  const PrimeTable: seq<int> := [
    11, 19, 37, 73, 109, 163, 251, 367, 557, 823, 1237, 1861, 2777, 4177,
    6247, 9371, 14057, 21089, 31627, 47431, 71143, 106721, 160073, 240101,
    360163, 540217, 810343, 1215497, 1823231, 2734867, 4102283, 6153409,
    9230113, 13845163 ]

  /** The last and largest entry of `PrimeTable`. */
  const LAST_PRIME: int := 13845163

  predicate Divides(d: int, x: int) {
    d != 0 && x % d == 0
  }

  ghost predicate IsPrime(x: int) {
    x >= 2 && forall d :: 2 <= d < x ==> !Divides(d, x)
  }

  /** `(int)Math.Sqrt(x)`: the integer square root, rounded down. */
  function ISqrt(x: nat): (r: nat)
    ensures r * r <= x < (r + 1) * (r + 1)
  {
    if x < 4 then (if x == 0 then 0 else 1)
    else
      var q := ISqrt(x / 4);
      ISqrtStep(x, q);
      if (2 * q + 1) * (2 * q + 1) <= x then 2 * q + 1 else 2 * q
  }

  lemma ISqrtStep(x: nat, q: nat)
    requires q * q <= x / 4 < (q + 1) * (q + 1)
    ensures (2 * q) * (2 * q) <= x < (2 * q + 2) * (2 * q + 2)
  {
    var y := x / 4;
    assert x == 4 * y + x % 4;
    assert (2 * q) * (2 * q) == 4 * (q * q);
    assert (2 * q + 2) * (2 * q + 2) == 4 * ((q + 1) * (q + 1));
    assert (q + 1) * (q + 1) >= y + 1;
  }

  // ---------------------------------------------------------------------
  // TestPrime as written
  // ---------------------------------------------------------------------

  /** No odd `n` with `from <= n < top` divides `x`: the loop
      `for (n = from; n < top; n += 2)` of the source. */
  function NoOddFactorBelow(x: int, from: int, top: int): bool
    requires from >= 1
    decreases top - from
  {
    if from >= top then true else x % from != 0 && NoOddFactorBelow(x, from + 2, top)
  }

  /** `TestPrime` as the source writes it: an odd `x` passes when no odd
      number from 3 up to, but not including, its square root divides it;
      an even `x` passes only when it is 2. */
  function TrialAsWritten(x: nat): bool {
    if x % 2 != 0 then NoOddFactorBelow(x, 3, ISqrt(x)) else x == 2
  }

  /** The source's test lets composites through: 9, 15 and 25 pass, and so
      does 1. */
  lemma TestPrimeAcceptsSquares()
    ensures TrialAsWritten(9) && !IsPrime(9)
    ensures TrialAsWritten(15) && !IsPrime(15)
    ensures TrialAsWritten(25) && !IsPrime(25)
    ensures TrialAsWritten(1) && !IsPrime(1)
  {
    assert ISqrt(2) == 1 && ISqrt(3) == 1 && ISqrt(6) == 2;
    assert ISqrt(9) == 3 && ISqrt(15) == 3 && ISqrt(25) == 5;
    assert Divides(3, 9) && Divides(3, 15) && Divides(5, 25);
  }

  // ---------------------------------------------------------------------
  // TestPrime, corrected
  // ---------------------------------------------------------------------

  lemma MulMono(a: int, b: int, c: int, d: int)
    requires 0 <= c <= a && 0 <= d <= b
    ensures c * d <= a * b
  {
    assert c * d <= a * d;
    assert a * d <= a * b;
  }

  /** Euclidean division is unique. */
  lemma DivModUnique(a: int, e: int, q: int, r: int)
    requires e > 0 && a == q * e + r && 0 <= r < e
    ensures a / e == q && a % e == r
  {
    var q2, r2 := a / e, a % e;
    assert a == q2 * e + r2;
    assert (q - q2) * e == r2 - r;
    if q > q2 {
      MulMono(q - q2, e, 1, e);
    } else if q < q2 {
      MulMono(q2 - q, e, 1, e);
    }
  }

  lemma DivExact(x: int, d: int)
    requires d > 0 && Divides(d, x)
    ensures x == d * (x / d) && x / d * d == x
    ensures x / d > 0 ==> Divides(x / d, x) && x / (x / d) == d
  {
    var e := x / d;
    assert x == e * d + x % d;
    if e > 0 {
      DivModUnique(x, e, d, 0);
    }
  }

  lemma EvenProduct(h: int, e: int)
    ensures (2 * h * e) % 2 == 0
  {
    assert 2 * h * e == 2 * (h * e);
  }

  /** A divisor of an odd number is odd, and so is its cofactor. */
  lemma OddDivisor(x: int, d: int)
    requires x % 2 == 1 && d > 0 && Divides(d, x)
    ensures d % 2 == 1 && x == d * (x / d)
    ensures x / d > 0 ==> Divides(x / d, x) && x / (x / d) == d
  {
    DivExact(x, d);
    var e := x / d;
    if d % 2 == 0 {
      EvenProduct(d / 2, e);
    }
  }

  /** No odd number from 3 up to `n` (exclusive) divides `x`. */
  ghost predicate NoOddFactor(x: int, n: int) {
    forall d :: 3 <= d < n && d % 2 == 1 ==> !Divides(d, x)
  }

  /** An odd `x >= 3` with no odd factor from 3 up to its square root is
      prime. */
  lemma OddPrimeByTrial(x: int, top: nat, n: int)
    requires x >= 3 && x % 2 == 1 && top * top <= x < (top + 1) * (top + 1)
    requires NoOddFactor(x, n) && n > top
    ensures IsPrime(x)
  {
    forall d | 2 <= d < x
      ensures !Divides(d, x)
    {
      if Divides(d, x) {
        OddDivisor(x, d);
        var e := x / d;
        if e <= 1 {
          MulMono(d, 1, d, e);
        } else {
          OddDivisor(x, e);
          if d > top && e > top {
            MulMono(d, e, top + 1, top + 1);
          }
        }
      }
    }
  }

  /** A divisor found by the trial loop shows that `x` is not prime. */
  lemma FoundDivisor(x: int, top: int, n: int)
    requires top * top <= x && 3 <= n <= top && x % n == 0
    ensures !IsPrime(x)
  {
    MulMono(top, top, 3, top);
    assert Divides(n, x) && 2 <= n < x;
  }

  /** `TestPrime(x)`, corrected: odd divisors are tried up to and including
      the square root, and 1 is not prime. */
  method TestPrime(x: int) returns (r: bool)
    requires x >= 0
    ensures r <==> IsPrime(x)
  {
    if x % 2 != 0 {
      if x == 1 {
        return false;
      }
      var top := ISqrt(x);
      var n := 3;
      while n <= top
        invariant 3 <= n && n % 2 == 1
        invariant NoOddFactor(x, n)
      {
        if x % n == 0 {
          FoundDivisor(x, top, n);
          return false;
        }
        TrialStep(x, n);
        n := n + 2;
      }
      OddPrimeByTrial(x, top, n);
      return true;
    }
    EvenPrime(x);
    return x == 2;
  }

  /** One more odd number tried without finding a divisor. */
  lemma TrialStep(x: int, n: int)
    requires n % 2 == 1 && x % n != 0 && NoOddFactor(x, n)
    ensures NoOddFactor(x, n + 2)
  {
    forall d | 3 <= d < n + 2 && d % 2 == 1
      ensures !Divides(d, x)
    {
      if d >= n {
        assert d == n;
      }
    }
  }

  /** 2 is the only even prime. */
  lemma EvenPrime(x: int)
    requires x >= 0 && x % 2 == 0
    ensures IsPrime(x) <==> x == 2
  {
    if x != 2 && x >= 2 {
      assert Divides(2, x);
    }
  }

  // ---------------------------------------------------------------------
  // CalcPrime and ToPrime
  // ---------------------------------------------------------------------

  /** The first prime among `i`, `i + 2`, ... below `Int32.MaxValue`, or
      `x` when there is none. */
  ghost function CalcPrimeFrom(x: int, i: int): int
    requires i >= 1
    decreases MAX_INT - i
  {
    if i >= MAX_INT then x else if IsPrime(i) then i else CalcPrimeFrom(x, i + 2)
  }

  /** Where `CalcPrime(x)` starts: `(x & ~1) - 1`, the odd number before
      `x` rounded down to even. */
  function CalcStart(x: int): (r: int)
    requires x >= 2
    ensures r >= 1 && r % 2 == 1 && x - 2 <= r < x
  {
    x - x % 2 - 1
  }

  ghost function CalcPrimeSpec(x: int): int
    requires x >= 2
  {
    CalcPrimeFrom(x, CalcStart(x))
  }

  /** What the search finds: a prime from its start on with no prime of
      the same parity before it, or `x` itself when it runs out. */
  lemma {:induction false} CalcPrimeFromFinds(x: int, i: int)
    requires i >= 1
    ensures var r := CalcPrimeFrom(x, i); r == x || (IsPrime(r) && i <= r)
    decreases MAX_INT - i
  {
    if i < MAX_INT && !IsPrime(i) {
      CalcPrimeFromFinds(x, i + 2);
    }
  }

  /** `CalcPrime(x)`: tries the odd numbers from `CalcStart(x)` upwards
      with `TestPrime`, and falls back to `x` at `Int32.MaxValue`. */
  method CalcPrime(x: int) returns (r: int)
    requires x >= 2
    ensures r == CalcPrimeSpec(x)
    ensures r == x || (IsPrime(r) && x - 2 <= r)
  {
    CalcPrimeFromFinds(x, CalcStart(x));
    var i := CalcStart(x);
    while i < MAX_INT
      invariant i >= 1 && CalcPrimeFrom(x, i) == CalcPrimeSpec(x)
      decreases MAX_INT - i
    {
      var p := TestPrime(i);
      if p {
        return i;
      }
      i := i + 2;
    }
    return x;
  }

  /** The search of `CalcPrime` with the test the source writes: the first
      of `i`, `i + 2`, ... below `Int32.MaxValue` that `TrialAsWritten`
      passes, or `x` when there is none. */
  function CalcFromAsWritten(x: int, i: int): (r: int)
    requires i >= 1
    ensures r == x || (i <= r < MAX_INT && TrialAsWritten(r))
    decreases MAX_INT - i
  {
    if i >= MAX_INT then x else if TrialAsWritten(i) then i else CalcFromAsWritten(x, i + 2)
  }

  /** `CalcPrime(x)` as the source writes it. */
  function CalcPrimeAsWritten(x: int): (r: int)
    requires x >= 2
    ensures r == x || (CalcStart(x) <= r < MAX_INT && TrialAsWritten(r))
  {
    CalcFromAsWritten(x, CalcStart(x))
  }

  /** With the source's test, `CalcPrime(11)` starts at `(11 & ~1) - 1 = 9`
      and returns the composite 9; the corrected search returns 11. */
  lemma CalcPrimeAsWrittenComposite()
    ensures CalcStart(11) == 9
    ensures CalcPrimeAsWritten(11) == 9 && !IsPrime(9)
    ensures CalcPrimeSpec(11) == 11 && IsPrime(11)
  {
    TestPrimeAcceptsSquares();
    assert IsPrime(11) by {
      forall d | 2 <= d < 11
        ensures !Divides(d, 11)
      {
        assert d == 2 || d == 3 || d == 4 || d == 5 || d == 6 || d == 7 || d == 8 || d == 9 || d == 10;
      }
    }
    assert CalcPrimeFrom(11, 11) == 11;
  }

  /** The first table entry from index `i` on that is at least `x`, or
      `CalcPrime(x)` past the end. */
  ghost function ToPrimeFrom(x: int, i: nat): int
    requires x > LAST_PRIME || exists j :: i <= j < |PrimeTable| && x <= PrimeTable[j]
    decreases |PrimeTable| - i
  {
    if i >= |PrimeTable| then CalcPrimeSpec(x)
    else if x <= PrimeTable[i] then PrimeTable[i]
    else ToPrimeFrom(x, i + 1)
  }

  lemma TableBounds()
    ensures |PrimeTable| == 34 && PrimeTable[33] == LAST_PRIME
    ensures forall i :: 0 <= i < 33 ==> PrimeTable[i] < PrimeTable[i + 1]
  {
  }

  ghost function ToPrimeSpec(x: int): int {
    TableBounds();
    ToPrimeFrom(x, 0)
  }

  /** `ToPrime(x)`: the smallest table entry at least `x`, and
      `CalcPrime(x)` past the table. */
  method ToPrime(x: int) returns (r: int)
    ensures r == ToPrimeSpec(x)
  {
    TableBounds();
    var i := 0;
    while i < |PrimeTable|
      invariant 0 <= i <= |PrimeTable|
      invariant x > LAST_PRIME || exists j :: i <= j < |PrimeTable| && x <= PrimeTable[j]
      invariant ToPrimeFrom(x, i) == ToPrimeSpec(x)
    {
      if x <= PrimeTable[i] {
        return PrimeTable[i];
      }
      i := i + 1;
    }
    r := CalcPrime(x);
  }

  lemma {:induction false} ToPrimeFromTable(x: int, i: nat)
    requires x <= LAST_PRIME && i < |PrimeTable|
    requires forall j :: 0 <= j < i ==> PrimeTable[j] < x
    requires exists j :: i <= j < |PrimeTable| && x <= PrimeTable[j]
    ensures var r := ToPrimeFrom(x, i);
      x <= r && exists j :: 0 <= j < |PrimeTable| && PrimeTable[j] == r && forall m :: 0 <= m < j ==> PrimeTable[m] < x
    decreases |PrimeTable| - i
  {
    if x > PrimeTable[i] {
      ToPrimeFromTable(x, i + 1);
    }
  }

  /** Within the table, `ToPrime(x)` is the smallest entry that is at
      least `x`; past it, it is `CalcPrime(x)`. */
  lemma ToPrimeSmallest(x: int)
    ensures x <= LAST_PRIME ==> exists j :: 0 <= j < |PrimeTable| && PrimeTable[j] == ToPrimeSpec(x) && x <= PrimeTable[j] && forall m :: 0 <= m < j ==> PrimeTable[m] < x
    ensures x > LAST_PRIME ==> ToPrimeSpec(x) == CalcPrimeSpec(x)
  {
    TableBounds();
    if x <= LAST_PRIME {
      assert x <= PrimeTable[33];
      ToPrimeFromTable(x, 0);
    } else {
      ToPrimeFromPast(x, 0);
    }
  }

  lemma {:induction false} ToPrimeFromPast(x: int, i: nat)
    requires x > LAST_PRIME && i <= |PrimeTable|
    ensures ToPrimeFrom(x, i) == CalcPrimeSpec(x)
    decreases |PrimeTable| - i
  {
    TableBounds();
    if i < |PrimeTable| {
      assert PrimeTable[i] <= LAST_PRIME;
      ToPrimeFromPast(x, i + 1);
    }
  }

  /** The size the table grows to is never more than 2 below the size
      asked for, so a table that asks for `2 * n + 1` slots gets more
      than `n`. */
  lemma ToPrimeAtLeast(x: int)
    requires x >= 2
    ensures ToPrimeSpec(x) >= x - 2
  {
    ToPrimeSmallest(x);
    if x > LAST_PRIME {
      CalcPrimeFromFinds(x, CalcStart(x));
    }
  }
}
