/**
 * Double hashing in the open-addressing `Hashtable`: a key with hash `h`
 * visits the slots `h`, `h + step`, `h + 2 * step`, ... modulo the table
 * size, where the step is taken from the upper bits of `h`. When the size
 * is prime every step from 1 to `size - 1` visits every slot once in the
 * first `size` probes (`ProbeReaches`).
 *
 * `Find` reduces its index modulo the size at every probe, but `PutImpl`
 * and `Rehash` keep a running `uint` sum `spot += step` and reduce only
 * when they index, so on large tables the sum wraps past 2^32 and those
 * two probe other slots than `Find` does (`SpotAsWritten`,
 * `PutProbeWraps`). The table model probes like `Find` everywhere.
 */
module HashProbe {
  import opened HashPrimes
  import opened Cardinality

  /** The probe step of a hash `h >= 0` in a table of `n` slots:
      `(uint)((h >> 5) + 1) % (n - 1) + 1`. */
  function Step(h: int, n: int): (r: int)
    requires h >= 0 && n >= 2
    ensures 1 <= r <= n - 1
  {
    (h / 32 + 1) % (n - 1) + 1
  }

  /** The slot of the `i`-th probe. */
  function Probe(h: int, step: int, n: int, i: int): (r: int)
    requires n >= 1
    ensures 0 <= r < n
  {
    (h + i * step) % n
  }

  /** Subtracting a multiple of `n` does not change the remainder. */
  lemma ModShift(a: int, k: int, n: int)
    requires n >= 1
    ensures (a - k * n) % n == a % n
  {
    assert a == (a / n) * n + a % n;
    assert a - k * n == (a / n - k) * n + a % n;
    DivModUnique(a - k * n, n, a / n - k, a % n);
  }

  /** `Find`'s update: reducing the index before adding the step lands on
      the next probe. */
  lemma ProbeNext(h: int, step: int, n: int, i: int)
    requires n >= 1
    ensures (Probe(h, step, n, i) + step) % n == Probe(h, step, n, i + 1)
  {
    var a := h + i * step;
    assert a % n == a - (a / n) * n;
    assert h + (i + 1) * step == a + step;
    ModShift(a + step, a / n, n);
  }

  // ---------------------------------------------------------------------
  // The running sum of PutImpl and Rehash, as written
  // ---------------------------------------------------------------------

  const UINT_RANGE: int := 0x1_0000_0000

  /** `spot` after `i` rounds of `spot += step` in `uint`, starting from
      `h`. */
  function SpotAsWritten(h: int, step: int, i: nat): int {
    if i == 0 then h else (SpotAsWritten(h, step, i - 1) + step) % UINT_RANGE
  }

  lemma {:induction false} SpotClosed(h: int, step: int, i: nat)
    requires 0 <= h < UINT_RANGE
    ensures SpotAsWritten(h, step, i) == (h + i * step) % UINT_RANGE
  {
    if i > 0 {
      SpotClosed(h, step, i - 1);
      var a := h + (i - 1) * step;
      assert a % UINT_RANGE == a - (a / UINT_RANGE) * UINT_RANGE;
      assert h + i * step == a + step;
      ModShift(a + step, a / UINT_RANGE, UINT_RANGE);
    } else {
      assert h % UINT_RANGE == h;
    }
  }

  /** On a table of `n == 1215497` slots (an entry of the prime table), a
      key with hash `h == 2147483647` has step 256585; its probe 8370 goes
      to slot 132801 in `PutImpl`, whose running sum has wrapped, but to
      slot 749196 in `Find`. */
  lemma PutProbeWraps(h: int, n: int, i: nat)
    requires h == 2147483647 && n == 1215497 && i == 8370
    ensures Step(h, n) == 256585
    ensures SpotAsWritten(h, Step(h, n), i) % n == 132801
    ensures Probe(h, Step(h, n), n, i) == 749196
  {
    assert h / 32 == 67108863;
    assert (67108863 + 1) % (1215497 - 1) == 256584;
    var step := Step(h, n);
    assert step == 256585;
    SpotClosed(h, step, i);
    assert h + i * step == 4295100097;
    assert 4295100097 % UINT_RANGE == 132801;
    assert 132801 % 1215497 == 132801;
    assert 4295100097 % 1215497 == 749196;
  }

  // ---------------------------------------------------------------------
  // Prime sizes: every slot is probed
  // ---------------------------------------------------------------------

  /** A prime divides no product of two numbers between 0 and itself. */
  lemma {:induction false} NoDiv(p: int, a: int, b: int)
    requires IsPrime(p) && 0 < a < p && 0 < b < p
    ensures !Divides(p, a * b)
    decreases b
  {
    if Divides(p, a * b) {
      var q, r := p / b, p % b;
      assert p == q * b + r;
      if r == 0 {
        if b == 1 {
          DivModUnique(a, p, 0, a);
        } else {
          assert Divides(b, p);
        }
      } else {
        var k := (a * b) / p;
        assert a * b == k * p;
        assert a * r == (a - q * k) * p by {
          assert a * r == a * (p - q * b) == a * p - q * (a * b);
        }
        DivModUnique(a * r, p, a - q * k, 0);
        NoDiv(p, a, r);
      }
    }
  }

  /** With a prime size, the first `n` probes are all different. */
  lemma ProbeInjective(h: int, step: int, n: int, i: int, j: int)
    requires IsPrime(n) && 1 <= step < n && 0 <= i < j < n
    ensures Probe(h, step, n, i) != Probe(h, step, n, j)
  {
    var a, b := h + i * step, h + j * step;
    if a % n == b % n {
      assert b - a == (j - i) * step;
      assert a == (a / n) * n + a % n && b == (b / n) * n + b % n;
      DivModUnique(b - a, n, b / n - a / n, 0);
      NoDiv(n, j - i, step);
    }
  }

  function ProbeSet(h: int, step: int, n: int, m: int): set<int>
    requires n >= 1
  {
    set i | 0 <= i < m :: Probe(h, step, n, i)
  }

  lemma {:induction false} ProbeSetCard(h: int, step: int, n: int, m: int)
    requires IsPrime(n) && 1 <= step < n && 0 <= m <= n
    ensures |ProbeSet(h, step, n, m)| == m
  {
    if m > 0 {
      ProbeSetCard(h, step, n, m - 1);
      assert ProbeSet(h, step, n, m) == ProbeSet(h, step, n, m - 1) + {Probe(h, step, n, m - 1)};
      if Probe(h, step, n, m - 1) in ProbeSet(h, step, n, m - 1) {
        var i :| 0 <= i < m - 1 && Probe(h, step, n, i) == Probe(h, step, n, m - 1);
        ProbeInjective(h, step, n, i, m - 1);
      }
    } else {
      assert ProbeSet(h, step, n, m) == {};
    }
  }

  /** With a prime size, every slot is one of the first `n` probes. */
  lemma ProbeReaches(h: int, step: int, n: int, x: int) returns (i: int)
    requires IsPrime(n) && 1 <= step < n && 0 <= x < n
    ensures 0 <= i < n && Probe(h, step, n, i) == x
  {
    ProbeSetCard(h, step, n, n);
    var s := ProbeSet(h, step, n, n);
    if x !in s {
      assert |s + {x}| == n + 1;
      RangeCard(s + {x}, n);
    }
    i :| 0 <= i < n && Probe(h, step, n, i) == x;
  }
}
