/**
 * benchmark.h computes nanoseconds in binary64 and truncates the result to uint64_t.
 * Every value involved is a natural number, so binary64 is modelled as the naturals whose
 * significand fits 53 bits, and each operation rounds once, to nearest with ties to even
 * (section 4.3.1 of IEEE 754-2019). The exponent range of binary64 is never reached here
 * and is left unbounded.
 */
module TimeArithmetic {
  const TWO52: nat := 0x10_0000_0000_0000
  const TWO53: nat := 0x20_0000_0000_0000
  const TWO62: nat := 0x4000_0000_0000_0000
  const NS_PER_SEC: nat := 1_000_000_000
  /** 1e9 is 2^9 * 1953125: this odd factor is all that a significand has to hold. */
  const NS_FACTOR: nat := 1953125

  // ----- binary64 values -----

  function Pow2(e: nat): (p: nat)
    ensures p > 0
  {
    if e == 0 then 1 else 2 * Pow2(e - 1)
  }

  lemma Pow2Constants()
    ensures Pow2(52) == TWO52 && Pow2(53) == TWO53 && Pow2(62) == TWO62
  {
    assert Pow2(10) == 1024;
    assert Pow2(13) == 8192;
    Pow2Add(13, 13);
    Pow2Add(26, 26);
    Pow2Add(52, 10);
  }

  ghost predicate Representable(x: nat) {
    exists m: nat, e: nat :: IsProduct(x, m, e) && m < TWO53
  }

  predicate IsProduct(x: nat, m: nat, e: nat) {
    x == m * Pow2(e)
  }

  /** The exponent of the unit in the last place of x: how many low bits do not fit. */
  function Exponent(x: nat): (e: nat)
  {
    if x < TWO53 then 0 else 1 + Exponent(x / 2)
  }

  function Ulp(x: nat): (u: nat)
    ensures u > 0
  {
    Pow2(Exponent(x))
  }

  /** The last bit of the significand of a representable x is zero. */
  predicate EvenSignificand(x: nat) {
    x / Ulp(x) % 2 == 0
  }

  function Dist(x: nat, y: nat): nat {
    if x <= y then y - x else x - y
  }

  /** Round to 53 bits, ties to even. */
  function Round53(x: nat): nat {
    var u := Ulp(x);
    var q, r := x / u, x % u;
    if 2 * r < u || (2 * r == u && q % 2 == 0) then q * u else (q + 1) * u
  }

  /** What section 4.3.1 asks of roundTiesToEven, without naming an algorithm. */
  ghost predicate RoundsTiesToEven(x: nat, y: nat) {
    && Representable(y)
    && (forall z: nat | Representable(z) :: Dist(x, y) <= Dist(x, z))
    && (forall z: nat | Representable(z) && z != y && Dist(x, z) == Dist(x, y) :: EvenSignificand(y))
  }

  // ----- helper facts on powers of two and division -----

  lemma {:induction false} Pow2Add(a: nat, b: nat)
    ensures Pow2(a + b) == Pow2(a) * Pow2(b)
  {
    if a > 0 {
      Pow2Add(a - 1, b);
      assert Pow2(a + b) == 2 * Pow2(a - 1 + b);
    }
  }

  lemma {:induction false} Pow2Monotone(a: nat, b: nat)
    requires a <= b
    ensures Pow2(a) <= Pow2(b)
  {
    if a < b {
      Pow2Monotone(a, b - 1);
    }
  }

  lemma DivStep(x: int, q: int, u: int)
    requires u > 0 && q * u <= x < (q + 1) * u
    ensures x / u == q && x % u == x - q * u
  {
    var q' := x / u;
    var r' := x % u;
    assert x == q' * u + r' && 0 <= r' < u;
    assert (q' + 1) * u == q' * u + u;
    if q' < q {
      MulMonotone(q' + 1, q, u);
    } else if q' > q {
      MulMonotone(q + 1, q', u);
    }
  }

  lemma MulMonotone(a: int, b: int, u: int)
    requires a <= b && u >= 0
    ensures a * u <= b * u
  {
  }

  lemma DivMod(x: int, u: int)
    requires u > 0
    ensures x == x / u * u + x % u && 0 <= x % u < u
    ensures x / u * u <= x < (x / u + 1) * u
  {
  }

  lemma {:induction false} ExponentBounds(x: nat)
    ensures x < TWO53 * Ulp(x)
    ensures Exponent(x) > 0 ==> TWO52 * Ulp(x) <= x
  {
    if x >= TWO53 {
      ExponentBounds(x / 2);
      assert Ulp(x) == 2 * Ulp(x / 2);
    }
  }

  /** The significand x / Ulp(x) has exactly 53 bits unless x itself is shorter. */
  lemma SignificandRange(x: nat)
    ensures x / Ulp(x) < TWO53
    ensures Exponent(x) > 0 ==> TWO52 <= x / Ulp(x)
  {
    var u := Ulp(x);
    var q := x / u;
    ExponentBounds(x);
    DivMod(x, u);
    if q >= TWO53 {
      MulMonotone(TWO53, q, u);
    } else if Exponent(x) > 0 && q < TWO52 {
      MulMonotone(q + 1, TWO52, u);
    }
  }

  /** The exponent of a normalized product is the one it was written with. */
  lemma {:induction false} ExponentOfProduct(m: nat, e: nat)
    requires TWO52 <= m < TWO53
    ensures Exponent(m * Pow2(e)) == e
  {
    if e > 0 {
      ExponentOfProduct(m, e - 1);
      var y := m * Pow2(e - 1);
      assert Pow2(e - 1) >= 1;
      MulMonotone(1, Pow2(e - 1), m);
      assert y >= TWO52;
      assert m * Pow2(e) == 2 * y;
      assert (2 * y) / 2 == y;
    }
  }

  lemma SmallExponent(x: nat)
    requires Exponent(x) == 0
    ensures x < TWO53 && Ulp(x) == 1 && x / Ulp(x) == x && x % Ulp(x) == 0
  {
  }

  lemma MakeRepresentable(m: nat, e: nat)
    requires m <= TWO53
    ensures Representable(m * Pow2(e))
  {
    if m < TWO53 {
      assert IsProduct(m * Pow2(e), m, e);
    } else {
      assert Pow2(e + 1) == 2 * Pow2(e);
      assert m * Pow2(e) == TWO52 * Pow2(e + 1);
      assert IsProduct(m * Pow2(e), TWO52, e + 1);
    }
  }

  // ----- rounding is the nearest representable value -----

  /** The two neighbours of x: its truncation and the next multiple of its unit. */
  function Below(x: nat): nat {
    x / Ulp(x) * Ulp(x)
  }

  function Above(x: nat): nat {
    Below(x) + Ulp(x)
  }

  lemma Neighbours(x: nat)
    ensures Representable(Below(x)) && Representable(Above(x))
    ensures Below(x) <= x < Above(x)
  {
    var u, q := Ulp(x), x / Ulp(x);
    SignificandRange(x);
    DivMod(x, u);
    MakeRepresentable(q, Exponent(x));
    Distribute(q, u);
    MakeRepresentable(q + 1, Exponent(x));
  }

  lemma RoundIsNeighbour(x: nat)
    ensures Round53(x) == Below(x) || Round53(x) == Above(x)
  {
  }

  lemma NothingBetween(x: nat, z: nat)
    requires Representable(z)
    ensures z <= Below(x) || Above(x) <= z
  {
    var u, q, e := Ulp(x), x / Ulp(x), Exponent(x);
    assert (q + 1) * u == Above(x);
    if Below(x) < z < Above(x) {
      var m: nat, f: nat :| IsProduct(z, m, f) && m < TWO53;
      SignificandRange(x);
      if f >= e {
        Pow2Add(f - e, e);
        var c := m * Pow2(f - e);
        assert z == c * u;
        if c <= q {
          MulMonotone(c, q, u);
        } else {
          MulMonotone(q + 1, c, u);
        }
      } else {
        Pow2Monotone(f, e - 1);
        MulMonotone(m, TWO53, Pow2(f));
        MulMonotone(Pow2(f), Pow2(e - 1), TWO53);
        assert u == 2 * Pow2(e - 1);
        MulMonotone(TWO52, q, u);
      }
    }
  }

  lemma DivExact(m: nat, u: nat)
    requires u > 0
    ensures m * u / u == m
  {
    assert (m + 1) * u == m * u + u;
    DivStep(m * u, m, u);
  }

  lemma ParityOfProduct(y: nat, m: nat, e: nat)
    requires TWO52 <= m < TWO53 && IsProduct(y, m, e)
    ensures EvenSignificand(y) <==> m % 2 == 0
  {
    ExponentOfProduct(m, e);
    DivExact(m, Pow2(e));
  }

  lemma ParityOfNext(lo: nat, hi: nat, q: nat, e: nat)
    requires TWO52 <= q < TWO53 - 1 && IsProduct(lo, q, e) && hi == lo + Pow2(e)
    ensures EvenSignificand(hi) <==> (q + 1) % 2 == 0
  {
    assert IsProduct(hi, q + 1, e) by { Distribute(q, Pow2(e)); }
    ParityOfProduct(hi, q + 1, e);
  }

  /** Past the largest significand the next value starts a binade. */
  lemma ParityOfCarry(lo: nat, hi: nat, e: nat)
    requires IsProduct(lo, TWO53 - 1, e) && hi == lo + Pow2(e)
    ensures EvenSignificand(hi)
  {
    assert IsProduct(hi, TWO52, e + 1);
    ParityOfProduct(hi, TWO52, e + 1);
  }

  lemma EvenOdd(q: nat)
    ensures (q + 1) % 2 == 0 <==> q % 2 == 1
  {
  }

  lemma ParityOfNeighbours(lo: nat, hi: nat, q: nat, e: nat)
    requires TWO52 <= q < TWO53 && IsProduct(lo, q, e) && hi == lo + Pow2(e)
    ensures EvenSignificand(lo) <==> q % 2 == 0
    ensures EvenSignificand(hi) <==> q % 2 == 1
  {
    ParityOfProduct(lo, q, e);
    if q < TWO53 - 1 {
      ParityOfNext(lo, hi, q, e);
      EvenOdd(q);
    } else {
      ParityOfCarry(lo, hi, e);
    }
  }

  lemma SignificandParity(x: nat)
    requires Exponent(x) > 0
    ensures EvenSignificand(Below(x)) <==> x / Ulp(x) % 2 == 0
    ensures EvenSignificand(Above(x)) <==> x / Ulp(x) % 2 == 1
  {
    SignificandRange(x);
    ParityOfNeighbours(Below(x), Above(x), x / Ulp(x), Exponent(x));
  }

  lemma Distribute(q: nat, u: nat)
    ensures (q + 1) * u == q * u + u
  {
  }

  /** Round53 is exactly the rounding the standard describes: it meets it, and nothing else does. */
  lemma CorrectRounding(x: nat, y: nat)
    ensures RoundsTiesToEven(x, y) <==> y == Round53(x)
  {
    Neighbours(x);
    RoundIsNeighbour(x);
    var u := Ulp(x);
    DivMod(x, u);
    forall z: nat | Representable(z) ensures z <= Below(x) || Above(x) <= z {
      NothingBetween(x, z);
    }
    if Exponent(x) == 0 {
      SmallExponent(x);
      assert Below(x) == x;
      assert Round53(x) == x;
    } else {
      SignificandParity(x);
      assert Above(x) == (x / u + 1) * u;
    }
    assert RoundsTiesToEven(x, y) ==> Dist(x, y) <= Dist(x, Below(x)) && Dist(x, y) <= Dist(x, Above(x));
    if y == Below(x) || y == Above(x) {
      RoundOfNeighbour(x, y);
    }
  }

  lemma RoundOfNeighbour(x: nat, y: nat)
    requires y == Below(x) || y == Above(x)
    ensures RoundsTiesToEven(x, y) <==> y == Round53(x)
  {
    Neighbours(x);
    RoundIsNeighbour(x);
    var u := Ulp(x);
    DivMod(x, u);
    forall z: nat | Representable(z) ensures z <= Below(x) || Above(x) <= z {
      NothingBetween(x, z);
    }
    var other := if y == Below(x) then Above(x) else Below(x);
    assert Above(x) == (x / u + 1) * u;
    if Exponent(x) == 0 {
      SmallExponent(x);
    } else {
      SignificandParity(x);
    }
    assert RoundsTiesToEven(x, y) ==> Dist(x, y) <= Dist(x, other);
    assert RoundsTiesToEven(x, y) && Dist(x, y) == Dist(x, other) ==> EvenSignificand(y);
  }

  lemma RoundExact(x: nat)
    requires Representable(x)
    ensures Round53(x) == x
  {
    Neighbours(x);
    RoundIsNeighbour(x);
    NothingBetween(x, x);
    var u := Ulp(x);
    DivMod(x, u);
  }

  lemma SmallRepresentable(x: nat)
    requires x < TWO53
    ensures Representable(x) && Round53(x) == x
  {
    assert Pow2(0) == 1;
    assert IsProduct(x, x, 0);
    RoundExact(x);
  }

  lemma RoundRepresentable(x: nat)
    ensures Representable(Round53(x))
    ensures Below(x) <= Round53(x) <= Above(x)
    ensures 2 * Dist(x, Round53(x)) <= Ulp(x)
    ensures Exponent(x) == 0 ==> Round53(x) == x
  {
    Neighbours(x);
    RoundIsNeighbour(x);
    DivMod(x, Ulp(x));
    assert Above(x) == (x / Ulp(x) + 1) * Ulp(x);
    if Exponent(x) == 0 {
      SmallExponent(x);
    }
  }

  lemma RoundMonotone(x: nat, y: nat)
    requires x <= y
    ensures Round53(x) <= Round53(y)
  {
    RoundRepresentable(x);
    RoundRepresentable(y);
    CorrectRounding(x, Round53(x));
    CorrectRounding(y, Round53(y));
    // Were they out of order, each would be at least as near to the other's argument.
    assert Dist(x, Round53(x)) <= Dist(x, Round53(y));
    assert Dist(y, Round53(y)) <= Dist(y, Round53(x));
  }

  // ----- timespec_to_ns -----

  datatype Timespec = Timespec(sec: nat, nsec: nat) {
    predicate Valid() {
      nsec < NS_PER_SEC
    }

    /** The instant this timespec denotes, in exact nanoseconds. */
    function Exact(): nat {
      sec * NS_PER_SEC + nsec
    }

    /** Below this bound sec * 1e9 needs no more than 53 significant bits. */
    predicate InRange() {
      Valid() && sec * NS_PER_SEC < TWO62
    }
  }

  function OfNs(ns: nat): (ts: Timespec)
    ensures ts.Valid() && ts.Exact() == ns
  {
    Timespec(ns / NS_PER_SEC, ns % NS_PER_SEC)
  }

  /** tv_sec is converted, multiplied by 1e9 and added to the converted tv_nsec, rounding each time. */
  function TimespecToNs(ts: Timespec): nat {
    Round53(Round53(Round53(ts.sec) * NS_PER_SEC) + Round53(ts.nsec))
  }

  /** The same expression contracted to one fused multiply-add. */
  function TimespecToNsFused(ts: Timespec): nat {
    Round53(Round53(ts.sec) * NS_PER_SEC + Round53(ts.nsec))
  }

  lemma ProductExact(sec: nat)
    requires sec * NS_PER_SEC < TWO62
    ensures Round53(sec) == sec && Round53(sec * NS_PER_SEC) == sec * NS_PER_SEC
  {
    SmallRepresentable(sec);
    var m := sec * NS_FACTOR;
    assert Pow2(9) == 512;
    assert sec * NS_PER_SEC == m * 512;
    assert IsProduct(sec * NS_PER_SEC, m, 9);
    RoundExact(sec * NS_PER_SEC);
  }

  /** In range the three roundings are one, whether or not the compiler fuses them. */
  lemma SingleRounding(ts: Timespec)
    requires ts.InRange()
    ensures TimespecToNs(ts) == Round53(ts.Exact())
    ensures TimespecToNsFused(ts) == TimespecToNs(ts)
    ensures RoundsTiesToEven(ts.Exact(), TimespecToNs(ts))
    ensures ts.Exact() < TWO53 ==> TimespecToNs(ts) == ts.Exact()
  {
    ProductExact(ts.sec);
    SmallRepresentable(ts.nsec);
    CorrectRounding(ts.Exact(), TimespecToNs(ts));
    if ts.Exact() < TWO53 {
      SmallRepresentable(ts.Exact());
    }
  }

  /** Out of range too, two roundings cost at most half a unit in the last place each. */
  lemma ToNsError(ts: Timespec)
    requires ts.Valid() && ts.sec < TWO53
    ensures 2 * Dist(TimespecToNs(ts), ts.Exact())
              <= Ulp(ts.sec * NS_PER_SEC) + Ulp(Round53(ts.sec * NS_PER_SEC) + ts.nsec)
  {
    SmallRepresentable(ts.sec);
    SmallRepresentable(ts.nsec);
    RoundRepresentable(ts.sec * NS_PER_SEC);
    RoundRepresentable(Round53(ts.sec * NS_PER_SEC) + ts.nsec);
  }

  /** The first second out of range already has a timespec that is rounded twice. */
  const DOUBLY_ROUNDED := Timespec(4611686019, 513)

  lemma DoubleRounding()
    ensures DOUBLY_ROUNDED.Valid()
    ensures TimespecToNs(DOUBLY_ROUNDED) != Round53(DOUBLY_ROUNDED.Exact())
    ensures TimespecToNs(DOUBLY_ROUNDED) != TimespecToNsFused(DOUBLY_ROUNDED)
  {
    SmallRepresentable(4611686019);
    SmallRepresentable(513);
    assert Pow2(10) == 1024;
    assert Round53(4611686019000000000) == 4611686019000000512 by {
      RoundAt(4611686019000000000, 4503599627929687, 10);
    }
    assert Round53(4611686019000001025) == 4611686019000001536 by {
      RoundAt(4611686019000001025, 4503599627929688, 10);
    }
    assert Round53(4611686019000000513) == 4611686019000000512 by {
      RoundAt(4611686019000000513, 4503599627929688, 10);
    }
  }

  /** Evaluates Round53 at a number whose significand and exponent are known. */
  lemma RoundAt(x: nat, q: nat, e: nat)
    requires TWO52 <= q < TWO53 && q * Pow2(e) <= x < (q + 1) * Pow2(e)
    ensures Ulp(x) == Pow2(e) && x / Ulp(x) == q && x % Ulp(x) == x - q * Pow2(e)
  {
    ExponentUnique(x, q, e);
    DivStep(x, q, Pow2(e));
  }

  lemma {:induction false} ExponentUnique(x: nat, q: nat, e: nat)
    requires TWO52 <= q < TWO53 && q * Pow2(e) <= x < (q + 1) * Pow2(e)
    ensures Exponent(x) == e
  {
    if e == 0 {
      assert Pow2(0) == 1;
    } else {
      assert Pow2(e) == 2 * Pow2(e - 1);
      var u := Pow2(e - 1);
      assert q * Pow2(e) == 2 * (q * u) && (q + 1) * Pow2(e) == 2 * ((q + 1) * u);
      MulMonotone(1, u, q);
      assert x >= 2 * q >= TWO53;
      ExponentUnique(x / 2, q, e - 1);
    }
  }

  /** So one rounding is guaranteed up to a given uptime exactly when that uptime is in range. */
  lemma SingleRoundingIffInRange(uptime: nat)
    ensures (forall ts: Timespec | ts.Valid() && ts.sec <= uptime :: TimespecToNs(ts) == Round53(ts.Exact()))
       <==> uptime * NS_PER_SEC < TWO62
  {
    if uptime * NS_PER_SEC < TWO62 {
      forall ts: Timespec | ts.Valid() && ts.sec <= uptime
        ensures TimespecToNs(ts) == Round53(ts.Exact())
      {
        SingleRounding(ts);
      }
    } else {
      DoubleRounding();
      assert DOUBLY_ROUNDED.sec <= uptime;
    }
  }

  // ----- differences -----

  predicate NotAfter(a: Timespec, b: Timespec) {
    a.sec < b.sec || (a.sec == b.sec && a.nsec <= b.nsec)
  }

  lemma NotAfterIsExact(a: Timespec, b: Timespec)
    requires a.Valid() && b.Valid()
    ensures NotAfter(a, b) <==> a.Exact() <= b.Exact()
  {
  }

  lemma ToNsMonotone(a: Timespec, b: Timespec)
    requires a.InRange() && b.InRange() && NotAfter(a, b)
    ensures TimespecToNs(a) <= TimespecToNs(b)
  {
    NotAfterIsExact(a, b);
    SingleRounding(a);
    SingleRounding(b);
    RoundMonotone(a.Exact(), b.Exact());
  }

  /** k is the floor of log2 of x. */
  predicate InBinade(x: nat, k: nat) {
    Pow2(k) <= x < Pow2(k + 1)
  }

  lemma BinadeUlp(x: nat, k: nat)
    requires k >= 52 && InBinade(x, k)
    ensures Exponent(x) == k - 52 && Ulp(x) == Pow2(k - 52)
  {
    var e := k - 52;
    Pow2Constants();
    Pow2Add(52, e);
    Pow2Add(53, e);
    var u := Pow2(e);
    DivMod(x, u);
    var q := x / u;
    if q < TWO52 {
      MulMonotone(q + 1, TWO52, u);
      assert false;
    }
    if q >= TWO53 {
      MulMonotone(TWO53, q, u);
      assert false;
    }
    ExponentUnique(x, q, e);
  }

  lemma {:induction false} ExponentMonotone(x: nat, y: nat)
    requires x <= y
    ensures Exponent(x) <= Exponent(y)
    decreases y
  {
    if x >= TWO53 {
      ExponentMonotone(x / 2, y / 2);
    }
  }

  /** assert(start_ns < end_ns) either passes, or the process aborts. */
  datatype Diff = Elapsed(ns: nat) | AssertionFailed

  function TimeDiff(start: Timespec, end: Timespec): Diff {
    var startNs, endNs := TimespecToNs(start), TimespecToNs(end);
    if startNs < endNs then Elapsed(endNs - startNs) else AssertionFailed
  }

  /** time_diff returns the difference of the two converted readings, and aborts iff it is not positive. */
  lemma DiffOfReadings(a: Timespec, b: Timespec)
    ensures TimeDiff(a, b).AssertionFailed? <==> TimespecToNs(b) <= TimespecToNs(a)
    ensures TimeDiff(a, b).Elapsed? ==> TimeDiff(a, b).ns > 0 && TimespecToNs(a) + TimeDiff(a, b).ns == TimespecToNs(b)
  {
  }

  /** On a clock that does not decrease it aborts iff both readings convert to the same number. */
  lemma AssertionFailsIff(a: Timespec, b: Timespec)
    requires a.InRange() && b.InRange() && NotAfter(a, b)
    ensures TimeDiff(a, b).AssertionFailed? <==> TimespecToNs(a) == TimespecToNs(b)
  {
    ToNsMonotone(a, b);
  }

  /** With k the floor of log2 of the end reading, the two roundings cost at most 2^(k-52) ns. */
  lemma DiffError(a: Timespec, b: Timespec, k: nat)
    requires a.InRange() && b.InRange() && NotAfter(a, b)
    requires k >= 53 && InBinade(b.Exact(), k)
    ensures TimespecToNs(a) <= TimespecToNs(b)
    ensures Dist(TimespecToNs(b) - TimespecToNs(a), b.Exact() - a.Exact()) <= Pow2(k - 52)
    ensures TimeDiff(a, b).Elapsed? ==> Dist(TimeDiff(a, b).ns, b.Exact() - a.Exact()) <= Pow2(k - 52)
  {
    ToNsMonotone(a, b);
    NotAfterIsExact(a, b);
    SingleRounding(a);
    SingleRounding(b);
    RoundRepresentable(a.Exact());
    RoundRepresentable(b.Exact());
    BinadeUlp(b.Exact(), k);
    ExponentMonotone(a.Exact(), b.Exact());
    Pow2Monotone(Exponent(a.Exact()), k - 52);
  }

  /** In the first 2^53 ns of uptime time_diff is exact, and aborts only on a clock that stood still. */
  lemma DiffExactBelow53Bits(a: Timespec, b: Timespec)
    requires a.Valid() && b.Valid() && NotAfter(a, b) && b.Exact() < TWO53
    ensures TimeDiff(a, b) == if a.Exact() < b.Exact() then Elapsed(b.Exact() - a.Exact()) else AssertionFailed
  {
  }

  /** Every pair of readings that lies d apart and ends in binade k passes the assertion. */
  ghost predicate AssertionSafe(k: nat, d: nat) {
    forall a: Timespec, b: Timespec
      | a.InRange() && b.InRange() && b.Exact() == a.Exact() + d && InBinade(b.Exact(), k)
      :: TimeDiff(a, b).Elapsed?
  }

  /** Past 2^53 ns a strictly advancing clock is not enough: the assertion is safe exactly for gaps
      longer than one unit in the last place. */
  lemma AssertionSafeIff(k: nat, d: nat)
    requires 53 <= k < 62
    ensures AssertionSafe(k, d) <==> d > Pow2(k - 52)
  {
    if d > Pow2(k - 52) {
      forall a: Timespec, b: Timespec
        | a.InRange() && b.InRange() && b.Exact() == a.Exact() + d && InBinade(b.Exact(), k)
        ensures TimeDiff(a, b).Elapsed?
      {
        NotAfterIsExact(a, b);
        DiffError(a, b, k);
      }
    } else {
      var a, b := SwallowedGap(k, d);
      assert TimeDiff(a, b).AssertionFailed?;
    }
  }

  /** The second even significand of binade k, and the half unit on either side of it. */
  lemma MiddleOfBinade(k: nat) returns (mid: nat, half: nat)
    requires 53 <= k < 62
    ensures mid == (TWO52 + 2) * Pow2(k - 52) && half == Pow2(k - 53) && Pow2(k - 52) == 2 * half
    ensures Pow2(k) <= mid - half && mid + half < Pow2(k + 1) <= TWO62
  {
    var u := Pow2(k - 52);
    half := Pow2(k - 53);
    mid := (TWO52 + 2) * u;
    Pow2Constants();
    Pow2Add(52, k - 52);
    Pow2Add(53, k - 52);
    Pow2Monotone(k + 1, 62);
  }

  /** Two readings d apart, around one even significand, that round to the same value. */
  lemma SwallowedGap(k: nat, d: nat) returns (a: Timespec, b: Timespec)
    requires 53 <= k < 62 && d <= Pow2(k - 52)
    ensures a.InRange() && b.InRange() && b.Exact() == a.Exact() + d && InBinade(b.Exact(), k)
    ensures TimespecToNs(a) == TimespecToNs(b)
  {
    var mid, half := MiddleOfBinade(k);
    var x, y := mid + half - d, mid + half;
    assert Round53(x) == mid && Round53(y) == mid by {
      RoundsToMiddle(x, TWO52 + 2, k - 52);
      RoundsToMiddle(y, TWO52 + 2, k - 52);
    }
    a, b := OfNs(x), OfNs(y);
    assert TimespecToNs(a) == mid by { SingleRounding(a); }
    assert TimespecToNs(b) == mid by { SingleRounding(b); }
  }

  lemma RoundsToMiddle(x: nat, m: nat, e: nat)
    requires e > 0 && TWO52 < m < TWO53 && m % 2 == 0
    requires m * Pow2(e) - Pow2(e - 1) <= x <= m * Pow2(e) + Pow2(e - 1)
    ensures Round53(x) == m * Pow2(e)
  {
    var u := Pow2(e);
    assert (m + 1) * u == m * u + u;
    assert (m - 1) * u == m * u - u;
    if x >= m * u {
      RoundAt(x, m, e);
    } else {
      RoundAt(x, m - 1, e);
    }
  }
}
