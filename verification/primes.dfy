/** The five trial-division prime generators of cpp-meetup/primes.cpp. Each
    appends to a vector of `int` passed by reference; here the vector goes in
    as a value and comes back extended. */
module Primes {
  import opened Wrappers

  // ---------------------------------------------------------------- arithmetic

  predicate IsPrime(k: int) {
    k >= 2 && forall d :: 2 <= d < k ==> k % d != 0
  }

  function Sq(x: int): int { x * x }

  lemma MulSign(e: int, x: int)
    requires e > 0
    ensures x >= 1 ==> e * x >= e
    ensures x <= -1 ==> e * x <= -e
  {
  }

  lemma ModOfMultiple(e: int, m: int)
    requires e > 0
    ensures (e * m) % e == 0
  {
    var q, r := (e * m) / e, (e * m) % e;
    assert e * m == e * q + r && 0 <= r < e;
    assert e * (m - q) == r;
    MulSign(e, m - q);
  }

  lemma DividesTransitive(e: int, r: int, p: int)
    requires e > 0 && r > 0 && r % e == 0 && p % r == 0
    ensures p % e == 0
  {
    var a, b := r / e, p / r;
    assert r == e * a;
    assert p == r * b;
    assert p == e * (a * b);
    ModOfMultiple(e, a * b);
  }

  /** The least divisor of `p` from `from` on. */
  function LeastDivisor(p: int, from: int): (d: int)
    requires 2 <= from <= p
    ensures from <= d <= p && p % d == 0
    ensures forall e :: from <= e < d ==> p % e != 0
    decreases p - from
  {
    if p % from == 0 then from else LeastDivisor(p, from + 1)
  }

  lemma SquareMonotone(a: int, b: int)
    requires 0 < a <= b
    ensures Sq(a) <= Sq(b)
  {
    assert a * a <= a * b <= b * b;
  }

  /** The least divisor of a number is prime. */
  lemma LeastDivisorPrime(p: int)
    requires p >= 2
    ensures IsPrime(LeastDivisor(p, 2))
  {
    var d := LeastDivisor(p, 2);
    forall e | 2 <= e < d
      ensures d % e != 0
    {
      if d % e == 0 {
        DividesTransitive(e, d, p);
      }
    }
  }

  /** The least divisor of a number other than the number itself has a
      square not above it: its cofactor is a divisor too, so no smaller. */
  lemma LeastDivisorSquare(p: int)
    requires p >= 2 && LeastDivisor(p, 2) < p
    ensures Sq(LeastDivisor(p, 2)) <= p
  {
    var d := LeastDivisor(p, 2);
    var m := p / d;
    assert p == d * m;
    MulSign(d, m - 1);
    assert m >= 2;
    ModOfMultiple(m, d);
    assert p == m * d;
    assert p % m == 0;
    assert d <= m;
    assert d * d <= d * m;
  }

  /** A number that is not prime has a prime factor whose square does not
      exceed it. */
  lemma SmallPrimeFactor(p: int)
    requires p >= 2 && !IsPrime(p)
    ensures exists d :: IsPrime(d) && d < p && Sq(d) <= p && p % d == 0
  {
    var d := LeastDivisor(p, 2);
    var e0 :| 2 <= e0 < p && p % e0 == 0;
    assert d <= e0 < p;
    LeastDivisorPrime(p);
    LeastDivisorSquare(p);
  }

  // ---------------------------------------------------------------- the primes below n

  /** The primes in `[2, n)`, in ascending order. */
  function PrimesBelow(n: int): seq<int>
    decreases n
  {
    if n <= 2 then [] else PrimesBelow(n - 1) + (if IsPrime(n - 1) then [n - 1] else [])
  }

  predicate Ascending(q: seq<int>) {
    forall a, b :: 0 <= a < b < |q| ==> q[a] < q[b]
  }

  predicate Positive(q: seq<int>) {
    forall k :: 0 <= k < |q| ==> q[k] > 0
  }

  /** `PrimesBelow(n)` is ascending and holds every prime below `n` and
      nothing else. */
  lemma {:induction false} PrimesBelowSpec(n: int)
    ensures Ascending(PrimesBelow(n))
    ensures forall k :: 0 <= k < |PrimesBelow(n)| ==> IsPrime(PrimesBelow(n)[k]) && PrimesBelow(n)[k] < n
    ensures forall x :: IsPrime(x) && x < n ==> x in PrimesBelow(n)
    decreases n
  {
    if n > 2 {
      PrimesBelowSpec(n - 1);
    }
  }

  // ---------------------------------------------------------------- std::find_if

  /** The first position from `from` on whose element's square exceeds `p`,
      or `|q|`: the `find_if` of the search boundary. */
  function FirstSquareAbove(q: seq<int>, from: nat, p: int): (r: nat)
    requires from <= |q|
    ensures from <= r <= |q|
    ensures forall k :: from <= k < r ==> Sq(q[k]) <= p
    ensures r < |q| ==> Sq(q[r]) > p
    decreases |q| - from
  {
    if from == |q| || Sq(q[from]) > p then from else FirstSquareAbove(q, from + 1, p)
  }

  /** No element before position `b` divides `p`. */
  predicate NoDivisorBefore(q: seq<int>, b: nat, p: int)
    requires b <= |q| && Positive(q)
  {
    forall k :: 0 <= k < b ==> p % q[k] != 0
  }

  /** The first position before `b` whose element divides `p`, or `b`: the
      `find_if` of the divisor. */
  function FirstDivisor(q: seq<int>, b: nat, p: int): (r: nat)
    requires b <= |q| && Positive(q)
    ensures r <= b
    ensures r == b <==> NoDivisorBefore(q, b, p)
    ensures r < b ==> p % q[r] == 0
  {
    if b == 0 then 0
    else
      var r := FirstDivisor(q, b - 1, p);
      if r < b - 1 then r else if p % q[b - 1] == 0 then b - 1 else b
  }

  /** The search boundary may resume where the last one stopped, as long as
      every element before it still has a square not above `p`: it is then
      the first position overall whose square exceeds `p`. */
  lemma {:induction false} ResumeSearch(q: seq<int>, from: nat, p: int)
    requires from <= |q|
    requires forall k :: 0 <= k < from ==> Sq(q[k]) <= p
    ensures FirstSquareAbove(q, from, p) == FirstSquareAbove(q, 0, p)
    decreases from
  {
    if from > 0 {
      ResumeSearch(q, from - 1, p);
    }
  }

  /** The boundary does not move back as `p` grows and the vector is
      extended. */
  lemma {:induction false} BoundaryGrows(q: seq<int>, q': seq<int>, p: int, p': int)
    requires p <= p' && |q| <= |q'| && q'[..|q|] == q
    ensures FirstSquareAbove(q, 0, p) <= FirstSquareAbove(q', 0, p')
  {
    assert forall k :: 0 <= k < |q| ==> q[k] == q'[k];
  }

  /** Trial division by the primes below `p` up to the first whose square
      exceeds `p` finds no divisor exactly when `p` is prime. */
  lemma TrialDivision(q: seq<int>, p: int)
    requires p >= 2 && q == PrimesBelow(p)
    ensures Positive(q)
    ensures NoDivisorBefore(q, FirstSquareAbove(q, 0, p), p) <==> IsPrime(p)
  {
    PrimesBelowSpec(p);
    var b := FirstSquareAbove(q, 0, p);
    if !IsPrime(p) {
      SmallPrimeFactor(p);
      var d :| IsPrime(d) && d < p && Sq(d) <= p && p % d == 0;
      assert d in q;
      var k :| 0 <= k < |q| && q[k] == d;
      if k >= b {
        assert q[b] <= q[k];
        SquareMonotone(q[b], q[k]);
      }
      assert !NoDivisorBefore(q, b, p);
    }
  }

  /** A scan that stops at position `j`, every element before it having a
      square not above `i` and not dividing it, stops at the boundary when
      the element there has a square above `i` or the end is reached, and
      finds a divisor below the boundary when the element there divides
      `i`. */
  lemma ScanStops(q: seq<int>, i: int, j: nat, found: bool)
    requires j <= |q| && Positive(q)
    requires forall k :: 0 <= k < j ==> Sq(q[k]) <= i && i % q[k] != 0
    requires found ==> j < |q| && Sq(q[j]) <= i && i % q[j] == 0
    requires !found ==> j == |q| || Sq(q[j]) > i
    ensures NoDivisorBefore(q, FirstSquareAbove(q, 0, i), i) <==> !found
  {
    var b := FirstSquareAbove(q, 0, i);
    if found {
      assert j < b;
    } else {
      assert b == j;
    }
  }

  /** For an ascending vector of positive numbers, the scan up to the
      boundary finds no divisor exactly when no element whose square is at
      most `i` divides `i`. */
  lemma RootScan(q: seq<int>, i: int)
    requires Ascending(q) && Positive(q)
    ensures NoDivisorBefore(q, FirstSquareAbove(q, 0, i), i)
      <==> forall k :: 0 <= k < |q| && Sq(q[k]) <= i ==> i % q[k] != 0
  {
    var b := FirstSquareAbove(q, 0, i);
    forall k | b <= k < |q|
      ensures Sq(q[k]) > i
    {
      SquareMonotone(q[b], q[k]);
    }
  }

  /** One step of the outer loops: `p` goes in exactly when it is prime. */
  lemma NextPrimes(q: seq<int>, p: int, isP: bool)
    requires p >= 2 && q == PrimesBelow(p)
    requires isP <==> IsPrime(p)
    ensures (if isP then q + [p] else q) == PrimesBelow(p + 1)
  {
  }

  // ---------------------------------------------------------------- primes1

  /** `primes1`: for each `p` from 2 below `n`, the boundary is searched from
      the start, then a divisor below it. */
  method Primes1(cache: seq<int>, n: int) returns (q: seq<int>)
    requires Positive(cache)
    ensures |q| >= |cache| && q[..|cache|] == cache
    ensures cache == [] ==> q == PrimesBelow(n)
  {
    q := cache;
    var p := 2;
    while p < n
      invariant Positive(q) && |q| >= |cache| && q[..|cache|] == cache
      invariant 2 <= p && (p <= n || p == 2)
      invariant cache == [] ==> q == PrimesBelow(p)
    {
      var boundary := FirstSquareAbove(q, 0, p);
      var divisor := FirstDivisor(q, boundary, p);
      if cache == [] {
        TrialDivision(q, p);
        NextPrimes(q, p, divisor == boundary);
      }
      if divisor == boundary {
        q := q + [p];
      }
      p := p + 1;
    }
  }

  // ---------------------------------------------------------------- primes2

  /** `primes2`: as `primes1`, but the boundary search resumes where the
      previous one stopped. */
  method Primes2(cache: seq<int>, n: int) returns (q: seq<int>)
    requires Positive(cache)
    ensures |q| >= |cache| && q[..|cache|] == cache
    ensures cache == [] ==> q == PrimesBelow(n)
  {
    q := cache;
    var boundary: nat := 0;
    var p := 2;
    while p < n
      invariant Positive(q) && |q| >= |cache| && q[..|cache|] == cache
      invariant 2 <= p && (p <= n || p == 2)
      invariant boundary <= |q|
      invariant cache == [] ==> q == PrimesBelow(p)
      invariant cache == [] ==> forall k :: 0 <= k < boundary ==> Sq(q[k]) < p
    {
      var previous := boundary;
      boundary := FirstSquareAbove(q, boundary, p);
      assert previous <= boundary;
      var divisor := FirstDivisor(q, boundary, p);
      if cache == [] {
        ResumeSearch(q, previous, p);
        TrialDivision(q, p);
        NextPrimes(q, p, divisor == boundary);
        assert forall k :: 0 <= k < boundary ==> Sq(q[k]) <= p;
      }
      if divisor == boundary {
        q := q + [p];
      }
      p := p + 1;
    }
  }

  // ---------------------------------------------------------------- primes3

  /** The inner loop of `primes3`: walk while not at the end and the square
      is at most `i`; a divisor clears `is_p`. */
  method Scan3(p: seq<int>, i: int) returns (isP: bool)
    requires Positive(p)
    ensures isP <==> NoDivisorBefore(p, FirstSquareAbove(p, 0, i), i)
  {
    isP := true;
    var j := 0;
    while j != |p| && p[j] * p[j] <= i
      invariant 0 <= j <= |p|
      invariant forall k :: 0 <= k < j ==> Sq(p[k]) <= i && i % p[k] != 0
    {
      if i % p[j] == 0 {
        isP := false;
        break;
      }
      j := j + 1;
    }
    ScanStops(p, i, j, !isP);
  }

  /** `primes3`: 2 goes in first, then every `i` from 3 below `n` that
      passes the scan. */
  method Primes3(p0: seq<int>, n: int) returns (p: seq<int>)
    requires Positive(p0)
    ensures |p| > |p0| && p[..|p0|] == p0 && p[|p0|] == 2
    ensures p0 == [] ==> p == (if n <= 2 then [2] else PrimesBelow(n))
  {
    p := p0 + [2];
    var i := 3;
    while i < n
      invariant Positive(p) && |p| > |p0| && p[..|p0|] == p0 && p[|p0|] == 2
      invariant 3 <= i && (i <= n || i == 3)
      invariant p0 == [] ==> p == PrimesBelow(i)
    {
      var isP := Scan3(p, i);
      if p0 == [] {
        TrialDivision(p, i);
        NextPrimes(p, i, isP);
      }
      if isP {
        p := p + [i];
      }
      i := i + 1;
    }
  }

  // ---------------------------------------------------------------- primes4

  /** Every prime `i` from 3 below `n` has a smaller prime whose square
      exceeds it: a consequence of Bertrand's postulate that the model does
      not prove. */
  ghost predicate RootBound(n: int) {
    forall i :: 3 <= i < n && IsPrime(i) ==> exists r :: IsPrime(r) && r < i && Sq(r) > i
  }

  /** The inner loop of `primes4`, which does not check for the end of the
      vector: walking past it is undefined behaviour, here `None`. */
  method Scan4(p: seq<int>, i: int) returns (isP: Option<bool>)
    requires Positive(p)
    ensures isP.Some? ==> (isP.value <==> NoDivisorBefore(p, FirstSquareAbove(p, 0, i), i))
    ensures isP.None? <==> forall k :: 0 <= k < |p| ==> Sq(p[k]) <= i && i % p[k] != 0
  {
    var j := 0;
    while true
      invariant 0 <= j <= |p|
      invariant forall k :: 0 <= k < j ==> Sq(p[k]) <= i && i % p[k] != 0
      decreases |p| - j
    {
      if j == |p| {
        return None;
      }
      if p[j] * p[j] > i {
        break;
      }
      if i % p[j] == 0 {
        ScanStops(p, i, j, true);
        return Some(false);
      }
      j := j + 1;
    }
    ScanStops(p, i, j, false);
    isP := Some(true);
  }

  /** With the primes below a number, the scan of `primes4` stays inside the
      vector: a composite number meets its least prime factor, and a prime
      one meets a prime whose square exceeds it, if there is one. */
  lemma ScanEnds(p: seq<int>, i: int)
    requires i >= 3 && p == PrimesBelow(i)
    requires IsPrime(i) ==> exists r :: IsPrime(r) && r < i && Sq(r) > i
    ensures Positive(p)
    ensures !forall k :: 0 <= k < |p| ==> Sq(p[k]) <= i && i % p[k] != 0
  {
    PrimesBelowSpec(i);
    if IsPrime(i) {
      var r :| IsPrime(r) && r < i && Sq(r) > i;
      assert r in p;
    } else {
      SmallPrimeFactor(i);
      var d :| IsPrime(d) && d < i && Sq(d) <= i && i % d == 0;
      assert d in p;
    }
  }

  /** `primes4`: as `primes3` without the end check. `None` when a scan runs
      off the end of the vector. */
  method Primes4(p0: seq<int>, n: int) returns (r: Option<seq<int>>)
    requires Positive(p0)
    ensures r.Some? ==> |r.value| > |p0| && r.value[..|p0|] == p0 && r.value[|p0|] == 2
    ensures p0 == [] && RootBound(n) ==> r == Some(if n <= 2 then [2] else PrimesBelow(n))
  {
    var p := p0 + [2];
    var i := 3;
    while i < n
      invariant Positive(p) && |p| > |p0| && p[..|p0|] == p0 && p[|p0|] == 2
      invariant 3 <= i && (i <= n || i == 3)
      invariant p0 == [] ==> p == PrimesBelow(i)
    {
      var isP := Scan4(p, i);
      if p0 == [] && RootBound(n) {
        ScanEnds(p, i);
      }
      if isP.None? {
        return None;
      }
      if p0 == [] {
        TrialDivision(p, i);
        NextPrimes(p, i, isP.value);
      }
      if isP.value {
        p := p + [i];
      }
      i := i + 1;
    }
    r := Some(p);
  }

  // ---------------------------------------------------------------- primes5

  /** The `find_if` of `primes5` with its lambda: it stops at the first
      element whose square exceeds `i`, or at the first divisor, clearing
      `is_p`. */
  method Scan5(p: seq<int>, i: int) returns (isP: bool)
    requires Positive(p)
    ensures isP <==> NoDivisorBefore(p, FirstSquareAbove(p, 0, i), i)
  {
    isP := true;
    var j := 0;
    while j < |p|
      invariant 0 <= j <= |p|
      invariant forall k :: 0 <= k < j ==> Sq(p[k]) <= i && i % p[k] != 0
    {
      if p[j] * p[j] > i {
        break;
      }
      if i % p[j] == 0 {
        isP := false;
        break;
      }
      j := j + 1;
    }
    ScanStops(p, i, j, !isP);
  }

  /** `primes5`. */
  method Primes5(p0: seq<int>, n: int) returns (p: seq<int>)
    requires Positive(p0)
    ensures |p| > |p0| && p[..|p0|] == p0 && p[|p0|] == 2
    ensures p0 == [] ==> p == (if n <= 2 then [2] else PrimesBelow(n))
  {
    p := p0 + [2];
    var i := 3;
    while i < n
      invariant Positive(p) && |p| > |p0| && p[..|p0|] == p0 && p[|p0|] == 2
      invariant 3 <= i && (i <= n || i == 3)
      invariant p0 == [] ==> p == PrimesBelow(i)
    {
      var isP := Scan5(p, i);
      if p0 == [] {
        TrialDivision(p, i);
        NextPrimes(p, i, isP);
      }
      if isP {
        p := p + [i];
      }
      i := i + 1;
    }
  }
}
