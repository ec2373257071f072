/** loops/src/main.rs: the loop forms of Rust (`loop` with a value,
    labelled `break`, `while`, `for` over an array and a reversed range) and
    an iterative Fibonacci function on `u64`. The lines `main` prints are
    returned as sequences. */
module Loops {
  import opened Wrappers
  import opened ExprCore

  const U64Modulus: int := 0x1_0000_0000_0000_0000

  /** The Fibonacci numbers with F(0) = 0 and F(1) = 1. */
  function Fibonacci(k: nat): nat {
    if k < 2 then k else Fibonacci(k - 1) + Fibonacci(k - 2)
  }

  lemma {:induction false} FibonacciMono(a: nat, b: nat)
    requires a <= b
    ensures Fibonacci(a) <= Fibonacci(b)
    decreases b - a
  {
    if a < b {
      FibonacciMono(a + 1, b);
    }
  }

  /** `fib`. It answers 1 for 0; otherwise its loop runs exactly `n` times,
      each time moving the pair `(i, j)` of consecutive Fibonacci numbers one
      step on, so the answer is F(n + 1). The sum `i + j` is a `u64`
      addition: when it reaches 2^64 the program panics, `None` here. */
  method Fib(n: nat) returns (r: Option<nat>, ghost steps: nat)
    requires n < U64Modulus
    ensures r == (if Fibonacci(n + 1) < U64Modulus then Some(Fibonacci(n + 1)) else None)
    ensures r.Some? && n > 0 ==> steps == n
  {
    steps := 0;
    if n == 0 {
      return Some(1), 0;
    }
    var m: nat := n;
    var i: nat, j: nat := 0, 1;
    while m > 0
      invariant m <= n && steps == n - m
      invariant i == Fibonacci(steps) && j == Fibonacci(steps + 1)
      invariant j < U64Modulus
    {
      assert i + j == Fibonacci(steps + 2);
      if i + j >= U64Modulus {
        FibonacciMono(steps + 2, n + 1);
        return None, steps;
      }
      i, j := j, i + j;
      m := m - 1;
      steps := steps + 1;
    }
    r := Some(j);
  }

  /** The recurrence of F, unconditionally. Since `Fib` answers F(n + 1),
      `fib(n + 2) = fib(n + 1) + fib(n)` follows whenever all three fit in
      `u64`. */
  lemma FibRecurrence(n: nat)
    ensures Fibonacci(n + 3) == Fibonacci(n + 2) + Fibonacci(n + 1)
  {
  }

  function Pow2(k: nat): nat {
    if k == 0 then 1 else 2 * Pow2(k - 1)
  }

  lemma {:induction false} FibonacciBelowPow2(k: nat)
    ensures Fibonacci(k) < Pow2(k)
  {
    if k >= 2 {
      FibonacciBelowPow2(k - 1);
      FibonacciBelowPow2(k - 2);
    }
  }

  lemma {:induction false} Pow2Mono(a: nat, b: nat)
    requires a <= b
    ensures Pow2(a) <= Pow2(b)
    decreases b - a
  {
    if a < b {
      Pow2Mono(a + 1, b);
    }
  }

  lemma {:induction false} Pow2Add(a: nat, b: nat)
    ensures Pow2(a + b) == Pow2(a) * Pow2(b)
    decreases a
  {
    if a > 0 {
      Pow2Add(a - 1, b);
    }
  }

  lemma Pow2Of64()
    ensures Pow2(64) == U64Modulus
  {
    assert Pow2(8) == 256;
    Pow2Add(8, 8);
    Pow2Add(16, 16);
    Pow2Add(32, 32);
  }

  /** `fib(v)` fits in `u64` for every `v` of the table in `main`. */
  lemma FibFitsBelow50(v: nat)
    requires v < 50
    ensures Fibonacci(v + 1) < U64Modulus
  {
    FibonacciBelowPow2(v + 1);
    Pow2Mono(v + 1, 64);
    Pow2Of64();
  }

  function FibLine(v: nat, f: nat): string {
    "fib(" + ShowNat(v) + ")=" + ShowNat(f)
  }

  /** The table of `fib(0)` to `fib(49)` printed at the end of `main`. */
  method FibTable() returns (lines: seq<string>)
    ensures |lines| == 50
    ensures forall v :: 0 <= v < 50 ==> lines[v] == FibLine(v, Fibonacci(v + 1))
  {
    lines := [];
    for v := 0 to 50
      invariant |lines| == v
      invariant forall w :: 0 <= w < v ==> lines[w] == FibLine(w, Fibonacci(w + 1))
    {
      FibFitsBelow50(v);
      var r, _ := Fib(v);
      lines := lines + [FibLine(v, r.value)];
    }
  }

  /** The first loop: count `i` up until it is 10 and break with `i + 2`. */
  method BreakWithValue() returns (result: int)
    ensures result == 12
  {
    var i := 0;
    while true
      invariant 0 <= i < 10
      decreases 10 - i
    {
      i := i + 1;
      if i == 10 {
        return i + 2;
      }
    }
  }

  /** The lines of one round of the labelled loop that ends at `n = 9`. */
  function Round(i: int): seq<string> {
    ["i=" + ShowInt(i), "n=10", "n=9"]
  }

  /** The lines of the first `i` rounds. */
  function Rounds(i: nat): seq<string> {
    if i == 0 then [] else Rounds(i - 1) + Round(i - 1)
  }

  /** The labelled loop: for each `i` it prints `i` and then `n` from 10
      down; the inner loop stops at `n = 9`, and the whole loop stops as soon
      as `i = 2`, after its first `n`. */
  method LabelledBreak() returns (i: int, lines: seq<string>)
    ensures i == 2
    ensures lines == ["i=0", "n=10", "n=9", "i=1", "n=10", "n=9", "i=2", "n=10", "end i=2"]
  {
    assert "n=" + ShowInt(10) == "n=10" && "n=" + ShowInt(9) == "n=9";
    i := 0;
    lines := [];
    label outer: while true
      invariant 0 <= i <= 2 && lines == Rounds(i)
      decreases 2 - i
    {
      lines := lines + ["i=" + ShowInt(i)];
      var n := 10;
      while true
        invariant n == 10 || (n == 9 && i != 2)
        invariant lines == Rounds(i) + ["i=" + ShowInt(i)] + (if n == 9 then ["n=10"] else [])
        decreases n
      {
        lines := lines + ["n=" + ShowInt(n)];
        if n == 9 {
          assert lines == Rounds(i) + Round(i);
          break;
        }
        if i == 2 {
          break outer;
        }
        n := n - 1;
      }
      i := i + 1;
    }
    lines := lines + ["end i=" + ShowInt(i)];
    assert "i=" + ShowInt(0) == "i=0" && "i=" + ShowInt(1) == "i=1";
    assert "i=" + ShowInt(2) == "i=2" && "end i=" + ShowInt(2) == "end i=2";
    assert Rounds(2) == Round(0) + Round(1);
  }

  /** What the `while n != 0` loop prints from `n`: `n`, `n - 1`, ..., 1. */
  function CountdownLines(n: nat): (r: seq<string>)
    ensures |r| == n
    ensures forall k :: 0 <= k < n ==> r[k] == ShowNat(n - k)
  {
    if n == 0 then [] else [ShowNat(n)] + CountdownLines(n - 1)
  }

  method Countdown(n0: nat) returns (lines: seq<string>)
    ensures lines == CountdownLines(n0) + ["after while"]
  {
    var n: nat := n0;
    lines := [];
    while n != 0
      invariant n <= n0
      invariant lines + CountdownLines(n) == CountdownLines(n0)
    {
      lines := lines + [ShowNat(n)];
      n := n - 1;
    }
    lines := lines + ["after while"];
  }

  function IndexLine(k: nat, x: int): string {
    "a[" + ShowNat(k) + "]=" + ShowInt(x)
  }

  /** The index loop over the array `[10, 20, 30, 40, 50]`: each element
      once, in order, with its index. */
  method IndexedLines(a: array<int>) returns (lines: seq<string>)
    ensures |lines| == a.Length
    ensures forall k :: 0 <= k < a.Length ==> lines[k] == IndexLine(k, a[k])
  {
    lines := [];
    var i := 0;
    while i < a.Length
      invariant 0 <= i <= a.Length && |lines| == i
      invariant forall k :: 0 <= k < i ==> lines[k] == IndexLine(k, a[k])
    {
      lines := lines + [IndexLine(i, a[i])];
      i := i + 1;
    }
  }

  function ElementLine(x: int): string {
    "a[?]=" + ShowInt(x)
  }

  /** The `for v in a` loop: each element once, in order. */
  method ElementLines(a: array<int>) returns (lines: seq<string>)
    ensures |lines| == a.Length
    ensures forall k :: 0 <= k < a.Length ==> lines[k] == ElementLine(a[k])
  {
    lines := [];
    for k := 0 to a.Length
      invariant |lines| == k
      invariant forall m :: 0 <= m < k ==> lines[m] == ElementLine(a[m])
    {
      lines := lines + [ElementLine(a[k])];
    }
  }

  function RangeLine(v: nat): string {
    "v=" + ShowNat(v)
  }

  /** `for v in (0..n).rev()`: `v` goes from `n - 1` down to 0. */
  method Reversed(n: nat) returns (lines: seq<string>)
    ensures |lines| == n
    ensures forall k :: 0 <= k < n ==> lines[k] == RangeLine(n - 1 - k)
  {
    lines := [];
    var v: nat := n;
    while v > 0
      invariant v <= n && |lines| == n - v
      invariant forall k :: 0 <= k < n - v ==> lines[k] == RangeLine(n - 1 - k)
    {
      v := v - 1;
      lines := lines + [RangeLine(v)];
    }
  }
}
