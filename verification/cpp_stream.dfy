/** The part of `std::istream` that the two C++ expression evaluators
    (expr_static_cpp/expr_static.cpp and expr_cpp/expr.cpp) use on `std::cin`:
    formatted extraction of a `char`, of an integer and of a `std::string`,
    each after skipping whitespace, and `unget`. A failed extraction sets
    `failbit`, and every later extraction then fails at once. */
module CppStream {
  import opened Wrappers
  import opened ExprCore

  /** The stream: the characters not yet extracted and whether it is still
      usable (no `failbit`). */
  datatype In = In(rest: string, ok: bool)

  /** The result of one extraction and the stream after it. */
  datatype Read<T> = Read(val: Option<T>, st: In)

  /** The whitespace that formatted input skips. */
  function SkipSpace(s: string): (r: string)
    ensures |r| <= |s|
    ensures r == [] || !IsCSpace(r[0])
  {
    if s != [] && IsCSpace(s[0]) then SkipSpace(s[1..]) else s
  }

  /** `std::cin >> c` for a `char`: the next non-whitespace character; at the
      end of the input the stream fails. */
  function ReadChar(st: In): (r: Read<char>)
    ensures |r.st.rest| <= |st.rest|
    ensures r.val.Some? ==> r.st.ok && |r.st.rest| < |st.rest|
    ensures r.val.Some? ==> [r.val.value] + r.st.rest == SkipSpace(st.rest)
  {
    if !st.ok then Read(None, st)
    else
      var t := SkipSpace(st.rest);
      if t == [] then Read(None, In(t, false))
      else Read(Some(t[0]), In(t[1..], true))
  }

  /** `std::cin.unget()` right after `c` was extracted: `c` is back at the
      front. */
  function PutBack(st: In, c: char): (r: In)
    ensures r.ok == st.ok && |r.rest| == |st.rest| + 1
  {
    In([c] + st.rest, st.ok)
  }

  /** The number of leading characters of `s` satisfying the scan of the
      kind: decimal digits for the integer kinds, anything but whitespace
      for `std::string`. */
  function Span(k: Kind, s: string): (i: nat)
    ensures i <= |s|
    ensures forall j :: 0 <= j < i ==> (if k == Str then !IsCSpace(s[j]) else IsDigit(s[j]))
    ensures i < |s| ==> (if k == Str then IsCSpace(s[i]) else !IsDigit(s[i]))
  {
    if s == [] || (if k == Str then IsCSpace(s[0]) else !IsDigit(s[0])) then 0 else 1 + Span(k, s[1..])
  }

  /** The value an integer extraction converts `sign` and the magnitude `m`
      to, if the kind can hold it: `int` accepts -2^31 .. 2^31 - 1; `unsigned`
      accepts any magnitude up to 2^32 - 1 and negates modulo 2^32. */
  function Convert(k: Kind, neg: bool, m: nat): (r: Option<int>)
    requires k != Str
    ensures r.Some? ==> InRange(k, r.value)
  {
    if k == I32 then
      var n: int := if neg then -(m as int) else m;
      if InRange(I32, n) then Some(n) else None
    else if m <= U32Max then Some(WrapU32(if neg then -(m as int) else m))
    else None
  }

  /** `std::cin >> v` for `int`, `unsigned` and `std::string`. An integer is
      an optional `+` or `-` and at least one decimal digit, converted as
      `Convert` says; a string is a non-empty run of non-whitespace. On
      failure the stream fails; what is left of it no longer matters. */
  function ReadValue(k: Kind, st: In): (r: Read<Scalar>)
    ensures |r.st.rest| <= |st.rest|
    ensures r.val.Some? ==> r.st.ok && OfKind(k, r.val.value) && |r.st.rest| < |st.rest|
  {
    if !st.ok then Read(None, st)
    else
      var t := SkipSpace(st.rest);
      if t == [] then Read(None, In(t, false))
      else if k == Str then
        var i := Span(k, t);
        Read(Some(Text(t[..i])), In(t[i..], true))
      else
        var signed := t[0] == '+' || t[0] == '-';
        var u := if signed then t[1..] else t;
        var i := Span(k, u);
        if i == 0 then Read(None, In(u, false))
        else
          assert AllDigits(u[..i]);
          match Convert(k, signed && t[0] == '-', DigitsValue(u[..i]))
          case None => Read(None, In(u[i..], false))
          case Some(n) => Read(Some(Int(n)), In(u[i..], true))
  }

  /** `std::cin` as the parsers see it: extractions and `unget` change it in
      place. */
  class Stream {
    var rest: string
    var ok: bool

    function State(): In
      reads this
    {
      In(rest, ok)
    }

    constructor (input: string)
      ensures State() == In(input, true)
    {
      rest, ok := input, true;
    }

    method GetChar() returns (c: Option<char>)
      modifies this
      ensures Read(c, State()) == ReadChar(old(State()))
    {
      var r := ReadChar(State());
      c, rest, ok := r.val, r.st.rest, r.st.ok;
    }

    method Unget(c: char)
      modifies this
      ensures State() == PutBack(old(State()), c)
    {
      rest := [c] + rest;
    }

    method GetValue(k: Kind) returns (v: Option<Scalar>)
      modifies this
      ensures Read(v, State()) == ReadValue(k, old(State()))
    {
      var r := ReadValue(k, State());
      v, rest, ok := r.val, r.st.rest, r.st.ok;
    }
  }

  // ---------------------------------------------------------------- laws

  /** A character extracted and put back leaves the stream as it was after
      the whitespace before the character was skipped. */
  lemma UngetRead(st: In)
    requires ReadChar(st).val.Some?
    ensures PutBack(ReadChar(st).st, ReadChar(st).val.value) == In(SkipSpace(st.rest), true)
  {
  }

  /** Text that holds a character other than whitespace yields a character
      to a usable stream: what `parse` tests after the expression. */
  lemma {:induction false} ReadCharFindsText(st: In, i: nat)
    requires st.ok && i < |st.rest| && !IsCSpace(st.rest[i])
    ensures ReadChar(st).val.Some?
    decreases i
  {
    if st.rest != [] && IsCSpace(st.rest[0]) {
      assert i > 0;
      ReadCharFindsText(In(st.rest[1..], true), i - 1);
    }
  }

  /** A failed stream stays failed and yields nothing. */
  lemma FailedStays(k: Kind, st: In, c: char)
    requires !st.ok
    ensures ReadChar(st) == Read(None, st)
    ensures ReadValue(k, st) == Read(None, st)
    ensures !PutBack(st, c).ok
  {
  }
}
