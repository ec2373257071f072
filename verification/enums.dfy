/** enums/src/main.rs: an address enum rendered as text, a message enum
    whose `process` handles some variants, and a division that refuses a zero
    divisor. */
module Enums {
  import Wrappers
  import opened ExprCore

  newtype u8 = x: int | 0 <= x < 256

  datatype IpAddr = None | V4(b1: u8, b2: u8, b3: u8, b4: u8) | V6(text: string)

  function Dotted(b1: u8, b2: u8, b3: u8, b4: u8): string {
    ShowNat(b1 as nat) + "." + ShowNat(b2 as nat) + "." + ShowNat(b3 as nat) + "." + ShowNat(b4 as nat)
  }

  /** `IpAddr::to_string`: `None` for `None`, the dotted decimal bytes for
      `V4`, and the text itself for `V6`. */
  function IpToString(ip: IpAddr): (r: string)
    ensures ip.None? ==> r == "None"
    ensures ip.V6? ==> r == ip.text
  {
    match ip
    case None => "None"
    case V4(b1, b2, b3, b4) => Dotted(b1, b2, b3, b4)
    case V6(v) => v
  }

  lemma NoDotInShowNat(n: nat)
    ensures '.' !in ShowNat(n)
  {
    var s := ShowNat(n);
    assert forall i :: 0 <= i < |s| ==> IsDigit(s[i]);
  }

  lemma ShowNatInjective(a: nat, b: nat)
    requires ShowNat(a) == ShowNat(b)
    ensures a == b
  {
    DigitsValueShowNat(a);
    DigitsValueShowNat(b);
  }

  /** Four dot-free parts joined by dots split back into the same parts. */
  lemma SplitDotted(a1: string, a2: string, a3: string, a4: string,
                    c1: string, c2: string, c3: string, c4: string)
    requires '.' !in a1 && '.' !in a2 && '.' !in a3
    requires '.' !in c1 && '.' !in c2 && '.' !in c3
    requires a1 + "." + a2 + "." + a3 + "." + a4 == c1 + "." + c2 + "." + c3 + "." + c4
    ensures a1 == c1 && a2 == c2 && a3 == c3 && a4 == c4
  {
    assert a1 + "." + a2 + "." + a3 + "." + a4 == a1 + ['.'] + (a2 + ['.'] + (a3 + ['.'] + a4));
    assert c1 + "." + c2 + "." + c3 + "." + c4 == c1 + ['.'] + (c2 + ['.'] + (c3 + ['.'] + c4));
    SplitAtSeparator('.', a1, a2 + ['.'] + (a3 + ['.'] + a4), c1, c2 + ['.'] + (c3 + ['.'] + c4));
    SplitAtSeparator('.', a2, a3 + ['.'] + a4, c2, c3 + ['.'] + c4);
    SplitAtSeparator('.', a3, a4, c3, c4);
  }

  /** Two `V4` addresses with the same text are the same address: the dots
      separate the four bytes and each byte reads back from its digits. */
  lemma V4Injective(x: IpAddr, y: IpAddr)
    requires x.V4? && y.V4? && IpToString(x) == IpToString(y)
    ensures x == y
  {
    NoDotInShowNat(x.b1 as nat);
    NoDotInShowNat(x.b2 as nat);
    NoDotInShowNat(x.b3 as nat);
    NoDotInShowNat(y.b1 as nat);
    NoDotInShowNat(y.b2 as nat);
    NoDotInShowNat(y.b3 as nat);
    SplitDotted(ShowNat(x.b1 as nat), ShowNat(x.b2 as nat), ShowNat(x.b3 as nat), ShowNat(x.b4 as nat),
                ShowNat(y.b1 as nat), ShowNat(y.b2 as nat), ShowNat(y.b3 as nat), ShowNat(y.b4 as nat));
    ShowNatInjective(x.b1 as nat, y.b1 as nat);
    ShowNatInjective(x.b2 as nat, y.b2 as nat);
    ShowNatInjective(x.b3 as nat, y.b3 as nat);
    ShowNatInjective(x.b4 as nat, y.b4 as nat);
  }

  /** The three addresses of `main`. */
  lemma AddressesInMain()
    ensures IpToString(None) == "None"
    ensures IpToString(V4(127, 0, 0, 1)) == "127.0.0.1"
    ensures IpToString(V6("::1")) == "::1"
  {
    assert ShowNat(127) == "127";
  }

  datatype Message =
    | Quit
    | Move(x: int, y: int)
    | Write(s: string)
    | ChangeColor(r: int, g: int, b: int)
    | NotImplemented1
    | NotImplemented2(a: nat, b2: int)
    | NotImplemented3(s3: string)
    | NotImplemented4(i1: int, i2: int, i3: int, i4: int)

  /** What `process` gives back and the lines it prints. */
  datatype Processed = Processed(handled: bool, out: seq<string>)

  /** `process`: true exactly for `Move`, `Write` and `ChangeColor`; `Quit`
      and those three print one line, the other variants nothing. */
  function Process(m: Message): (r: Processed)
    ensures r.handled <==> m.Move? || m.Write? || m.ChangeColor?
    ensures |r.out| == (if m.Quit? || r.handled then 1 else 0)
  {
    match m
    case Quit => Processed(false, ["Quit"])
    case Move(x, y) => Processed(true, ["Move to " + ShowInt(x) + ", " + ShowInt(y)])
    case Write(_) => Processed(true, ["Write"])
    case ChangeColor(_, _, _) => Processed(true, ["Change color"])
    case _ => Processed(false, [])
  }

  predicate InI32(n: int) {
    I32Min <= n <= I32Max
  }

  /** `divide`: `None` for a zero divisor, otherwise `a / b` truncated toward
      zero as Rust does. `i32::MIN / -1` overflows, which panics. */
  function Divide(a: int, b: int): (r: Wrappers.Option<int>)
    requires InI32(a) && InI32(b) && !(a == I32Min && b == -1)
    ensures r.None? <==> b == 0
    ensures r.Some? ==> r.value == TruncDiv(a, b) && InI32(r.value)
  {
    if b == 0 then Wrappers.None
    else
      TruncDivRemainder(a, b);
      Wrappers.Some(TruncDiv(a, b))
  }

  const DivisionByZero := "Division by zero"

  function QuotientLine(a: int, b: int, c: int): string {
    ShowInt(a) + "/" + ShowInt(b) + "=" + ShowInt(c)
  }

  function NegLine(c: int): string {
    "neg=" + ShowInt(c)
  }

  /** A quotient line starts with a sign or a digit, so it is not "Division
      by zero". */
  lemma QuotientLineNotZero(a: int, b: int, c: int)
    ensures QuotientLine(a, b, c) != DivisionByZero
  {
    assert DivisionByZero[0] == 'D';
    assert QuotientLine(a, b, c)[0] == ShowInt(a)[0];
    assert ShowInt(a)[0] == '-' || IsDigit(ShowInt(a)[0]);
  }

  /** A negation line starts with `n`, so it is not "Division by zero". */
  lemma NegLineNotZero(c: int)
    ensures NegLine(c) != DivisionByZero
  {
    assert DivisionByZero[0] == 'D';
    assert NegLine(c)[0] == 'n';
  }

  /** The lines one `b` of `main`'s loop prints. */
  function DivideLines(a: int, b: int): seq<string>
    requires InI32(a) && a != I32Min && InI32(b)
  {
    match Divide(a, b)
    case None => [DivisionByZero]
    case Some(c) => [QuotientLine(a, b, c), NegLine(-c)]
  }

  /** Neither line of a successful division reads "Division by zero". */
  lemma SuccessLines(a: int, b: int, c: int)
    ensures DivisionByZero !in [QuotientLine(a, b, c), NegLine(-c)]
  {
    var lines := [QuotientLine(a, b, c), NegLine(-c)];
    forall i | 0 <= i < |lines|
      ensures lines[i] != DivisionByZero
    {
      if i == 0 {
        QuotientLineNotZero(a, b, c);
      } else {
        NegLineNotZero(-c);
      }
    }
  }

  /** Only a zero divisor prints "Division by zero". */
  lemma DivideLinesZero(a: int, b: int)
    requires InI32(a) && a != I32Min && InI32(b)
    ensures DivisionByZero in DivideLines(a, b) <==> b == 0
  {
    if b == 0 {
      assert DivideLines(a, b) == [DivisionByZero];
    } else {
      var c := Divide(a, b).value;
      assert DivideLines(a, b) == [QuotientLine(a, b, c), NegLine(-c)];
      SuccessLines(a, b, c);
    }
  }

  /** `main`'s loop over `b` from -10 to 9: each `b` prints its lines, and
      only `b = 0` reaches "Division by zero". */
  method DivideLoop(a: int) returns (blocks: seq<seq<string>>)
    requires InI32(a) && a != I32Min
    ensures |blocks| == 20
    ensures forall k :: 0 <= k < 20 ==> blocks[k] == DivideLines(a, k - 10)
    ensures forall k :: 0 <= k < 20 ==> (DivisionByZero in blocks[k] <==> k == 10)
  {
    blocks := [];
    for b := -10 to 10
      invariant |blocks| == b + 10
      invariant forall k :: 0 <= k < b + 10 ==> blocks[k] == DivideLines(a, k - 10)
    {
      var lines: seq<string>;
      match Divide(a, b) {
        case None =>
          lines := [DivisionByZero];
        case Some(c) =>
          lines := [QuotientLine(a, b, c)];
          lines := lines + [NegLine(-c)];
      }
      assert lines == DivideLines(a, b);
      blocks := blocks + [lines];
    }
    forall k | 0 <= k < 20
      ensures DivisionByZero in blocks[k] <==> k == 10
    {
      DivideLinesZero(a, k - 10);
    }
  }
}
