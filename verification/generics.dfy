/** generics-10/src/main.rs: a generic `largest` over a slice, a point whose
    coordinates are rendered as `[x,y]`, and a two-type point whose `mixup`
    combines two points. */
module Generics {
  import opened ExprCore

  /** `less` is a strict total order, as `PartialOrd` is on the integers and
      characters `main` uses. */
  ghost predicate StrictTotalOrder<T(!new)>(less: (T, T) -> bool) {
    && (forall a :: !less(a, a))
    && (forall a, b, c :: less(a, b) && less(b, c) ==> less(a, c))
    && (forall a, b :: a == b || less(a, b) || less(b, a))
  }

  /** `largest`: the position of the element it returns. Nothing in the slice
      is greater, and it is the first such element, because the loop only
      moves on for a strictly greater one. Reading `list[0]` needs a
      non-empty slice. */
  method Largest<T(!new)>(list: seq<T>, less: (T, T) -> bool) returns (k: nat)
    requires |list| > 0
    requires StrictTotalOrder(less)
    ensures k < |list|
    ensures forall i :: 0 <= i < |list| ==> !less(list[k], list[i])
    ensures forall i :: 0 <= i < k ==> less(list[i], list[k])
  {
    k := 0;
    for i := 0 to |list|
      invariant k < |list| && (k < i || k == 0)
      invariant forall j :: 0 <= j < i ==> !less(list[k], list[j])
      invariant forall j :: 0 <= j < k ==> less(list[j], list[k])
    {
      if less(list[k], list[i]) {
        k := i;
      }
    }
  }

  /** The two `largest` calls of `main`. */
  method LargestInMain() returns (n: int, c: char)
    ensures n == 100 && c == 'y'
  {
    var numbers := [34, 50, 25, 100, 65];
    var k := Largest(numbers, (a: int, b: int) => a < b);
    assert !(numbers[k] < numbers[3]);
    n := numbers[k];
    var chars := ['y', 'm', 'a', 'q'];
    var m := Largest(chars, (a: char, b: char) => a < b);
    assert !(chars[m] < chars[0]);
    c := chars[m];
  }

  /** `Point::format` for the integer points of `main`: `[x,y]`. */
  function Format(x: int, y: int): (r: string)
    ensures |r| >= 5 && r[0] == '[' && r[|r| - 1] == ']'
  {
    "[" + ShowInt(x) + "," + ShowInt(y) + "]"
  }

  lemma NoCommaInShowInt(n: int)
    ensures ',' !in ShowInt(n)
  {
    var s := ShowInt(n);
    if n >= 0 {
      assert forall i :: 0 <= i < |s| ==> IsDigit(s[i]);
    } else {
      assert forall i :: 1 <= i < |s| ==> s[i] == ShowNat(-n)[i - 1];
    }
  }

  lemma UnwrapBrackets(a: string, b: string, c: string, d: string)
    requires ',' !in a && ',' !in c
    requires "[" + a + "," + b + "]" == "[" + c + "," + d + "]"
    ensures a == c && b == d
  {
    var f := "[" + a + "," + b + "]";
    assert f[1..|f| - 1] == a + [','] + b;
    assert f[1..|f| - 1] == c + [','] + d;
    SplitAtSeparator(',', a, b, c, d);
  }

  /** The rendering is unambiguous: the comma separates the coordinates, and
      each reads back as the integer it came from. */
  lemma FormatInjective(x1: int, y1: int, x2: int, y2: int)
    requires Format(x1, y1) == Format(x2, y2)
    ensures x1 == x2 && y1 == y2
  {
    NoCommaInShowInt(x1);
    NoCommaInShowInt(x2);
    UnwrapBrackets(ShowInt(x1), ShowInt(y1), ShowInt(x2), ShowInt(y2));
    ShowIntInjective(x1, x2);
    ShowIntInjective(y1, y2);
  }

  /** `PointXY`, with one type per coordinate. */
  datatype PointXY<X, Y> = PointXY(x: X, y: Y)

  /** `mixup`: `x` from `self` and `y` from `p`, as `main` asserts. */
  function Mixup<X1, Y1, X2, Y2>(self: PointXY<X1, Y1>, p: PointXY<X2, Y2>): (r: PointXY<X1, Y2>)
    ensures r.x == self.x && r.y == p.y
  {
    PointXY(self.x, p.y)
  }
}
