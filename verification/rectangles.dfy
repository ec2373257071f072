/** rectangles/src/main.rs: a rectangle and a square with `i32` sides,
    whose `double` methods update the sides in place. Multiplying or doubling
    past the `i32` range panics, so those operations require that the result
    fits. */
module Rectangles {
  import opened ExprCore

  predicate InI32(n: int) {
    I32Min <= n <= I32Max
  }

  /** `a * b` without exposing the product to the solver's nonlinear
      reasoning. */
  function Product(a: int, b: int): int {
    a * b
  }

  /** With non-negative sides, a rectangle that is at least as wide and at
      least as high has at least the area. */
  lemma ProductMono(a: int, b: int, c: int, d: int)
    requires 0 <= c <= a && 0 <= d <= b
    ensures Product(c, d) <= Product(a, b)
  {
    assert c * d <= a * d;
    assert a * d <= a * b;
  }

  class Rectangle {
    var width: int
    var height: int

    /** `Rectangle::new`. */
    constructor (width: int, height: int)
      requires InI32(width) && InI32(height)
      ensures this.width == width && this.height == height
    {
      this.width := width;
      this.height := height;
    }

    /** `Rectangle::square`: as wide as high. */
    constructor Square(side: int)
      requires InI32(side)
      ensures width == side && height == side
    {
      width := side;
      height := side;
    }

    /** `area`: `width * height`, which must fit in `i32`. */
    function Area(): int
      requires InI32(Product(width, height))
      reads this
    {
      Product(width, height)
    }

    /** `double`: both sides doubled and nothing else changed, so the area is
      four times what it was. */
    method Double()
      requires InI32(2 * width) && InI32(2 * height)
      modifies this
      ensures width == 2 * old(width) && height == 2 * old(height)
      ensures Product(width, height) == 4 * old(Product(width, height))
    {
      width := 2 * width;
      height := 2 * height;
    }

    /** `width()`: the width is not zero. */
    function HasWidth(): (b: bool)
      reads this
      ensures b <==> width != 0
    {
      width != 0
    }

    /** `height()`: the height is not zero. */
    function HasHeight(): (b: bool)
      reads this
      ensures b <==> height != 0
    {
      height != 0
    }

    /** `can_hold`: `r` fits in this rectangle without turning it. */
    function CanHold(r: Rectangle): bool
      reads this, r
    {
      width >= r.width && height >= r.height
    }
  }

  /** Every rectangle can hold itself. */
  lemma CanHoldReflexive(a: Rectangle)
    ensures a.CanHold(a)
  {
  }

  /** If `a` can hold `b` and `b` can hold `c`, `a` can hold `c`. */
  lemma CanHoldTransitive(a: Rectangle, b: Rectangle, c: Rectangle)
    requires a.CanHold(b) && b.CanHold(c)
    ensures a.CanHold(c)
  {
  }

  /** A rectangle with non-negative sides that can hold another has at least
      its area. */
  lemma CanHoldArea(a: Rectangle, b: Rectangle)
    requires b.width >= 0 && b.height >= 0 && a.CanHold(b)
    ensures Product(a.width, a.height) >= Product(b.width, b.height)
  {
    ProductMono(a.width, a.height, b.width, b.height);
  }

  class Square {
    var side: int

    /** `Square::new`. */
    constructor (side: int)
      requires InI32(side)
      ensures this.side == side
    {
      this.side := side;
    }

    /** `area`: `side * side`, which must fit in `i32`. */
    function Area(): int
      requires InI32(Product(side, side))
      reads this
    {
      Product(side, side)
    }

    /** `double`: the side doubled, so the area is four times what it was. */
    method Double()
      requires InI32(2 * side)
      modifies this
      ensures side == 2 * old(side)
      ensures Product(side, side) == 4 * old(Product(side, side))
    {
      side := 2 * side;
    }

    /** `to_rectangle`: a new rectangle as wide and as high as the side, with
      the same area. */
    method ToRectangle() returns (r: Rectangle)
      requires InI32(side)
      ensures fresh(r) && r.width == side && r.height == side
      ensures Product(r.width, r.height) == Product(side, side)
    {
      r := new Rectangle(side, side);
    }

    /** `side()`: the side is not zero. */
    function HasSide(): (b: bool)
      reads this
      ensures b <==> side != 0
    {
      side != 0
    }

    /** `can_hold`: `s` is no larger. */
    function CanHold(s: Square): bool
      reads this, s
    {
      side >= s.side
    }
  }

  /** Square's `can_hold` is a total preorder: reflexive and transitive. */
  lemma SquareCanHoldPreorder(a: Square, b: Square, c: Square)
    ensures a.CanHold(a)
    ensures a.CanHold(b) && b.CanHold(c) ==> a.CanHold(c)
    ensures a.CanHold(b) || b.CanHold(a)
  {
  }

  /** The areas and comparisons of `main`. */
  method MainLines() returns (lines: seq<string>, holds: seq<bool>)
    ensures lines == ["sq1 area=25", "rect0 area=100", "rect1 area=1500", "rect1 area=6000"]
    ensures holds == [true, false, true, false, true, true]
  {
    var sq1 := new Square(5);
    lines := ["sq1 area=" + ShowInt(sq1.Area())];
    sq1.Double();
    var six := new Square(6);
    holds := [sq1.CanHold(six)];
    var rect0 := sq1.ToRectangle();
    lines := lines + ["rect0 area=" + ShowInt(rect0.Area())];
    var rect1 := new Rectangle(30, 50);
    lines := lines + ["rect1 area=" + ShowInt(rect1.Area())];
    rect1.Double();
    lines := lines + ["rect1 area=" + ShowInt(rect1.Area())];
    holds := holds + [rect0.CanHold(rect1), rect1.CanHold(rect0)];
    var zero := new Square(0);
    holds := holds + [zero.HasSide(), rect1.HasWidth(), rect1.HasHeight()];
    assert "sq1 area=" + ShowInt(25) == "sq1 area=25";
    assert "rect0 area=" + ShowInt(100) == "rect0 area=100";
    assert "rect1 area=" + ShowInt(1500) == "rect1 area=1500";
    assert "rect1 area=" + ShowInt(6000) == "rect1 area=6000";
  }
}
