/** lifetimes/src/main.rs: two functions returning one of their string
    slice arguments. Lengths are `str::len`, in bytes. */
module Lifetimes {
  import opened RustStr

  /** `longest`: `x` when it has more bytes than `y`, and `y` otherwise (so
      `y` on a tie). */
  function Longest(x: string, y: string): (r: string)
    ensures r == x || r == y
    ensures Len(r) >= Len(x) && Len(r) >= Len(y)
    ensures Len(x) == Len(y) ==> r == y
  {
    if Len(x) > Len(y) then x else y
  }

  /** `first`: always the first argument. */
  function First(x: string, y: string): (r: string)
    ensures r == x
  {
    x
  }

  /** The comparison is of bytes, not of characters: `"éé"` has two
      characters and four bytes, so it is longer than `"abc"`. */
  lemma LongestCountsBytes()
    ensures Longest("éé", "abc") == "éé"
  {
    assert Utf8("éé"[1..]) == EncodeChar('é') + Utf8([]);
  }

  /** The first two lines of `main`. */
  method MainLines() returns (lines: seq<string>)
    ensures lines == ["longest=abcd", "first=abcd"]
  {
    var s1 := "abcd";
    var s2 := "XYZ";
    LenBounds(s1);
    LenBounds(s2);
    assert Len(s1) == 4 && Len(s2) == 3;
    assert Longest(s1, s2) == "abcd";
    assert "longest=" + s1 == "longest=abcd" && "first=" + s1 == "first=abcd";
    lines := ["longest=" + Longest(s1, s2), "first=" + First(s1, s2)];
  }
}
