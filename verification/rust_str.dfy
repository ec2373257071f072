/** Rust's `String` and `&str` hold the UTF-8 encoding (RFC 3629) of a
    sequence of Unicode scalar values; `len` counts bytes and `as_bytes`
    gives the encoding. A Rust string is a Dafny `string` here, and its bytes
    are `Utf8` of it. */
module RustStr {
  newtype byte = x: int | 0 <= x < 256

  /** The byte `b' '`. */
  const Space: byte := 0x20

  /** The UTF-8 encoding of one scalar value: one byte below U+0080, and
      otherwise a lead byte followed by continuation bytes, all of them at
      least 0x80 (section 3 of RFC 3629). */
  function EncodeChar(c: char): (r: seq<byte>)
    ensures 1 <= |r| <= 4
    ensures |r| == 1 <==> c as int < 0x80
    ensures |r| == 1 ==> r[0] as int == c as int
    ensures |r| > 1 ==> forall i :: 0 <= i < |r| ==> r[i] >= 0x80
  {
    var n := c as int;
    if n < 0x80 then [n as byte]
    else if n < 0x800 then [(0xC0 + n / 0x40) as byte, (0x80 + n % 0x40) as byte]
    else if n < 0x1_0000 then
      [(0xE0 + n / 0x1000) as byte, (0x80 + n / 0x40 % 0x40) as byte, (0x80 + n % 0x40) as byte]
    else
      [(0xF0 + n / 0x4_0000) as byte, (0x80 + n / 0x1000 % 0x40) as byte,
       (0x80 + n / 0x40 % 0x40) as byte, (0x80 + n % 0x40) as byte]
  }

  /** The bytes of a string. */
  function Utf8(s: string): seq<byte> {
    if s == [] then [] else EncodeChar(s[0]) + Utf8(s[1..])
  }

  /** `str::len`: the length in bytes. */
  function Len(s: string): nat {
    |Utf8(s)|
  }

  /** The byte `b' '` occurs in the encoding of a character exactly when the
      character is `' '`. */
  lemma SpaceByte(c: char)
    ensures Space in EncodeChar(c) <==> c == ' '
  {
    var r := EncodeChar(c);
    if c == ' ' {
      assert r[0] == Space;
    }
  }

  lemma {:induction false} Utf8Append(a: string, b: string)
    ensures Utf8(a + b) == Utf8(a) + Utf8(b)
    decreases |a|
  {
    if a != [] {
      assert (a + b)[1..] == a[1..] + b;
      Utf8Append(a[1..], b);
    } else {
      assert a + b == b;
    }
  }

  /** A string without `' '` has no `b' '` byte. */
  lemma {:induction false} Utf8NoSpace(s: string)
    requires ' ' !in s
    ensures Space !in Utf8(s)
    decreases |s|
  {
    if s != [] {
      SpaceByte(s[0]);
      Utf8NoSpace(s[1..]);
    }
  }

  /** A string has at least one byte per character and at most four, and
      exactly one when every character is below U+0080. */
  lemma {:induction false} LenBounds(s: string)
    ensures |s| <= Len(s) <= 4 * |s|
    ensures (forall i :: 0 <= i < |s| ==> s[i] as int < 0x80) ==> Len(s) == |s|
    decreases |s|
  {
    if s != [] {
      LenBounds(s[1..]);
    }
  }
}
