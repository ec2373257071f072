/** The string functions of ownership-4.1/src/main.rs: `first_word` scans
    the bytes of a string slice for the first space, and the others pass a
    `String` in and out, measure it or extend it. */
module Ownership {
  import opened RustStr
  import opened ExprCore

  /** The byte index where the first word of `b` ends: the first `b' '`, or
      the end when there is none. */
  function WordEnd(b: seq<byte>): (k: nat)
    ensures k <= |b|
    ensures Space !in b[..k]
    ensures k < |b| ==> b[k] == Space
  {
    if b == [] || b[0] == Space then 0
    else
      var k := 1 + WordEnd(b[1..]);
      assert b[..k] == [b[0]] + b[1..][..k - 1];
      k
  }

  /** The three properties above determine the word end. */
  lemma WordEndUnique(b: seq<byte>, k: nat)
    requires k <= |b| && Space !in b[..k]
    requires k < |b| ==> b[k] == Space
    ensures WordEnd(b) == k
  {
    var j := WordEnd(b);
    forall i | 0 <= i < k
      ensures b[i] != Space
    {
      assert b[..k][i] == b[i];
    }
    forall i | 0 <= i < j
      ensures b[i] != Space
    {
      assert b[..j][i] == b[i];
    }
  }

  /** `first_word`: the loop over the bytes returns the slice before the
      first space it meets, and the whole slice when it meets none. */
  method FirstWord(s: seq<byte>) returns (w: seq<byte>)
    ensures w == s[..WordEnd(s)]
    ensures Space !in s ==> w == s
  {
    for i := 0 to |s|
      invariant Space !in s[..i]
    {
      if s[i] == Space {
        WordEndUnique(s, i);
        return s[..i];
      }
      assert s[..i + 1] == s[..i] + [s[i]];
    }
    WordEndUnique(s, |s|);
    assert s[..|s|] == s;
    w := s;
  }

  /** On the bytes of a text whose first space follows `a`, the first word is
      the encoding of `a`: a space byte in UTF-8 only ever encodes `' '`, so
      the byte scan cuts between characters. */
  lemma FirstWordOfText(a: string, rest: string)
    requires ' ' !in a
    requires rest == [] || rest[0] == ' '
    ensures var b := Utf8(a + rest); b[..WordEnd(b)] == Utf8(a)
  {
    var b := Utf8(a + rest);
    Utf8Append(a, rest);
    Utf8NoSpace(a);
    var k := |Utf8(a)|;
    assert b[..k] == Utf8(a);
    if rest != [] {
      assert Utf8(rest) == EncodeChar(' ') + Utf8(rest[1..]);
      assert b[k] == Utf8(rest)[0];
    }
    WordEndUnique(b, k);
  }

  const Tail := " tail"

  /** `str_append`: the string through `&mut` comes back with exactly
      `" tail"` after it, five bytes longer. */
  method StrAppend(s: string) returns (r: string)
    ensures |r| == |s| + |Tail| && r[..|s|] == s && r[|s|..] == Tail
    ensures Len(r) == Len(s) + 5
  {
    r := s + Tail;
    Utf8Append(s, Tail);
    assert r[..|s|] == s && r[|s|..] == Tail;
  }

  /** `str_len_copy`: the string back unchanged, with its length in bytes,
      which is at least its number of characters and at most four times it. */
  method StrLenCopy(s: string) returns (r: string, l: nat)
    ensures r == s && l == Len(s)
    ensures |s| <= l <= 4 * |s|
  {
    LenBounds(s);
    l := Len(s);
    r := s;
  }

  /** `report_num_ret`: prints `s: n` and gives `s` back unchanged. */
  method ReportNumRet(s: string, n: nat) returns (r: string, line: string)
    requires n < 0x1_0000_0000
    ensures r == s
    ensures |line| > |s| + 2 && line[..|s|] == s && line[|s|..|s| + 2] == ": "
    ensures AllDigits(line[|s| + 2..]) && DigitsValue(line[|s| + 2..]) == n
  {
    line := s + ": " + ShowNat(n);
    assert line[|s| + 2..] == ShowNat(n);
    DigitsValueShowNat(n);
    r := s;
  }
}
