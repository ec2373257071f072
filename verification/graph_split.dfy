/** `split` of graph_cpp/graph.cpp: the tokenizer of the command lines, which
    cuts a line into the runs of characters other than space and tab. */
module GraphSplit {

  /** The separators `split` knows: space and tab. */
  predicate IsBlank(c: char) { c == ' ' || c == '\t' }

  predicate NoBlank(s: string) { forall i :: 0 <= i < |s| ==> !IsBlank(s[i]) }

  /** `s.find_first_not_of(" \t")`, with `|s|` standing for `npos`. */
  function FirstNonBlank(s: string): (i: nat)
    ensures i <= |s|
    ensures forall j :: 0 <= j < i ==> IsBlank(s[j])
    ensures i < |s| ==> !IsBlank(s[i])
  {
    if s == [] || !IsBlank(s[0]) then 0 else 1 + FirstNonBlank(s[1..])
  }

  /** `s.find_first_of(" \t")`, with `|s|` standing for `npos`. */
  function FirstBlank(s: string): (i: nat)
    ensures i <= |s|
    ensures forall j :: 0 <= j < i ==> !IsBlank(s[j])
    ensures i < |s| ==> IsBlank(s[i])
  {
    if s == [] || IsBlank(s[0]) then 0 else 1 + FirstBlank(s[1..])
  }

  /** The tokens of `s`: blanks are skipped, and a token runs up to the next
      blank or the end. */
  function Tokens(s: string): seq<string>
    decreases |s|
  {
    if s == [] then []
    else if IsBlank(s[0]) then Tokens(s[1..])
    else
      var e := FirstBlank(s);
      [s[..e]] + Tokens(s[e..])
  }

  /** Skipping the leading blanks does not change the tokens. */
  lemma {:induction false} TokensAfterBlanks(s: string)
    ensures Tokens(s[FirstNonBlank(s)..]) == Tokens(s)
  {
    if s != [] && IsBlank(s[0]) {
      TokensAfterBlanks(s[1..]);
      assert s[FirstNonBlank(s)..] == s[1..][FirstNonBlank(s[1..])..];
    }
  }

  /** `split` as written: `s` is narrowed step by step and each token is
      pushed as it is found. */
  method Split(line: string) returns (res: seq<string>)
    ensures res == Tokens(line)
  {
    res := [];
    var s := line;
    while true
      invariant res + Tokens(s) == Tokens(line)
      decreases |s|
    {
      var b := FirstNonBlank(s);
      TokensAfterBlanks(s);
      if b == |s| {
        assert Tokens(s[b..]) == [];
        break;
      }
      s := s[b..];
      var e := FirstBlank(s);
      if e == |s| {
        assert s[e..] == [];
        res := res + [s];
        assert s[..e] == s;
        break;
      }
      res := res + [s[..e]];
      s := s[e..];
    }
  }

  /** The characters of `s` that are not blanks, in order. */
  function NonBlanks(s: string): (r: string)
    ensures NoBlank(r)
  {
    if s == [] then [] else (if IsBlank(s[0]) then [] else [s[0]]) + NonBlanks(s[1..])
  }

  function Concat(ts: seq<string>): string {
    if ts == [] then [] else ts[0] + Concat(ts[1..])
  }

  lemma {:induction false} NonBlanksAppend(a: string, b: string)
    ensures NonBlanks(a + b) == NonBlanks(a) + NonBlanks(b)
  {
    if a == [] {
      assert a + b == b;
    } else {
      assert (a + b)[1..] == a[1..] + b;
      NonBlanksAppend(a[1..], b);
    }
  }

  lemma {:induction false} NonBlanksOfToken(s: string)
    requires NoBlank(s)
    ensures NonBlanks(s) == s
  {
    if s != [] {
      NonBlanksOfToken(s[1..]);
    }
  }

  /** Every token is non-empty and holds no blank, and the tokens, put back
      together, are the line with its blanks removed: no other character is
      lost, reordered or added. */
  lemma {:induction false} TokensSound(s: string)
    ensures forall i :: 0 <= i < |Tokens(s)| ==> Tokens(s)[i] != [] && NoBlank(Tokens(s)[i])
    ensures Concat(Tokens(s)) == NonBlanks(s)
    decreases |s|
  {
    if s == [] {
    } else if IsBlank(s[0]) {
      TokensSound(s[1..]);
    } else {
      var e := FirstBlank(s);
      TokensSound(s[e..]);
      var t := Tokens(s);
      assert t == [s[..e]] + Tokens(s[e..]);
      assert t[1..] == Tokens(s[e..]);
      NonBlanksOfToken(s[..e]);
      assert s == s[..e] + s[e..];
      NonBlanksAppend(s[..e], s[e..]);
    }
  }

  /** A line of blanks only has no tokens. */
  lemma {:induction false} BlankLine(s: string)
    requires forall i :: 0 <= i < |s| ==> IsBlank(s[i])
    ensures Tokens(s) == []
  {
    if s != [] {
      BlankLine(s[1..]);
    }
  }
}
