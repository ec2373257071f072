/** The optional value shared by every module of the model (Rust's `Option`,
    C++'s `std::optional` and a possibly-null pointer). */
module Wrappers {
  datatype Option<+T> = None | Some(value: T)

  /** `s` is a suffix of `t`: what is left of `t` after a prefix is consumed. */
  predicate IsSuffix<T(==)>(s: seq<T>, t: seq<T>) {
    |s| <= |t| && s == t[|t| - |s|..]
  }

  lemma SuffixTrans<T>(a: seq<T>, b: seq<T>, c: seq<T>)
    requires IsSuffix(a, b) && IsSuffix(b, c)
    ensures IsSuffix(a, c)
  {
    assert c[|c| - |b|..][|b| - |a|..] == c[|c| - |a|..];
  }
}
