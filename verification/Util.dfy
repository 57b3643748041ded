/** Small things every module shares. */
module Util {
  /** The optional value used where the original returns a value and an error. */
  datatype Option<+T> = None | Some(value: T)

  newtype uint8 = x: int | 0 <= x < 256

  /** A separator that occurs in neither head splits a sequence in only one way. */
  lemma FirstSeparator<T>(a: seq<T>, x: T, b: seq<T>, c: seq<T>, d: seq<T>)
    requires x !in a && x !in c
    requires a + [x] + b == c + [x] + d
    ensures a == c && b == d
  {
    var s, t := a + [x] + b, c + [x] + d;
    assert s[|a|] == x && forall i :: 0 <= i < |a| ==> s[i] == a[i] != x;
    assert t[|c|] == x && forall i :: 0 <= i < |c| ==> t[i] == c[i] != x;
    assert a == s[..|a|] && c == s[..|c|];
    assert b == s[|a| + 1..] && d == s[|c| + 1..];
  }
}
