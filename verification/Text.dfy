/** The string helpers the policy classifier, the caveat checker and the generated Rego share. */
module Text {

  /** Unicode white space, as Go's strings.TrimSpace and Rego's trim_space read it. */
  predicate IsSpace(c: char) {
    || c in {' ', '\t', '\n', '\r', '\U{0B}', '\U{0C}', '\U{85}', '\U{A0}'}
    || c in {'\U{1680}', '\U{2028}', '\U{2029}', '\U{202F}', '\U{205F}', '\U{3000}'}
    || '\U{2000}' <= c <= '\U{200A}'
  }

  function TrimLeft(s: string): string {
    if s != "" && IsSpace(s[0]) then TrimLeft(s[1..]) else s
  }

  function TrimRight(s: string): string {
    if s != "" && IsSpace(s[|s| - 1]) then TrimRight(s[..|s| - 1]) else s
  }

  function Trim(s: string): string {
    TrimRight(TrimLeft(s))
  }

  /** strings.Split(s, ","): always at least one part. */
  function Split(s: string): (parts: seq<string>)
    ensures parts != []
  {
    if s == "" then [""]
    else
      var rest := Split(s[1..]);
      if s[0] == ',' then [""] + rest
      else [[s[0]] + rest[0]] + rest[1..]
  }

  /** The parts with a comma between each two. */
  function Join(parts: seq<string>): string
    requires parts != []
  {
    if |parts| == 1 then parts[0] else parts[0] + "," + Join(parts[1..])
  }

  ghost predicate CommaFree(parts: seq<string>) {
    forall i :: 0 <= i < |parts| ==> ',' !in parts[i]
  }

  /** No part holds a comma, and the parts joined by commas give the text back. */
  lemma {:induction false} SplitJoins(s: string)
    ensures CommaFree(Split(s)) && Join(Split(s)) == s
  {
    if s != "" {
      SplitJoins(s[1..]);
      var rest := Split(s[1..]);
      if s[0] == ',' {
        assert ([""] + rest)[1..] == rest;
        assert s == "," + s[1..];
      } else {
        var first := [s[0]] + rest[0];
        assert ([first] + rest[1..])[1..] == rest[1..];
        assert s == [s[0]] + s[1..];
      }
    }
  }

  /** And they are the only parts that do. */
  lemma {:induction false} SplitIsOnly(parts: seq<string>)
    requires parts != [] && CommaFree(parts)
    ensures Split(Join(parts)) == parts
    decreases |parts|, |parts[0]|
  {
    var s := Join(parts);
    if parts[0] == "" {
      if |parts| > 1 {
        SplitIsOnly(parts[1..]);
        assert s == "," + Join(parts[1..]) && s[1..] == Join(parts[1..]);
        assert parts == [""] + parts[1..];
      } else {
        assert parts == [""];
      }
    } else {
      var shorter := [parts[0][1..]] + parts[1..];
      assert shorter[1..] == parts[1..];
      assert s[0] == parts[0][0] && s[1..] == Join(shorter);
      SplitIsOnly(shorter);
      assert parts[0] == [s[0]] + shorter[0];
      assert parts == [parts[0]] + parts[1..];
    }
  }

  ghost predicate AllSpace(s: string) {
    forall i :: 0 <= i < |s| ==> IsSpace(s[i])
  }

  lemma {:induction false} TrimLeftMeans(s: string) returns (pre: string)
    ensures s == pre + TrimLeft(s) && AllSpace(pre)
    ensures TrimLeft(s) == "" || !IsSpace(TrimLeft(s)[0])
  {
    pre := "";
    if s != "" && IsSpace(s[0]) {
      var more := TrimLeftMeans(s[1..]);
      pre := [s[0]] + more;
    }
  }

  lemma {:induction false} TrimRightMeans(s: string) returns (post: string)
    ensures s == TrimRight(s) + post && AllSpace(post)
    ensures TrimRight(s) == "" || !IsSpace(TrimRight(s)[|TrimRight(s)| - 1])
    decreases |s|
  {
    post := "";
    if s != "" && IsSpace(s[|s| - 1]) {
      var more := TrimRightMeans(s[..|s| - 1]);
      post := more + [s[|s| - 1]];
    }
  }

  /** Trimming takes white space off both ends, all of it and nothing else. */
  lemma TrimMeans(s: string) returns (pre: string, post: string)
    ensures s == pre + Trim(s) + post && AllSpace(pre) && AllSpace(post)
    ensures Trim(s) == "" || (!IsSpace(Trim(s)[0]) && !IsSpace(Trim(s)[|Trim(s)| - 1]))
  {
    pre := TrimLeftMeans(s);
    post := TrimRightMeans(TrimLeft(s));
    assert TrimLeft(s) == Trim(s) + post;
    if Trim(s) != "" {
      assert Trim(s)[0] == TrimLeft(s)[0];
    }
  }

  /** The parts that trim to something, trimmed, in order. */
  function Kept(parts: seq<string>): seq<string> {
    if parts == [] then []
    else
      var p := Trim(parts[0]);
      (if p == "" then [] else [p]) + Kept(parts[1..])
  }

  /** The members of a comma-separated set. */
  function Members(s: string): seq<string> {
    Kept(Split(s))
  }

  lemma {:induction false} KeptIff(parts: seq<string>, m: string)
    ensures m in Kept(parts) <==> m != "" && exists p :: p in parts && Trim(p) == m
  {
    if parts != [] {
      KeptIff(parts[1..], m);
      assert parts == [parts[0]] + parts[1..];
    }
  }

  /** Membership in the set a caveat names: some part trims to exactly that non-empty string. */
  lemma MemberIff(s: string, m: string)
    ensures m in Members(s) <==> m != "" && exists p :: p in Split(s) && Trim(p) == m
  {
    KeptIff(Split(s), m);
  }

  /** splitSet: trims each part and drops the empty ones. */
  method SplitSet(s: string) returns (out: seq<string>)
    ensures out == Members(s)
  {
    var parts := Split(s);
    out := [];
    for i := 0 to |parts|
      invariant out + Kept(parts[i..]) == Kept(parts)
    {
      var p := Trim(parts[i]);
      assert parts[i..][1..] == parts[i + 1..];
      if p != "" {
        assert out + Kept(parts[i..]) == out + [p] + Kept(parts[i + 1..]);
        out := out + [p];
      }
    }
  }
}
