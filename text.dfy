/** The two string operations of the .NET base library that the drawer relies on:
    `String.ToLower`, modelled as ASCII lower-casing, and `String.StartsWith`,
    modelled as an ordinal prefix test. */
module Text {

  /** ASCII lower-casing of one character; every other character is kept. */
  function LowerChar(c: char): (r: char)
    ensures !('A' <= r <= 'Z')
    ensures r == c || ('A' <= c <= 'Z' && r as int == c as int + 32)
  {
    if 'A' <= c <= 'Z' then (c as int + 32) as char else c
  }

  /** `s.ToLower()`: the same string with every ASCII upper-case letter lowered. */
  function ToLower(s: string): (r: string)
    ensures |r| == |s|
    ensures forall i :: 0 <= i < |s| ==> r[i] == LowerChar(s[i])
  {
    if s == [] then [] else [LowerChar(s[0])] + ToLower(s[1..])
  }

  /** A string that lower-casing leaves alone, such as the lowered asset root. */
  predicate IsLower(s: string) {
    ToLower(s) == s
  }

  /** `s.StartsWith(prefix)`, compared character by character. */
  predicate StartsWith(s: string, prefix: string) {
    |prefix| <= |s| && s[..|prefix|] == prefix
  }

  /** Lowering twice is lowering once: the result of `ToLower` is lower-case. */
  lemma ToLowerIsLower(s: string)
    ensures IsLower(ToLower(s))
  {
    var t := ToLower(s);
    assert forall i :: 0 <= i < |t| ==> ToLower(t)[i] == t[i];
  }

  /** Lowering distributes over concatenation. */
  lemma ToLowerAppend(a: string, b: string)
    ensures ToLower(a + b) == ToLower(a) + ToLower(b)
  {
    var l, r := ToLower(a + b), ToLower(a) + ToLower(b);
    assert |l| == |r|;
    forall i | 0 <= i < |l| ensures l[i] == r[i] {
      if i < |a| {
        assert (a + b)[i] == a[i];
      } else {
        assert (a + b)[i] == b[i - |a|];
      }
    }
  }

  /** Lowering a prefix gives the prefix of the lowered string. */
  lemma ToLowerPrefix(s: string, n: nat)
    requires n <= |s|
    ensures ToLower(s[..n]) == ToLower(s)[..n]
  {
    var l, r := ToLower(s[..n]), ToLower(s)[..n];
    assert |l| == |r|;
    forall i | 0 <= i < n ensures l[i] == r[i] {
      assert s[..n][i] == s[i];
    }
  }

  /** A string whose first |p| characters lower to `p` starts with `p` once lowered,
      and a string that does start with `p` once lowered is such a string. */
  lemma StartsWithLowered(s: string, p: string)
    ensures StartsWith(ToLower(s), p) <==> |p| <= |s| && ToLower(s[..|p|]) == p
  {
    if |p| <= |s| {
      ToLowerPrefix(s, |p|);
    }
  }
}
