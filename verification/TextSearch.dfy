/** `indexOf` on strings. */
module TextSearch {
  import opened ByteStrings

  /** The first position of `c`, or the length where there is none. */
  function IndexOf(s: string, c: char): (i: nat)
    ensures i <= |s| && c !in s[..i]
    ensures i < |s| ==> s[i] == c
  {
    if |s| == 0 || s[0] == c then 0
    else
      var rest := IndexOf(s[1..], c);
      assert s[..rest + 1] == [s[0]] + s[1..][..rest];
      rest + 1
  }

  lemma {:induction false} IndexOfIsFirst(s: string, c: char, i: nat)
    requires i <= |s| && c !in s[..i]
    requires i < |s| ==> s[i] == c
    ensures IndexOf(s, c) == i
  {
    if i > 0 {
      assert s[..i][0] == s[0] && s[0] != c;
      assert s[1..][..i - 1] == s[..i][1..];
      IndexOfIsFirst(s[1..], c, i - 1);
      assert IndexOf(s, c) == IndexOf(s[1..], c) + 1;
    }
  }

  lemma IndexOfSplit(a: string, c: char, b: string)
    requires c !in a
    ensures IndexOf(a + ([c] + b), c) == |a|
  {
    var s := a + ([c] + b);
    assert s[..|a|] == a && s[|a|] == c;
    IndexOfIsFirst(s, c, |a|);
  }

  /** What comes before and after the first `c`. */
  function SplitFirst(s: string, c: char): Option<(string, string)> {
    var i := IndexOf(s, c);
    if i == |s| then None else Some((s[..i], s[i + 1..]))
  }

  lemma SplitFirstOf(a: string, c: char, b: string)
    requires c !in a
    ensures SplitFirst(a + ([c] + b), c) == Some((a, b))
  {
    IndexOfSplit(a, c, b);
    var s := a + ([c] + b);
    assert s[..|a|] == a && s[|a| + 1..] == b;
  }

  /** A text splits at its first `c` in one way. */
  lemma SplitAtFirst(a1: string, b1: string, a2: string, b2: string, c: char)
    requires c !in a1 && c !in a2
    requires a1 + ([c] + b1) == a2 + ([c] + b2)
    ensures a1 == a2 && b1 == b2
  {
    SplitFirstOf(a1, c, b1);
    SplitFirstOf(a2, c, b2);
  }
}
