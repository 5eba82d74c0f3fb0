/** The code-unit order of strings, and `Array.from(new Set(xs)).sort()` as a function. */
module TextOrder {
  /** Strict lexicographic order. */
  predicate Less(a: string, b: string) {
    if |b| == 0 then false
    else if |a| == 0 then true
    else a[0] < b[0] || (a[0] == b[0] && Less(a[1..], b[1..]))
  }

  /** `k` is where two texts first differ: one ends there, or the code units there differ. */
  predicate DifferAt(a: string, b: string, k: nat) {
    && k <= |a| && k <= |b| && a[..k] == b[..k]
    && (if k < |a| && k < |b| then a[k] != b[k] else |a| != |b|)
  }

  /** The order is decided at the first difference: by the end of the shorter text, else by the code units. */
  lemma {:induction false} FirstDifferenceDecides(a: string, b: string, k: nat)
    requires DifferAt(a, b, k)
    ensures Less(a, b) <==> if k < |a| && k < |b| then a[k] as int < b[k] as int else |a| < |b|
    decreases k
  {
    if k > 0 {
      assert a[..k][0] == a[0] && b[..k][0] == b[0];
      assert a[1..][..k - 1] == a[..k][1..] && b[1..][..k - 1] == b[..k][1..];
      FirstDifferenceDecides(a[1..], b[1..], k - 1);
    }
  }

  lemma LessIsTotal(a: string, b: string)
    ensures a == b || Less(a, b) || Less(b, a)
  {
    if |a| > 0 && |b| > 0 && a[0] == b[0] {
      LessIsTotal(a[1..], b[1..]);
      assert a == [a[0]] + a[1..] && b == [b[0]] + b[1..];
    }
  }

  lemma LessIsTransitive(a: string, b: string, c: string)
    requires Less(a, b) && Less(b, c)
    ensures Less(a, c)
  {
    if |a| > 0 && a[0] == b[0] == c[0] {
      LessIsTransitive(a[1..], b[1..], c[1..]);
    }
  }

  lemma LessIsIrreflexive(a: string)
    ensures !Less(a, a)
  {
  }

  ghost predicate StrictlySorted(s: seq<string>) {
    forall i, j :: 0 <= i < j < |s| ==> Less(s[i], s[j])
  }

  function Insert(x: string, s: seq<string>): (r: seq<string>)
    requires StrictlySorted(s)
    ensures StrictlySorted(r)
    ensures forall y :: y in r <==> y == x || y in s
  {
    if |s| == 0 then [x]
    else if x == s[0] then s
    else if Less(x, s[0]) then
      (forall j | 0 <= j < |s| ensures Less(x, s[j]) { if j > 0 { LessIsTransitive(x, s[0], s[j]); } }
       [x] + s)
    else
      LessIsTotal(x, s[0]);
      var rest := Insert(x, s[1..]);
      assert forall j :: 0 <= j < |rest| ==> Less(s[0], rest[j]) by {
        forall j | 0 <= j < |rest| ensures Less(s[0], rest[j]) {
          assert rest[j] in rest;
        }
      }
      [s[0]] + rest
  }

  /** Deduplicate and sort. */
  function SortDistinct(xs: seq<string>): (r: seq<string>)
    ensures StrictlySorted(r)
    ensures forall y :: y in r <==> y in xs
  {
    if |xs| == 0 then [] else Insert(xs[0], SortDistinct(xs[1..]))
  }

  lemma {:induction false} SortedFormIsUnique(s: seq<string>, t: seq<string>)
    requires StrictlySorted(s) && StrictlySorted(t)
    requires forall y :: y in s <==> y in t
    ensures s == t
  {
    if |t| > 0 {
      assert t[0] in s;
    }
    if |s| > 0 {
      assert s[0] in t;
      HeadsAgree(s, t);
      forall y ensures y in s[1..] <==> y in t[1..] {
        HeadIsNotInTail(s);
        HeadIsNotInTail(t);
        assert s == [s[0]] + s[1..] && t == [t[0]] + t[1..];
        assert y in s <==> y == s[0] || y in s[1..];
        assert y in t <==> y == t[0] || y in t[1..];
      }
      SortedFormIsUnique(s[1..], t[1..]);
      assert s == [s[0]] + s[1..] && t == [t[0]] + t[1..];
    }
  }

  lemma HeadIsNotInTail(s: seq<string>)
    requires StrictlySorted(s) && |s| > 0
    ensures s[0] !in s[1..]
  {
    if s[0] in s[1..] {
      var j :| 1 <= j < |s| && s[j] == s[0];
      LessIsIrreflexive(s[0]);
    }
  }

  lemma HeadsAgree(s: seq<string>, t: seq<string>)
    requires StrictlySorted(s) && StrictlySorted(t) && |s| > 0 && |t| > 0
    requires s[0] in t && t[0] in s
    ensures s[0] == t[0]
  {
    if s[0] != t[0] {
      assert Less(t[0], s[0]);
      assert Less(s[0], t[0]);
      LessIsTransitive(s[0], t[0], s[0]);
      LessIsIrreflexive(s[0]);
    }
  }

  /** Only the set of strings matters: order and repeats do not. */
  lemma SortDistinctIgnoresOrderAndRepeats(xs: seq<string>, ys: seq<string>)
    requires forall y :: y in xs <==> y in ys
    ensures SortDistinct(xs) == SortDistinct(ys)
  {
    SortedFormIsUnique(SortDistinct(xs), SortDistinct(ys));
  }
}
