/** Character selection on strings, shared by the numeric normaliser and the string
    filters: the global replace and match calls they make keep or remove characters one
    at a time. */
module Text {

  /** The characters of `s` that satisfy `keep`, in their original order. */
  function Select(s: string, keep: char -> bool): (r: string)
    ensures |r| <= |s|
    ensures forall i :: 0 <= i < |r| ==> keep(r[i])
    ensures (forall i :: 0 <= i < |s| ==> keep(s[i])) ==> r == s
    ensures r == "" <==> forall i :: 0 <= i < |s| ==> !keep(s[i])
  {
    if s == "" then ""
    else
      var rest := Select(s[1..], keep);
      if keep(s[0]) then [s[0]] + rest else rest
  }

  lemma SelectCons(x: char, rest: string, keep: char -> bool)
    ensures Select([x] + rest, keep) == if keep(x) then [x] + Select(rest, keep) else Select(rest, keep)
  {
    assert ([x] + rest)[1..] == rest;
  }

  lemma ConsAssociates(x: char, a: string, b: string)
    ensures [x] + (a + b) == ([x] + a) + b
  {
  }

  lemma SelectHead(s: string, keep: char -> bool)
    requires s != ""
    ensures Select(s, keep) == if keep(s[0]) then [s[0]] + Select(s[1..], keep) else Select(s[1..], keep)
  {
  }

  lemma SelectFirst(s: string, keep: char -> bool)
    requires s != "" && keep(s[0])
    ensures Select(s, keep) != "" && Select(s, keep)[0] == s[0]
  {
  }

  /** Every character of `s` satisfies `p`. */
  predicate All(s: string, p: char -> bool)
  {
    forall i :: 0 <= i < |s| ==> p(s[i])
  }

  /** A property every character has survives selection. */
  lemma {:induction false} SelectKeepsAll(s: string, keep: char -> bool, p: char -> bool)
    requires All(s, p)
    ensures All(Select(s, keep), p)
  {
    if s != "" {
      SelectKeepsAll(s[1..], keep, p);
    }
  }

  /** `a` can be obtained from `b` by deleting characters. */
  predicate Subsequence(a: string, b: string)
    decreases |b|
  {
    if a == "" then true
    else if b == "" then false
    else (a[0] == b[0] && Subsequence(a[1..], b[1..])) || Subsequence(a, b[1..])
  }

  lemma {:induction false} SubsequenceOfItself(s: string)
    ensures Subsequence(s, s)
  {
    if s != "" { SubsequenceOfItself(s[1..]); }
  }

  lemma {:induction false} SubsequenceTransitive(a: string, b: string, c: string)
    requires Subsequence(a, b) && Subsequence(b, c)
    ensures Subsequence(a, c)
    decreases |c|
  {
    if a != "" {
      if Subsequence(b, c[1..]) {
        SubsequenceTransitive(a, b, c[1..]);
      } else if a[0] == b[0] && Subsequence(a[1..], b[1..]) {
        SubsequenceTransitive(a[1..], b[1..], c[1..]);
      } else {
        SubsequenceTransitive(a, b[1..], c[1..]);
      }
    }
  }

  /** Selection keeps the order of what it keeps. */
  lemma {:induction false} SelectIsSubsequence(s: string, keep: char -> bool)
    ensures Subsequence(Select(s, keep), s)
  {
    if s != "" {
      SelectIsSubsequence(s[1..], keep);
      var r := Select(s, keep);
      if keep(s[0]) {
        assert r[1..] == Select(s[1..], keep);
      }
    }
  }

  lemma {:induction false} SelectAppend(a: string, b: string, keep: char -> bool)
    ensures Select(a + b, keep) == Select(a, keep) + Select(b, keep)
  {
    if a == "" {
      assert a + b == b;
    } else {
      assert (a + b)[0] == a[0] && (a + b)[1..] == a[1..] + b;
      SelectAppend(a[1..], b, keep);
    }
  }

  /** Selecting under a stricter test after a looser one is selecting under the
      stricter one alone. */
  lemma {:induction false} SelectThenSelect(s: string, loose: char -> bool, strict: char -> bool)
    requires forall c :: strict(c) ==> loose(c)
    ensures Select(Select(s, loose), strict) == Select(s, strict)
  {
    if s != "" {
      SelectThenSelect(s[1..], loose, strict);
      if loose(s[0]) {
        assert ([s[0]] + Select(s[1..], loose))[1..] == Select(s[1..], loose);
      }
    }
  }
}
