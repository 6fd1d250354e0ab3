/** String operations several components use, as the Go and JavaScript libraries define them. */
module Text {
  predicate StartsWith(s: string, p: string) {
    p <= s
  }

  /** Every occurrence of a nonempty pattern, left to right, never twice over the same text:
      `bytes.ReplaceAll`, and `replace` with a global literal pattern. */
  function ReplaceAll(s: string, what: string, put: string): string
    requires what != []
  {
    if s == [] then []
    else if StartsWith(s, what) then put + ReplaceAll(s[|what|..], what, put)
    else [s[0]] + ReplaceAll(s[1..], what, put)
  }

  lemma StartsWithCons(c: char, t: string, q: char, p: string)
    ensures StartsWith([c] + t, [q] + p) <==> c == q && StartsWith(t, p)
  {
    if |p| <= |t| {
      assert ([c] + t)[..1 + |p|] == [c] + t[..|p|];
      assert ([q] + p)[0] == q && ([q] + p)[1..] == p && ([c] + t[..|p|])[1..] == t[..|p|];
    }
  }

  lemma ReplaceHit(r: string, what: string, put: string)
    requires what != ""
    ensures ReplaceAll(what + r, what, put) == put + ReplaceAll(r, what, put)
  {
    assert (what + r)[|what|..] == r;
  }

  lemma ReplaceMiss(c: char, r: string, what: string, put: string)
    requires what != "" && !StartsWith([c] + r, what)
    ensures ReplaceAll([c] + r, what, put) == [c] + ReplaceAll(r, what, put)
  {
    assert ([c] + r)[1..] == r;
  }

  lemma StartsWithOne(s: string, c: char)
    ensures StartsWith(s, [c]) <==> s != "" && s[0] == c
  {
  }
}
