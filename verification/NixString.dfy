/** Quoting a value for a Nix file: nixString of web/js/custom_services.js, against the reader
    of double-quoted strings described in the Nix reference manual, "String literals". */
module NixString {
  import opened Wrappers
  import opened Text

  const PATTERNS: seq<string> := ["\\", "\"", "${", "\r", "\n", "\t"]
  const REPLACEMENTS: seq<string> := ["\\\\", "\\\"", "\\${", "\\r", "\\n", "\\t"]

  /** The first `n` of the six chained replacements. */
  function Replaced(s: string, n: nat): string
    requires n <= |PATTERNS|
  {
    if n == 0 then s else ReplaceAll(Replaced(s, n - 1), PATTERNS[n - 1], REPLACEMENTS[n - 1])
  }

  function Quoted(value: string): string {
    "\"" + Replaced(value, |PATTERNS|) + "\""
  }

  /** What one character becomes once the first `n` patterns are escaped, looking at the rest
      of the value behind it. */
  function EscapedChar(c: char, rest: string, n: nat): string {
    if n >= 1 && c == '\\' then "\\\\"
    else if n >= 2 && c == '"' then "\\\""
    else if n >= 3 && c == '$' && StartsWith(rest, "{") then "\\$"
    else if n >= 4 && c == '\r' then "\\r"
    else if n >= 5 && c == '\n' then "\\n"
    else if n >= 6 && c == '\t' then "\\t"
    else [c]
  }

  /** One pass over the value as it came. */
  function Escaped(s: string, n: nat): string {
    if s == "" then "" else EscapedChar(s[0], s[1..], n) + Escaped(s[1..], n)
  }

  lemma ReplaceTwo(c: char, d: char, r: string, what: string, put: string)
    requires what != "" && c != what[0] && d != what[0]
    ensures ReplaceAll([c, d] + r, what, put) == [c, d] + ReplaceAll(r, what, put)
  {
    assert [c, d] + r == [c] + ([d] + r);
    ReplaceMiss(d, r, what, put);
    ReplaceMiss(c, [d] + r, what, put);
  }

  lemma {:induction false} OpeningBrace(s: string, n: nat)
    ensures StartsWith(Escaped(s, n), "{") <==> StartsWith(s, "{")
  {
    if s != "" {
      assert Escaped(s, n)[0] == EscapedChar(s[0], s[1..], n)[0];
    }
  }

  lemma DollarBrace(r: string)
    requires StartsWith(r, "{")
    ensures ReplaceAll("$" + r, "${", "\\${") == "\\$" + ReplaceAll(r, "${", "\\${")
  {
    var after := r[1..];
    assert r == "{" + after && "$" + r == "${" + after;
    ReplaceHit(after, "${", "\\${");
    ReplaceMiss('{', after, "${", "\\${");
    assert "\\${" + ReplaceAll(after, "${", "\\${") == "\\$" + ("{" + ReplaceAll(after, "${", "\\${"));
  }

  /** Replacing the next pattern leaves what is already escaped alone. */
  lemma {:induction false} NextPattern(s: string, n: nat)
    requires n < |PATTERNS|
    ensures ReplaceAll(Escaped(s, n), PATTERNS[n], REPLACEMENTS[n]) == Escaped(s, n + 1)
  {
    if s != "" {
      var c, rest := s[0], s[1..];
      var r := Escaped(rest, n);
      var piece := EscapedChar(c, rest, n);
      NextPattern(rest, n);
      OpeningBrace(rest, n);
      if |piece| == 2 {
        assert piece + r == [piece[0], piece[1]] + r;
        ReplaceTwo(piece[0], piece[1], r, PATTERNS[n], REPLACEMENTS[n]);
      } else if n == 2 && c == '$' && StartsWith(rest, "{") {
        DollarBrace(r);
      } else if [c] == PATTERNS[n] {
        ReplaceHit(r, PATTERNS[n], REPLACEMENTS[n]);
      } else {
        StartsWithCons(c, r, '$', "{");
        assert "${" == ['$'] + "{";
        ReplaceMiss(c, r, PATTERNS[n], REPLACEMENTS[n]);
      }
    }
  }

  /** The chained replacements are one pass: none of them touches what another has put in. */
  lemma {:induction false} ReplacementsAreOnePass(s: string, n: nat)
    requires n <= |PATTERNS|
    ensures Replaced(s, n) == Escaped(s, n)
  {
    if n == 0 {
      NothingEscaped(s);
    } else {
      ReplacementsAreOnePass(s, n - 1);
      NextPattern(s, n - 1);
    }
  }

  lemma {:induction false} NothingEscaped(s: string)
    ensures Escaped(s, 0) == s
  {
    if s != "" {
      NothingEscaped(s[1..]);
    }
  }

  function Unescaped(c: char): char {
    match c
    case 'n' => '\n'
    case 'r' => '\r'
    case 't' => '\t'
    case _ => c
  }

  function Prepend(front: string, rest: Option<string>): Option<string> {
    match rest
    case None => None
    case Some(s) => Some(front + s)
  }

  /** The rest of a string literal up to its closing quote, which must end the text; None for
      an interpolation or an unfinished literal. Two dollars are read together, so the second
      cannot open an interpolation; a raw line ending is read as a newline. */
  function ReadBody(t: string): Option<string> {
    if t == "" then None
    else if t[0] == '"' then (if |t| == 1 then Some("") else None)
    else if t[0] == '\\' then (if |t| == 1 then None else Prepend([Unescaped(t[1])], ReadBody(t[2..])))
    else if StartsWith(t, "$$") then Prepend("$$", ReadBody(t[2..]))
    else if StartsWith(t, "${") then None
    else if StartsWith(t, "\r\n") then Prepend("\n", ReadBody(t[2..]))
    else if t[0] == '\r' then Prepend("\n", ReadBody(t[1..]))
    else Prepend([t[0]], ReadBody(t[1..]))
  }

  function Read(t: string): Option<string> {
    if StartsWith(t, "\"") then ReadBody(t[1..]) else None
  }

  lemma ReadEscape(c: char, t: string)
    ensures ReadBody(['\\', c] + t) == Prepend([Unescaped(c)], ReadBody(t))
  {
    assert (['\\', c] + t)[2..] == t;
  }

  lemma ReadPlain(c: char, t: string)
    requires c !in ['"', '\\', '\r']
    requires c == '$' ==> !StartsWith(t, "$") && !StartsWith(t, "{")
    ensures ReadBody([c] + t) == Prepend([c], ReadBody(t))
  {
    assert ([c] + t)[1..] == t;
    assert "$$" == ['$'] + "$" && "${" == ['$'] + "{" && "\r\n" == ['\r'] + "\n";
    StartsWithCons(c, t, '$', "$");
    StartsWithCons(c, t, '$', "{");
    StartsWithCons(c, t, '\r', "\n");
  }

  lemma ReadDollars(t: string)
    ensures ReadBody("$$" + t) == Prepend("$$", ReadBody(t))
  {
    assert ("$$" + t)[2..] == t;
  }

  /** The literal's text from a value's character on. */
  function Literal(s: string): string {
    Escaped(s, |PATTERNS|) + "\""
  }

  lemma LiteralCons(s: string)
    requires s != ""
    ensures Literal(s) == EscapedChar(s[0], s[1..], |PATTERNS|) + Literal(s[1..])
  {
  }

  /** What follows a lone dollar in the literal can neither pair with it nor open an interpolation. */
  lemma AfterDollar(rest: string)
    requires !StartsWith(rest, "{")
    requires StartsWith(rest, "$") ==> StartsWith(rest[1..], "{")
    ensures !StartsWith(Literal(rest), "$") && !StartsWith(Literal(rest), "{")
  {
    StartsWithOne(rest, '$');
    StartsWithOne(rest, '{');
    StartsWithOne(Literal(rest), '$');
    StartsWithOne(Literal(rest), '{');
    if rest != "" {
      LiteralCons(rest);
      assert Literal(rest)[0] == EscapedChar(rest[0], rest[1..], |PATTERNS|)[0];
    }
  }

  lemma {:induction false} ReadLiteral(s: string)
    ensures ReadBody(Literal(s)) == Some(s)
    decreases |s|
  {
    if s != "" {
      var c, rest := s[0], s[1..];
      var piece := EscapedChar(c, rest, |PATTERNS|);
      LiteralCons(s);
      assert s == [c] + rest;
      if |piece| == 2 {
        ReadLiteral(rest);
        assert piece == ['\\', piece[1]];
        ReadEscape(piece[1], Literal(rest));
      } else if c == '$' && StartsWith(rest, "$") && !StartsWith(rest[1..], "{") {
        ReadLiteral(rest[1..]);
        LiteralCons(rest);
        assert Literal(s) == "$$" + Literal(rest[1..]);
        ReadDollars(Literal(rest[1..]));
        assert s == "$$" + rest[1..];
      } else {
        ReadLiteral(rest);
        if c == '$' {
          AfterDollar(rest);
        }
        ReadPlain(c, Literal(rest));
      }
    }
  }

  /** A quoted value reads back as the value, whatever characters it holds. */
  lemma QuotedReadsBack(value: string)
    ensures Read(Quoted(value)) == Some(value)
  {
    ReplacementsAreOnePass(value, |PATTERNS|);
    ReadLiteral(value);
    assert Quoted(value)[1..] == Literal(value);
  }
}
