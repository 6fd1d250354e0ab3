/** What a slug and the other cleaned texts of web/js/custom_services.js say of the text they come
    from: the words it is made of, and what is cut off where. */
module SlugWords {
  import opened Text
  import opened FreeNames
  import opened CustomServices

  /** The longest runs of letters and digits, in order. */
  function Words(s: string): (words: seq<string>)
    ensures s != "" && IsAlnum(s[0]) ==> words != []
    ensures forall i :: 0 <= i < |words| ==> words[i] != "" && forall j :: 0 <= j < |words[i]| ==> IsAlnum(words[i][j])
    ensures words == [] <==> forall i :: 0 <= i < |s| ==> !IsAlnum(s[i])
  {
    if s == "" then [] else
    var rest := Words(s[1..]);
    assert forall i :: 0 < i < |s| ==> s[i] == s[1..][i - 1];
    if !IsAlnum(s[0]) then rest
    else if |s| > 1 && IsAlnum(s[1]) then [[s[0]] + rest[0]] + rest[1..]
    else [[s[0]]] + rest
  }

  function Joined(words: seq<string>): string {
    if words == [] then "" else if |words| == 1 then words[0] else words[0] + (['-'] + Joined(words[1..]))
  }

  function DashIf(gap: bool): string {
    if gap then ['-'] else []
  }

  /** Something stands in front of the first word. */
  predicate Front(s: string) {
    s != "" && !IsAlnum(s[0])
  }

  /** Something stands behind the last word. */
  predicate Back(s: string) {
    Words(s) != [] && !IsAlnum(s[|s| - 1])
  }

  lemma ConcatMoves(a: string, b: string, c: string)
    ensures a + (b + c) == (a + b) + c
  {
  }

  lemma JoinedWithLetter(c: char, words: seq<string>)
    requires words != []
    ensures Joined([[c] + words[0]] + words[1..]) == [c] + Joined(words)
  {
    var longer := [[c] + words[0]] + words[1..];
    if |words| > 1 {
      assert longer[1..] == words[1..];
      ConcatMoves([c], words[0], ['-'] + Joined(words[1..]));
    }
  }

  lemma {:induction false} JoinedEdges(words: seq<string>)
    requires words != []
    requires forall i :: 0 <= i < |words| ==> words[i] != "" && forall j :: 0 <= j < |words[i]| ==> IsAlnum(words[i][j])
    ensures var t := Joined(words); t != "" && IsAlnum(t[0]) && IsAlnum(t[|t| - 1])
  {
    if |words| > 1 {
      JoinedEdges(words[1..]);
    }
  }

  /** A single letter, and then a gap. */
  lemma WordThenGap(c: char, s: string, t: string)
    requires s == [c] + t && t != "" && IsAlnum(c) && !IsAlnum(t[0])
    ensures !Front(s) && Front(t) && (Back(s) <==> Words(t) == [] || Back(t))
    ensures Joined(Words(s)) == if Words(t) == [] then [c] else [c] + (['-'] + Joined(Words(t)))
  {
    assert s[1..] == t && s[|s| - 1] == t[|t| - 1];
    assert Words(s) == [[c]] + Words(t);
    assert Words(s)[1..] == Words(t);
  }

  /** A letter in front of a word. */
  lemma LetterThenWord(c: char, s: string, t: string)
    requires s == [c] + t && t != "" && IsAlnum(c) && IsAlnum(t[0])
    ensures !Front(s) && !Front(t) && Back(s) == Back(t)
    ensures Joined(Words(s)) == [c] + Joined(Words(t))
  {
    assert s[1..] == t && s[1] == t[0] && s[|s| - 1] == t[|t| - 1];
    assert Words(s) == [[c] + Words(t)[0]] + Words(t)[1..];
    JoinedWithLetter(c, Words(t));
  }

  /** Anything else in front. */
  lemma GapInFront(c: char, s: string, t: string)
    requires s == [c] + t && t != "" && !IsAlnum(c)
    ensures Front(s) && Words(s) == Words(t) && Back(s) == Back(t)
  {
    assert s[1..] == t && s[|s| - 1] == t[|t| - 1];
  }

  lemma CollapseOne(c: char, s: string, t: string)
    requires s == [c] + t
    ensures IsAlnum(c) ==> Collapse(s) == [c] + Collapse(t)
    ensures !IsAlnum(c) ==> Collapse(s) == if t != "" && !IsAlnum(t[0]) then Collapse(t) else ['-'] + Collapse(t)
  {
    assert s[1..] == t;
  }

  /** What collapsing is said to give, without naming it. */
  function Dashes(s: string): string {
    DashIf(Front(s)) + (Joined(Words(s)) + DashIf(Back(s)))
  }

  lemma DashesOne(c: char, s: string, t: string)
    requires s == [c] + t && t != ""
    ensures IsAlnum(c) ==> Dashes(s) == [c] + Dashes(t)
    ensures !IsAlnum(c) ==> Dashes(s) == if !IsAlnum(t[0]) then Dashes(t) else ['-'] + Dashes(t)
  {
    var j, b := Joined(Words(t)), DashIf(Back(t));
    if IsAlnum(c) && IsAlnum(t[0]) {
      LetterThenWord(c, s, t);
      NoDashInFront(j + b);
      NoDashInFront(([c] + j) + b);
      ConcatMoves([c], j, b);
    } else if IsAlnum(c) {
      WordThenGap(c, s, t);
      NoDashInFront(Joined(Words(s)) + DashIf(Back(s)));
      if Words(t) != [] {
        ConcatMoves([c], ['-'] + j, b);
        ConcatMoves(['-'], j, b);
      }
    } else {
      GapInFront(c, s, t);
      NoDashInFront(j + b);
    }
  }

  lemma NoDashInFront(s: string)
    ensures DashIf(false) + s == s
  {
  }

  /** Collapsing keeps the words and puts single dashes between them, and at the ends. */
  lemma {:induction false} CollapseIs(s: string)
    ensures Collapse(s) == Dashes(s)
  {
    if |s| == 1 {
      assert s[1..] == "" && s == [s[0]];
    } else if s != "" {
      CollapseIs(s[1..]);
      CollapseOne(s[0], s, s[1..]);
      DashesOne(s[0], s, s[1..]);
    }
  }

  lemma TrimStartDrops(c: char, rest: string, drop: char -> bool)
    requires drop(c)
    ensures TrimStart([c] + rest, drop) == TrimStart(rest, drop)
  {
    assert ([c] + rest)[1..] == rest;
  }

  lemma TrimEndDrops(c: char, rest: string, drop: char -> bool)
    requires drop(c)
    ensures TrimEnd(rest + [c], drop) == TrimEnd(rest, drop)
  {
    assert (rest + [c])[..|rest + [c]| - 1] == rest;
  }

  lemma StripIs(front: bool, middle: string, back: bool)
    requires middle == "" ==> !back
    requires middle != "" ==> !IsDash(middle[0]) && !IsDash(middle[|middle| - 1])
    ensures StripDashes(DashIf(front) + middle + DashIf(back)) == middle
  {
    var rest := middle + DashIf(back);
    ConcatMoves(DashIf(front), middle, DashIf(back));
    if front {
      TrimStartDrops('-', rest, IsDash);
    } else {
      assert DashIf(front) + rest == rest;
    }
    assert rest == "" || !IsDash(rest[0]);
    if back {
      TrimEndDrops('-', middle, IsDash);
    } else {
      assert rest == middle;
    }
  }

  lemma EndsOfJoined(s: string)
    ensures var middle := Joined(Words(s));
            && (middle == "" ==> !Back(s))
            && (middle != "" ==> !IsDash(middle[0]) && !IsDash(middle[|middle| - 1]))
    ensures Words(s) != [] ==> Joined(Words(s)) != ""
  {
    if Words(s) != [] {
      JoinedEdges(Words(s));
    }
  }

  /** Before the cut, a slug is the words of the text with single dashes between them. */
  lemma StrippedIsJoined(s: string)
    ensures StripDashes(Collapse(s)) == Joined(Words(s))
  {
    CollapseIs(s);
    EndsOfJoined(s);
    ConcatMoves(DashIf(Front(s)), Joined(Words(s)), DashIf(Back(s)));
    StripIs(Front(s), Joined(Words(s)), Back(s));
  }

  lemma JoinedIsDashed(s: string)
    ensures Dashed(Joined(Words(s)))
  {
    StrippedIsJoined(s);
    CollapseIsDashed(s);
    StripIsDashed(Collapse(s));
  }

  /** A cut that does not end in a dash takes at most one character more than it has to. */
  lemma CutTakesLittle(s: string, room: nat) returns (n: nat)
    requires Dashed(s) && s != "" && !IsDash(s[|s| - 1])
    ensures n <= |s| && TrimEnd(SliceTo(s, room), IsDash) == s[..n]
    ensures if |s| <= room then n == |s| else n <= room <= n + 1
  {
    var cut := SliceTo(s, room);
    n := |TrimEnd(cut, IsDash)|;
    if room < |s| && cut != "" && IsDash(cut[|cut| - 1]) {
      assert |cut| > 1 ==> !DashPair(s, |cut| - 2);
      var shorter := cut[..|cut| - 1];
      assert shorter == "" || !IsDash(shorter[|shorter| - 1]);
      assert TrimEnd(cut, IsDash) == shorter;
    }
  }

  /** A slug is made of the words of the text, in order, joined by single dashes and cut to 48
      characters, or 47 where the cut would leave a dash; without any word it is a fixed name. */
  lemma SlugIsWords(s: string)
    ensures Words(s) == [] ==> Slug(s) == "servico"
    ensures var joined := Joined(Words(s));
            Words(s) != [] ==>
              && Slug(s) <= joined
              && if |joined| <= MAX_ID_LENGTH then Slug(s) == joined
                 else MAX_ID_LENGTH - 1 <= |Slug(s)| <= MAX_ID_LENGTH
  {
    StrippedIsJoined(s);
    JoinedIsDashed(s);
    EndsOfJoined(s);
    if Words(s) != [] {
      var n := CutTakesLittle(Joined(Words(s)), MAX_ID_LENGTH);
    }
  }

  /** The id tried for a suffix is the base, cut no more than needed, a dash and the number. */
  lemma SuffixedIdIs(base: string, suffix: nat) returns (n: nat)
    requires Canonical(base) && |Decimal(suffix)| < MAX_ID_LENGTH
    ensures n <= |base| && SuffixedId(base, suffix) == base[..n] + "-" + Decimal(suffix)
    ensures var room := MAX_ID_LENGTH - 1 - |Decimal(suffix)|;
            if |base| <= room then n == |base| else n <= room <= n + 1
  {
    n := CutTakesLittle(base, MAX_ID_LENGTH - (1 + |Decimal(suffix)|));
  }

  lemma {:induction false} TrimStartIs(s: string, drop: char -> bool) returns (i: nat)
    ensures i <= |s| && TrimStart(s, drop) == s[i..]
    ensures (forall k :: 0 <= k < i ==> drop(s[k])) && (i < |s| ==> !drop(s[i]))
  {
    if s != "" && drop(s[0]) {
      var rest := s[1..];
      var n := TrimStartIs(rest, drop);
      i := n + 1;
      forall k | 0 <= k < i ensures drop(s[k]) {
        assert k > 0 ==> s[k] == rest[k - 1];
      }
      assert rest[n..] == s[i..];
    } else {
      i := 0;
      assert s[0..] == s;
    }
  }

  lemma {:induction false} TrimEndIs(s: string, drop: char -> bool) returns (j: nat)
    ensures j <= |s| && TrimEnd(s, drop) == s[..j]
    ensures (forall k :: j <= k < |s| ==> drop(s[k])) && (j > 0 ==> !drop(s[j - 1]))
  {
    if s != "" && drop(s[|s| - 1]) {
      j := TrimEndIs(s[..|s| - 1], drop);
      assert s[..|s| - 1][..j] == s[..j];
    } else {
      j := |s|;
      assert s[..|s|] == s;
    }
  }

  /** From `i` up to `j` stands what is left between the dropped characters at both ends. */
  ghost predicate Trims(s: string, drop: char -> bool, i: nat, j: nat) {
    && i <= j <= |s|
    && (forall k :: 0 <= k < i || j <= k < |s| ==> drop(s[k]))
    && (i < j ==> !drop(s[i]) && !drop(s[j - 1]))
  }

  lemma TrimmedIs(s: string, drop: char -> bool) returns (i: nat, j: nat)
    ensures Trims(s, drop, i, j) && TrimEnd(TrimStart(s, drop), drop) == s[i..j]
  {
    i := TrimStartIs(s, drop);
    var n := TrimEndIs(s[i..], drop);
    j := i + n;
    TailTrims(s, s[i..], drop, i, n);
  }

  lemma TailTrims(s: string, tail: string, drop: char -> bool, i: nat, n: nat)
    requires i <= |s| && tail == s[i..] && n <= |tail|
    requires (forall k :: 0 <= k < i ==> drop(s[k])) && (i < |s| ==> !drop(s[i]))
    requires (forall k :: n <= k < |tail| ==> drop(tail[k])) && (n > 0 ==> !drop(tail[n - 1]))
    ensures Trims(s, drop, i, i + n) && tail[..n] == s[i..i + n]
  {
    forall k | i + n <= k < |s| ensures drop(s[k]) {
      assert s[k] == tail[k - i];
    }
    assert n > 0 ==> tail[n - 1] == s[i + n - 1];
  }

  /** Cleaned text is the text between the spaces at its ends, up to the given length. */
  lemma CleanTextIs(value: string, maxLength: nat) returns (i: nat, j: nat)
    ensures Trims(value, IsSpace, i, j)
    ensures CleanText(value, maxLength) == value[i..if j - i <= maxLength then j else i + maxLength]
  {
    i, j := TrimmedIs(value, IsSpace);
    SliceOfSlice(value, i, j, maxLength);
  }

  lemma SliceOfSlice(value: string, i: nat, j: nat, maxLength: nat)
    requires i <= j <= |value|
    ensures SliceTo(value[i..j], maxLength) == value[i..if j - i <= maxLength then j else i + maxLength]
  {
    if maxLength < j - i {
      assert value[i..j][..maxLength] == value[i..i + maxLength];
    }
  }

  /** A host prefix is the text between the slashes at its ends. */
  lemma HostPrefixIs(u: Unicode, h: HostService) returns (i: nat, j: nat)
    ensures var clean := CleanText(h.prefix, MAX_ID_LENGTH + 1);
            Trims(clean, IsSlash, i, j) && HostPrefix(u, h) == u.lower(clean[i..j])
  {
    i, j := TrimmedIs(CleanText(h.prefix, MAX_ID_LENGTH + 1), IsSlash);
  }

  lemma CleanSlashed(route: string)
    requires Canonical(route)
    ensures CleanText("/" + route, MAX_ID_LENGTH + 1) == "/" + route
  {
    var s := "/" + route;
    assert !IsSpace(s[0]) && s[|s| - 1] == route[|route| - 1] && !IsSpace(s[|s| - 1]);
    assert TrimStart(s, IsSpace) == s && TrimEnd(s, IsSpace) == s;
  }

  lemma UnslashedIs(route: string)
    requires Canonical(route)
    ensures TrimEnd(TrimStart("/" + route, IsSlash), IsSlash) == route
  {
    assert "/" + route == ['/'] + route;
    TrimStartDrops('/', route, IsSlash);
    assert !IsSlash(route[0]) && !IsSlash(route[|route| - 1]);
  }

  /** A new service takes no route the host serves: neither an id nor what stands behind the slash
      of a prefix. */
  lemma NewIdAvoidsRoutes(u: Unicode, name: string, host: seq<HostService>, custom: seq<CustomService>,
                          h: HostService, route: string)
    requires KeepsCanonical(u) && h in host && Canonical(route)
    requires h.id == route || h.prefix == "/" + route
    ensures NewConfigId(u, name, host, custom) != route
  {
    NewIdIsUnused(u, name, host, custom);
    CanonicalIsLower(u, route);
    if h.id == route {
      CleanKeepsCanonical(route, MAX_ID_LENGTH);
    } else {
      CleanSlashed(route);
      UnslashedIs(route);
    }
  }
}
