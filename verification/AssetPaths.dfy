/** Rewriting root-absolute asset references under a mount prefix: rewriteAssetPaths of
    internal/proxy/router.go. Bytes are modelled as characters. */
module AssetPaths {
  import opened Text

  type Bytes = string

  const QUOTES: seq<char> := ['"', '\'', '`', '(']
  const FAMILIES: seq<Bytes> := ["/assets/", "/locales/"]

  /** One of the eight passes. */
  function Pass(body: Bytes, prefix: Bytes, family: Bytes, q: char): Bytes {
    ReplaceAll(body, [q] + family, [q] + (prefix + family))
  }

  /** The body after all quotes of the first `f` families and the first `q` of the next. */
  function Passes(body: Bytes, prefix: Bytes, f: nat, q: nat): Bytes
    requires f <= |FAMILIES| && q <= |QUOTES| && (f == |FAMILIES| ==> q == 0)
    decreases f, q
  {
    if q > 0 then Pass(Passes(body, prefix, f, q - 1), prefix, FAMILIES[f], QUOTES[q - 1])
    else if f > 0 then Passes(body, prefix, f - 1, |QUOTES|)
    else body
  }

  function Rewritten(body: Bytes, prefix: Bytes): Bytes {
    Passes(body, prefix, |FAMILIES|, 0)
  }

  predicate IsDelim(c: char) {
    c in QUOTES
  }

  /** No delimiter in sight. */
  predicate Free(s: Bytes) {
    forall i :: 0 <= i < |s| ==> !IsDelim(s[i])
  }

  predicate StartsFamily(s: Bytes) {
    exists f :: 0 <= f < |FAMILIES| && StartsWith(s, FAMILIES[f])
  }

  /** `lead` and then a family. */
  predicate LeadsToFamily(s: Bytes, lead: Bytes) {
    StartsWith(s, lead) && StartsFamily(s[|lead|..])
  }

  /** One left-to-right pass: after every delimiter followed by `strip` and a family, `strip`
      gives way to `add`. With an empty `strip` it mounts, with an empty `add` it unmounts. */
  function Swap(s: Bytes, strip: Bytes, add: Bytes): Bytes {
    if s == [] then []
    else if IsDelim(s[0]) && LeadsToFamily(s[1..], strip) then [s[0]] + add + Swap(s[1..][|strip|..], strip, add)
    else [s[0]] + Swap(s[1..], strip, add)
  }

  /** A prefix the passes can mount under: free of delimiters and not itself leading into a
      family, which would make the result look like one more reference to rewrite. */
  predicate Mountable(prefix: Bytes) {
    Free(prefix) && (prefix != [] ==> !StartsFamily(prefix + "/"))
  }

  /** A delimiter-free prefix whose mounted asset references no later pass takes for locales. */
  predicate MountsOnce(prefix: Bytes) {
    Free(prefix) && !StartsWith(prefix + "/", FAMILIES[1])
  }

  /** A delimiter and the delimiter-free text behind it. */
  datatype Part = Part(delim: char, tail: Bytes) {
    predicate Valid() {
      IsDelim(delim) && Free(tail)
    }
  }

  ghost predicate AllValid(parts: seq<Part>) {
    forall i :: 0 <= i < |parts| ==> parts[i].Valid()
  }

  function Render(parts: seq<Part>): Bytes {
    if parts == [] then [] else [parts[0].delim] + parts[0].tail + Render(parts[1..])
  }

  /** Any body is a delimiter-free head followed by parts. */
  lemma {:induction false} Decompose(s: Bytes) returns (head: Bytes, parts: seq<Part>)
    ensures Free(head) && AllValid(parts) && s == head + Render(parts)
  {
    if s == [] {
      head, parts := [], [];
    } else {
      head, parts := Decompose(s[1..]);
      if IsDelim(s[0]) {
        var first := Part(s[0], head);
        assert ([first] + parts)[1..] == parts;
        head, parts := [], [first] + parts;
      } else {
        head := [s[0]] + head;
      }
    }
  }

  lemma FamiliesAreFree()
    ensures forall f :: 0 <= f < |FAMILIES| ==> Free(FAMILIES[f]) && |FAMILIES[f]| >= 2 && FAMILIES[f][0] == '/'
    ensures forall f, k :: 0 <= f < |FAMILIES| && 0 < k < |FAMILIES[f]| - 1 ==> FAMILIES[f][k] != '/'
    ensures forall s :: !(StartsWith(s, FAMILIES[0]) && StartsWith(s, FAMILIES[1]))
  {
    assert FAMILIES[0][1] == 'a' && FAMILIES[1][1] == 'l';
  }

  /** Where the next part begins cannot matter to a delimiter-free pattern. */
  lemma StartsWithinTail(tail: Bytes, rest: Bytes, p: Bytes)
    requires Free(p) && (rest == [] || IsDelim(rest[0]))
    ensures StartsWith(tail + rest, p) <==> StartsWith(tail, p)
  {
    if |p| <= |tail| {
      assert (tail + rest)[..|p|] == tail[..|p|];
    } else if |p| <= |tail + rest| {
      assert !IsDelim(p[|tail|]) && (tail + rest)[|tail|] == rest[0];
    }
  }

  lemma RenderStartsWithDelim(parts: seq<Part>)
    requires AllValid(parts)
    ensures Render(parts) == [] || IsDelim(Render(parts)[0])
  {
  }

  lemma {:induction false} ReplaceSkipsFree(a: Bytes, r: Bytes, q: char, family: Bytes, put: Bytes)
    requires Free(a) && IsDelim(q)
    ensures ReplaceAll(a + r, [q] + family, put) == a + ReplaceAll(r, [q] + family, put)
  {
    if a == [] {
      assert a + r == r;
    } else {
      assert a + r == [a[0]] + (a[1..] + r);
      StartsWithCons(a[0], a[1..] + r, q, family);
      ReplaceMiss(a[0], a[1..] + r, [q] + family, put);
      ReplaceSkipsFree(a[1..], r, q, family, put);
    }
  }

  /** What a pass does to one part. */
  function PassPart(p: Part, prefix: Bytes, family: Bytes, q: char): Part {
    if p.delim == q && StartsWith(p.tail, family) then Part(q, prefix + p.tail) else p
  }

  function PassParts(parts: seq<Part>, prefix: Bytes, family: Bytes, q: char): seq<Part> {
    seq(|parts|, i requires 0 <= i < |parts| => PassPart(parts[i], prefix, family, q))
  }

  lemma PassHit(q: char, left: Bytes, rest: Bytes, prefix: Bytes, family: Bytes)
    requires IsDelim(q) && Free(left)
    ensures Pass([q] + (family + left) + rest, prefix, family, q)
         == [q] + (prefix + (family + left)) + Pass(rest, prefix, family, q)
  {
    var what, put := [q] + family, [q] + (prefix + family);
    assert [q] + (family + left) + rest == what + (left + rest);
    ReplaceHit(left + rest, what, put);
    ReplaceSkipsFree(left, rest, q, family, put);
    var tail := ReplaceAll(rest, what, put);
    assert put + (left + tail) == [q] + (prefix + (family + left)) + tail;
  }

  lemma PassMiss(p: Part, rest: Bytes, prefix: Bytes, family: Bytes, q: char)
    requires p.Valid() && IsDelim(q) && Free(family) && (rest == [] || IsDelim(rest[0]))
    requires p.delim != q || !StartsWith(p.tail, family)
    ensures Pass([p.delim] + p.tail + rest, prefix, family, q) == [p.delim] + p.tail + Pass(rest, prefix, family, q)
  {
    var s := [p.delim] + p.tail + rest;
    assert s[1..] == p.tail + rest;
    assert !StartsWith(s, [q] + family) by {
      StartsWithinTail(p.tail, rest, family);
      StartsWithCons(p.delim, p.tail + rest, q, family);
      assert s == [p.delim] + (p.tail + rest);
    }
    ReplaceSkipsFree(p.tail, rest, q, family, [q] + (prefix + family));
  }

  lemma PassAtPart(p: Part, rest: Bytes, prefix: Bytes, family: Bytes, q: char)
    requires p.Valid() && IsDelim(q) && Free(family) && (rest == [] || IsDelim(rest[0]))
    ensures var r := PassPart(p, prefix, family, q);
            Pass([p.delim] + p.tail + rest, prefix, family, q) == [r.delim] + r.tail + Pass(rest, prefix, family, q)
  {
    if p.delim == q && StartsWith(p.tail, family) {
      var left := p.tail[|family|..];
      assert p.tail == family + left;
      PassHit(q, left, rest, prefix, family);
    } else {
      PassMiss(p, rest, prefix, family, q);
    }
  }

  lemma PassPartsTail(parts: seq<Part>, prefix: Bytes, family: Bytes, q: char)
    requires parts != []
    ensures PassParts(parts, prefix, family, q)
         == [PassPart(parts[0], prefix, family, q)] + PassParts(parts[1..], prefix, family, q)
  {
    assert forall i :: 0 <= i < |parts| - 1 ==> parts[1..][i] == parts[i + 1];
  }

  lemma {:induction false} PassRendered(parts: seq<Part>, prefix: Bytes, family: Bytes, q: char)
    requires AllValid(parts) && IsDelim(q) && Free(family)
    ensures Pass(Render(parts), prefix, family, q) == Render(PassParts(parts, prefix, family, q))
  {
    if parts != [] {
      PassRendered(parts[1..], prefix, family, q);
      PassPartsTail(parts, prefix, family, q);
      RenderStartsWithDelim(parts[1..]);
      PassAtPart(parts[0], Render(parts[1..]), prefix, family, q);
    }
  }

  /** What the passes up to there do to one part. */
  function PartAfter(p: Part, prefix: Bytes, f: nat, q: nat): Part
    requires f <= |FAMILIES| && q <= |QUOTES| && (f == |FAMILIES| ==> q == 0)
    decreases f, q
  {
    if q > 0 then PassPart(PartAfter(p, prefix, f, q - 1), prefix, FAMILIES[f], QUOTES[q - 1])
    else if f > 0 then PartAfter(p, prefix, f - 1, |QUOTES|)
    else p
  }

  function PartsAfter(parts: seq<Part>, prefix: Bytes, f: nat, q: nat): seq<Part>
    requires f <= |FAMILIES| && q <= |QUOTES| && (f == |FAMILIES| ==> q == 0)
  {
    seq(|parts|, i requires 0 <= i < |parts| => PartAfter(parts[i], prefix, f, q))
  }

  lemma NextPassOfParts(parts: seq<Part>, prefix: Bytes, f: nat, q: nat)
    requires f < |FAMILIES| && 0 < q <= |QUOTES|
    ensures PassParts(PartsAfter(parts, prefix, f, q - 1), prefix, FAMILIES[f], QUOTES[q - 1])
         == PartsAfter(parts, prefix, f, q)
  {
  }

  lemma PassBehindHead(head: Bytes, parts: seq<Part>, prefix: Bytes, f: nat, q: nat)
    requires f < |FAMILIES| && q < |QUOTES| && Free(head) && AllValid(parts)
    ensures Pass(head + Render(parts), prefix, FAMILIES[f], QUOTES[q])
         == head + Render(PassParts(parts, prefix, FAMILIES[f], QUOTES[q]))
  {
    FamiliesAreFree();
    ReplaceSkipsFree(head, Render(parts), QUOTES[q], FAMILIES[f], [QUOTES[q]] + (prefix + FAMILIES[f]));
    PassRendered(parts, prefix, FAMILIES[f], QUOTES[q]);
  }

  /** The passes work part by part, whatever they have already put in. */
  lemma {:induction false} PassesRendered(head: Bytes, parts: seq<Part>, prefix: Bytes, f: nat, q: nat)
    requires f <= |FAMILIES| && q <= |QUOTES| && (f == |FAMILIES| ==> q == 0)
    requires Free(head) && AllValid(parts) && Free(prefix)
    ensures AllValid(PartsAfter(parts, prefix, f, q))
    ensures Passes(head + Render(parts), prefix, f, q) == head + Render(PartsAfter(parts, prefix, f, q))
    decreases f, q
  {
    if q > 0 {
      var before := PartsAfter(parts, prefix, f, q - 1);
      PassesRendered(head, parts, prefix, f, q - 1);
      PassBehindHead(head, before, prefix, f, q - 1);
      NextPassOfParts(parts, prefix, f, q);
    } else if f > 0 {
      PassesRendered(head, parts, prefix, f - 1, |QUOTES|);
      assert PartsAfter(parts, prefix, f, q) == PartsAfter(parts, prefix, f - 1, |QUOTES|);
    } else {
      assert PartsAfter(parts, prefix, f, q) == parts;
    }
  }

  /** What the four quotes of one family come to: the part's own delimiter decides once. */
  function Mounted(p: Part, prefix: Bytes, family: Bytes): Part {
    if StartsWith(p.tail, family) then Part(p.delim, prefix + p.tail) else p
  }

  lemma {:induction false} QuotesOfFamily(p: Part, prefix: Bytes, f: nat, q: nat)
    requires f < |FAMILIES| && q <= |QUOTES|
    ensures var before := PartAfter(p, prefix, f, 0);
            PartAfter(p, prefix, f, q)
              == if before.delim in QUOTES[..q] then Mounted(before, prefix, FAMILIES[f]) else before
  {
    if q > 0 {
      QuotesOfFamily(p, prefix, f, q - 1);
      assert QUOTES[..q] == QUOTES[..q - 1] + [QUOTES[q - 1]];
      assert QUOTES[q - 1] !in QUOTES[..q - 1];
    }
  }

  lemma AllPassesOfPart(p: Part, prefix: Bytes)
    requires p.Valid()
    ensures PartAfter(p, prefix, |FAMILIES|, 0) == Mounted(Mounted(p, prefix, FAMILIES[0]), prefix, FAMILIES[1])
  {
    QuotesOfFamily(p, prefix, 0, |QUOTES|);
    QuotesOfFamily(p, prefix, 1, |QUOTES|);
    assert QUOTES[..|QUOTES|] == QUOTES;
    assert PartAfter(p, prefix, 1, 0) == PartAfter(p, prefix, 0, |QUOTES|);
    assert PartAfter(p, prefix, 2, 0) == PartAfter(p, prefix, 1, |QUOTES|);
  }

  /** Whether a prefix leads into a family is decided before the reference behind it is over. */
  lemma PrefixLeads(prefix: Bytes, tail: Bytes, f: nat)
    requires f < |FAMILIES| && prefix != [] && tail != [] && tail[0] == '/'
    ensures StartsWith(prefix + tail, FAMILIES[f]) <==> StartsWith(prefix + "/", FAMILIES[f])
  {
    FamiliesAreFree();
    var family := FAMILIES[f];
    if |prefix| + 1 < |family| {
      assert family[|prefix|] != '/' && (prefix + tail)[|prefix|] == '/';
    } else {
      assert (prefix + "/")[..|family|] == (prefix + tail)[..|family|];
    }
  }

  /** Behind a mountable prefix a reference no longer looks like one. */
  lemma PrefixShields(prefix: Bytes, tail: Bytes)
    requires Mountable(prefix) && prefix != [] && StartsFamily(tail)
    ensures !StartsFamily(prefix + tail)
  {
    FamiliesAreFree();
    forall f | 0 <= f < |FAMILIES| ensures !StartsWith(prefix + tail, FAMILIES[f]) {
      PrefixLeads(prefix, tail, f);
    }
  }

  function SwapPart(p: Part, strip: Bytes, add: Bytes): Part {
    if LeadsToFamily(p.tail, strip) then Part(p.delim, add + p.tail[|strip|..]) else p
  }

  function SwapParts(parts: seq<Part>, strip: Bytes, add: Bytes): seq<Part> {
    seq(|parts|, i requires 0 <= i < |parts| => SwapPart(parts[i], strip, add))
  }

  lemma LeadsToFamilyIs(s: Bytes, lead: Bytes)
    ensures LeadsToFamily(s, lead) <==> exists f :: 0 <= f < |FAMILIES| && StartsWith(s, lead + FAMILIES[f])
  {
    if LeadsToFamily(s, lead) {
      var f :| 0 <= f < |FAMILIES| && StartsWith(s[|lead|..], FAMILIES[f]);
      assert s == lead + s[|lead|..];
    }
    if f :| 0 <= f < |FAMILIES| && StartsWith(s, lead + FAMILIES[f]) {
      assert StartsWith(s[|lead|..], FAMILIES[f]);
    }
  }

  lemma LeadsToFamilyWithinTail(tail: Bytes, rest: Bytes, lead: Bytes)
    requires Free(lead) && (rest == [] || IsDelim(rest[0]))
    ensures LeadsToFamily(tail + rest, lead) <==> LeadsToFamily(tail, lead)
  {
    FamiliesAreFree();
    LeadsToFamilyIs(tail + rest, lead);
    LeadsToFamilyIs(tail, lead);
    forall f | 0 <= f < |FAMILIES|
      ensures StartsWith(tail + rest, lead + FAMILIES[f]) <==> StartsWith(tail, lead + FAMILIES[f])
    {
      StartsWithinTail(tail, rest, lead + FAMILIES[f]);
    }
  }

  lemma {:induction false} SwapSkipsFree(a: Bytes, r: Bytes, strip: Bytes, add: Bytes)
    requires Free(a)
    ensures Swap(a + r, strip, add) == a + Swap(r, strip, add)
  {
    if a == [] {
      assert a + r == r;
    } else {
      assert (a + r)[1..] == a[1..] + r;
      SwapSkipsFree(a[1..], r, strip, add);
    }
  }

  lemma SwapHit(q: char, left: Bytes, rest: Bytes, strip: Bytes, add: Bytes)
    requires IsDelim(q) && Free(left) && LeadsToFamily(strip + left + rest, strip)
    ensures Swap([q] + (strip + left) + rest, strip, add) == [q] + (add + left) + Swap(rest, strip, add)
  {
    var s := [q] + (strip + left) + rest;
    assert s[1..] == strip + left + rest;
    assert s[1..][|strip|..] == left + rest;
    SwapSkipsFree(left, rest, strip, add);
    assert [q] + add + (left + Swap(rest, strip, add)) == [q] + (add + left) + Swap(rest, strip, add);
  }

  lemma SwapMiss(q: char, tail: Bytes, rest: Bytes, strip: Bytes, add: Bytes)
    requires Free(tail) && !LeadsToFamily(tail + rest, strip)
    ensures Swap([q] + tail + rest, strip, add) == [q] + tail + Swap(rest, strip, add)
  {
    var s := [q] + tail + rest;
    assert s[1..] == tail + rest;
    SwapSkipsFree(tail, rest, strip, add);
  }

  lemma SwapAtPart(p: Part, rest: Bytes, strip: Bytes, add: Bytes)
    requires p.Valid() && Free(strip) && Free(add) && (rest == [] || IsDelim(rest[0]))
    ensures var r := SwapPart(p, strip, add);
            r.Valid() && Swap([p.delim] + p.tail + rest, strip, add) == [r.delim] + r.tail + Swap(rest, strip, add)
  {
    LeadsToFamilyWithinTail(p.tail, rest, strip);
    if LeadsToFamily(p.tail, strip) {
      var left := p.tail[|strip|..];
      assert p.tail == strip + left;
      SwapHit(p.delim, left, rest, strip, add);
    } else {
      SwapMiss(p.delim, p.tail, rest, strip, add);
    }
  }

  lemma SwapPartsTail(parts: seq<Part>, strip: Bytes, add: Bytes)
    requires parts != []
    ensures SwapParts(parts, strip, add) == [SwapPart(parts[0], strip, add)] + SwapParts(parts[1..], strip, add)
  {
    assert forall i :: 0 <= i < |parts| - 1 ==> parts[1..][i] == parts[i + 1];
  }

  lemma {:induction false} SwapRenderedParts(parts: seq<Part>, strip: Bytes, add: Bytes)
    requires AllValid(parts) && Free(strip) && Free(add)
    ensures AllValid(SwapParts(parts, strip, add))
    ensures Swap(Render(parts), strip, add) == Render(SwapParts(parts, strip, add))
  {
    if parts != [] {
      SwapRenderedParts(parts[1..], strip, add);
      SwapPartsTail(parts, strip, add);
      RenderStartsWithDelim(parts[1..]);
      SwapAtPart(parts[0], Render(parts[1..]), strip, add);
    }
  }

  lemma SwapRendered(head: Bytes, parts: seq<Part>, strip: Bytes, add: Bytes)
    requires Free(head) && AllValid(parts) && Free(strip) && Free(add)
    ensures AllValid(SwapParts(parts, strip, add))
    ensures Swap(head + Render(parts), strip, add) == head + Render(SwapParts(parts, strip, add))
  {
    SwapRenderedParts(parts, strip, add);
    SwapSkipsFree(head, Render(parts), strip, add);
  }

  /** A part comes out of the passes as the one pass leaves it, but for an asset reference whose
      prefix leads into the locales. */
  lemma MountPart(p: Part, prefix: Bytes)
    requires p.Valid()
    ensures MountsOnce(prefix) || !StartsWith(p.tail, FAMILIES[0]) ==>
              PartAfter(p, prefix, |FAMILIES|, 0) == SwapPart(p, [], prefix)
    ensures StartsWith(prefix + "/", FAMILIES[1]) && StartsWith(p.tail, FAMILIES[0]) ==>
              PartAfter(p, prefix, |FAMILIES|, 0) == Part(p.delim, prefix + (prefix + p.tail))
              && SwapPart(p, [], prefix) == Part(p.delim, prefix + p.tail)
  {
    AllPassesOfPart(p, prefix);
    FamiliesAreFree();
    assert p.tail[0..] == p.tail;
    if prefix == [] {
      assert prefix + p.tail == p.tail;
    } else if StartsWith(p.tail, FAMILIES[0]) {
      PrefixLeads(prefix, p.tail, 1);
    } else if StartsFamily(p.tail) {
      assert StartsWith(p.tail, FAMILIES[1]);
    }
  }

  lemma MountedPartStays(p: Part, prefix: Bytes)
    requires p.Valid() && Mountable(prefix)
    ensures SwapPart(SwapPart(p, [], prefix), [], prefix) == SwapPart(p, [], prefix)
  {
    assert p.tail[0..] == p.tail && (prefix + p.tail)[0..] == prefix + p.tail;
    if prefix == [] {
      assert prefix + p.tail == p.tail;
    } else if StartsFamily(p.tail) {
      PrefixShields(prefix, p.tail);
    }
  }

  /** The eight passes are one left-to-right pass over the body as it came. */
  lemma PassesAreOneSwap(body: Bytes, prefix: Bytes)
    requires MountsOnce(prefix)
    ensures Rewritten(body, prefix) == Swap(body, [], prefix)
  {
    var head, parts := Decompose(body);
    PassesRendered(head, parts, prefix, |FAMILIES|, 0);
    SwapRendered(head, parts, [], prefix);
    forall i | 0 <= i < |parts| ensures PartAfter(parts[i], prefix, |FAMILIES|, 0) == SwapPart(parts[i], [], prefix) {
      MountPart(parts[i], prefix);
    }
    assert PartsAfter(parts, prefix, |FAMILIES|, 0) == SwapParts(parts, [], prefix);
  }

  lemma RenderOne(parts: seq<Part>)
    requires |parts| == 1
    ensures |Render(parts)| == 1 + |parts[0].tail|
  {
  }

  /** Under a prefix that leads into the locales a single asset reference is mounted twice. */
  lemma AssetMountedTwice(prefix: Bytes)
    requires Free(prefix) && !MountsOnce(prefix)
    ensures var body := Render([Part('"', FAMILIES[0])]);
            Rewritten(body, prefix) != Swap(body, [], prefix)
  {
    var parts := [Part('"', FAMILIES[0])];
    FamiliesAreFree();
    assert StartsWith(FAMILIES[0], FAMILIES[0]);
    MountPart(parts[0], prefix);
    PassesRendered([], parts, prefix, |FAMILIES|, 0);
    SwapRendered([], parts, [], prefix);
    var passed, swapped := PartsAfter(parts, prefix, |FAMILIES|, 0), SwapParts(parts, [], prefix);
    RenderOne(passed);
    RenderOne(swapped);
    assert [] + Render(parts) == Render(parts);
    assert [] + Render(passed) == Render(passed) && [] + Render(swapped) == Render(swapped);
    assert prefix != [];
  }

  /** For a delimiter-free prefix the eight passes are one pass on every body exactly when the
      prefix does not lead into the family whose turn comes last. */
  lemma PassesAreOneSwapIff(prefix: Bytes)
    requires Free(prefix)
    ensures (forall body :: Rewritten(body, prefix) == Swap(body, [], prefix))
       <==> !StartsWith(prefix + "/", "/locales/")
  {
    if MountsOnce(prefix) {
      forall body ensures Rewritten(body, prefix) == Swap(body, [], prefix) {
        PassesAreOneSwap(body, prefix);
      }
    } else {
      AssetMountedTwice(prefix);
    }
  }

  method RewriteAssetPaths(body: Bytes, prefix: Bytes) returns (out: Bytes)
    ensures out == Rewritten(body, prefix)
    ensures MountsOnce(prefix) ==> out == Swap(body, [], prefix)
  {
    out := body;
    for f := 0 to |FAMILIES|
      invariant out == Passes(body, prefix, f, 0)
    {
      var family := FAMILIES[f];
      var replacement := prefix + family;
      for q := 0 to |QUOTES|
        invariant out == Passes(body, prefix, f, q)
      {
        var delim := [QUOTES[q]] + family;
        out := ReplaceAll(out, delim, [QUOTES[q]] + replacement);
      }
    }
    if MountsOnce(prefix) {
      PassesAreOneSwap(body, prefix);
    }
  }

  lemma MountingIsIdempotent(body: Bytes, prefix: Bytes)
    requires Mountable(prefix)
    ensures Rewritten(Rewritten(body, prefix), prefix) == Rewritten(body, prefix)
  {
    PassesAreOneSwap(body, prefix);
    PassesAreOneSwap(Rewritten(body, prefix), prefix);
    var head, parts := Decompose(body);
    SwapRendered(head, parts, [], prefix);
    var mounted := SwapParts(parts, [], prefix);
    SwapRendered(head, mounted, [], prefix);
    forall i | 0 <= i < |parts| ensures SwapPart(mounted[i], [], prefix) == mounted[i] {
      MountedPartStays(parts[i], prefix);
    }
    assert SwapParts(mounted, [], prefix) == mounted;
  }

  /** A delimiter-free prefix that leads into a family is put in again by every rewrite. */
  lemma UnmountableGrows(prefix: Bytes, p: Part)
    requires Free(prefix) && !Mountable(prefix) && p.Valid() && StartsFamily(p.tail)
    ensures var r := PartAfter(p, prefix, |FAMILIES|, 0);
            r.Valid() && r.delim == p.delim && |r.tail| > |p.tail| && StartsFamily(r.tail)
  {
    AllPassesOfPart(p, prefix);
    FamiliesAreFree();
    var f :| 0 <= f < |FAMILIES| && StartsWith(prefix + "/", FAMILIES[f]);
    var once := Mounted(p, prefix, FAMILIES[0]);
    var twice := Mounted(once, prefix, FAMILIES[1]);
    LeadsBackIn(prefix, f, p.tail);
    LeadsBackIn(prefix, f, prefix + p.tail);
  }

  lemma LeadsBackIn(prefix: Bytes, f: nat, tail: Bytes)
    requires f < |FAMILIES| && StartsWith(prefix + "/", FAMILIES[f]) && StartsFamily(tail)
    ensures StartsFamily(prefix + tail)
  {
    FamiliesAreFree();
    assert tail[0] == '/';
    assert prefix + tail == (prefix + "/") + tail[1..];
    assert StartsWith(prefix + tail, FAMILIES[f]);
  }

  /** Rewriting a rewritten body changes nothing, for every body, exactly when the prefix does
      not lead into a family. */
  lemma IdempotentIffMountable(prefix: Bytes)
    requires Free(prefix)
    ensures Mountable(prefix)
       <==> forall body :: Rewritten(Rewritten(body, prefix), prefix) == Rewritten(body, prefix)
  {
    if Mountable(prefix) {
      forall body ensures Rewritten(Rewritten(body, prefix), prefix) == Rewritten(body, prefix) {
        MountingIsIdempotent(body, prefix);
      }
    } else {
      FamiliesAreFree();
      var parts := [Part('"', FAMILIES[0])];
      assert StartsWith(FAMILIES[0], FAMILIES[0]);
      UnmountableGrows(prefix, parts[0]);
      PassesRendered([], parts, prefix, |FAMILIES|, 0);
      var once := PartsAfter(parts, prefix, |FAMILIES|, 0);
      UnmountableGrows(prefix, once[0]);
      PassesRendered([], once, prefix, |FAMILIES|, 0);
      var twice := PartsAfter(once, prefix, |FAMILIES|, 0);
      var body := [] + Render(parts);
      RenderOne(once);
      RenderOne(twice);
      assert [] + Render(once) == Render(once) && [] + Render(twice) == Render(twice);
      assert Rewritten(body, prefix) == Render(once) && Rewritten(Render(once), prefix) == Render(twice);
      assert |Render(twice)| != |Render(once)|;
    }
  }

  /** The body already holds a delimiter, the prefix and a family somewhere. */
  ghost predicate Mentions(body: Bytes, prefix: Bytes) {
    exists i :: 0 <= i < |body| && IsDelim(body[i]) && LeadsToFamily(body[i + 1..], prefix)
  }

  lemma {:induction false} MentionsInParts(head: Bytes, parts: seq<Part>, prefix: Bytes, k: nat)
    requires AllValid(parts) && Free(prefix) && k < |parts| && LeadsToFamily(parts[k].tail, prefix)
    ensures Mentions(head + Render(parts), prefix)
    decreases k
  {
    var body := head + Render(parts);
    var p, rest := parts[0], Render(parts[1..]);
    if k == 0 {
      RenderStartsWithDelim(parts[1..]);
      LeadsToFamilyWithinTail(p.tail, rest, prefix);
      assert body[|head|] == p.delim && body[|head| + 1..] == p.tail + rest;
    } else {
      var head' := head + [p.delim] + p.tail;
      assert head' + rest == body;
      MentionsInParts(head', parts[1..], prefix, k - 1);
    }
  }

  lemma UnmountPart(p: Part, prefix: Bytes)
    requires p.Valid() && Mountable(prefix) && prefix != []
    ensures var back := SwapPart(SwapPart(p, [], prefix), prefix, []);
            if LeadsToFamily(p.tail, prefix) then |back.tail| < |p.tail| else back == p
  {
    assert p.tail[0..] == p.tail && (prefix + p.tail)[|prefix|..] == p.tail;
    assert [] + p.tail == p.tail;
    if LeadsToFamily(p.tail, prefix) {
      PrefixShields(prefix, p.tail[|prefix|..]);
      assert p.tail == prefix + p.tail[|prefix|..];
    }
  }

  lemma MentionInFirstPart(head: Bytes, p: Part, rest: Bytes, prefix: Bytes)
    requires Free(prefix) && (rest == [] || IsDelim(rest[0]))
    ensures var body := head + [p.delim] + p.tail + rest;
            LeadsToFamily(body[|head| + 1..], prefix) <==> LeadsToFamily(p.tail, prefix)
  {
    assert (head + [p.delim] + p.tail + rest)[|head| + 1..] == p.tail + rest;
    LeadsToFamilyWithinTail(p.tail, rest, prefix);
  }

  lemma {:induction false} MentionIsInAPart(head: Bytes, parts: seq<Part>, prefix: Bytes, i: nat) returns (k: nat)
    requires AllValid(parts) && Free(prefix) && |head| <= i < |head + Render(parts)|
    requires var body := head + Render(parts); IsDelim(body[i]) && LeadsToFamily(body[i + 1..], prefix)
    ensures k < |parts| && LeadsToFamily(parts[k].tail, prefix)
    decreases parts
  {
    var p, rest := parts[0], Render(parts[1..]);
    var head' := head + [p.delim] + p.tail;
    assert head + Render(parts) == head' + rest;
    if i == |head| {
      RenderStartsWithDelim(parts[1..]);
      MentionInFirstPart(head, p, rest, prefix);
      k := 0;
    } else {
      assert forall j :: |head| < j < |head'| ==> head'[j] == p.tail[j - |head| - 1];
      k := MentionIsInAPart(head', parts[1..], prefix, i);
      k := k + 1;
    }
  }

  lemma {:induction false} ShorterPartShortens(a: seq<Part>, b: seq<Part>)
    requires |a| == |b| && forall i :: 0 <= i < |a| ==> |a[i].tail| <= |b[i].tail|
    ensures |Render(a)| <= |Render(b)|
    ensures (exists i :: 0 <= i < |a| && |a[i].tail| < |b[i].tail|) ==> |Render(a)| < |Render(b)|
  {
    if a != [] {
      ShorterPartShortens(a[1..], b[1..]);
      if i :| 0 < i < |a| && |a[i].tail| < |b[i].tail| {
        assert a[1..][i - 1] == a[i] && b[1..][i - 1] == b[i];
      }
    }
  }

  lemma UnmountParts(head: Bytes, parts: seq<Part>, prefix: Bytes) returns (back: seq<Part>)
    requires Free(head) && AllValid(parts) && Mountable(prefix)
    ensures |back| == |parts|
    ensures Swap(Rewritten(head + Render(parts), prefix), prefix, []) == head + Render(back)
    ensures forall i :: 0 <= i < |parts| ==>
              back[i] == SwapPart(SwapPart(parts[i], [], prefix), prefix, [])
  {
    PassesAreOneSwap(head + Render(parts), prefix);
    SwapRendered(head, parts, [], prefix);
    SwapRendered(head, SwapParts(parts, [], prefix), prefix, []);
    back := SwapParts(SwapParts(parts, [], prefix), prefix, []);
  }

  /** Mapping every delimiter, prefix and family back undoes the rewrite of a body exactly when
      the body did not hold such a sequence to begin with. */
  lemma UnmountRestoresIff(body: Bytes, prefix: Bytes)
    requires Mountable(prefix) && prefix != []
    ensures Swap(Rewritten(body, prefix), prefix, []) == body <==> !Mentions(body, prefix)
  {
    var head, parts := Decompose(body);
    var back := UnmountParts(head, parts, prefix);
    forall i | 0 <= i < |parts|
      ensures if LeadsToFamily(parts[i].tail, prefix) then |back[i].tail| < |parts[i].tail| else back[i] == parts[i]
    {
      UnmountPart(parts[i], prefix);
    }
    if Mentions(body, prefix) {
      var i :| 0 <= i < |body| && IsDelim(body[i]) && LeadsToFamily(body[i + 1..], prefix);
      var k := MentionIsInAPart(head, parts, prefix, i);
      ShorterPartShortens(back, parts);
    } else {
      forall k | 0 <= k < |parts| ensures back[k] == parts[k] {
        if LeadsToFamily(parts[k].tail, prefix) {
          MentionsInParts(head, parts, prefix, k);
        }
      }
      assert back == parts;
    }
  }
}
