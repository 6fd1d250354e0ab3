/** Finding a name that is not taken by counting a suffix up, as the loops of
    web/js/custom_services.js do. */
module FreeNames {
  predicate IsDigit(c: char) {
    '0' <= c <= '9'
  }

  function Digit(n: nat): (c: char)
    requires n < 10
    ensures IsDigit(c)
  {
    ('0' as int + n) as char
  }

  /** A number as JavaScript writes it after a string. */
  function Decimal(n: nat): (s: string)
    ensures |s| >= 1
    ensures forall i :: 0 <= i < |s| ==> IsDigit(s[i])
  {
    if n < 10 then [Digit(n)] else Decimal(n / 10) + [Digit(n % 10)]
  }

  lemma {:induction false} DecimalIsInjective(m: nat, n: nat)
    requires Decimal(m) == Decimal(n)
    ensures m == n
  {
    assert Decimal(m)[|Decimal(m)| - 1] == Digit(m % 10);
    assert Decimal(n)[|Decimal(n)| - 1] == Digit(n % 10);
    if m >= 10 && n >= 10 {
      assert Decimal(m)[..|Decimal(m)| - 1] == Decimal(m / 10);
      assert Decimal(n)[..|Decimal(n)| - 1] == Decimal(n / 10);
      DecimalIsInjective(m / 10, n / 10);
    }
  }

  function ValueOf(digits: string): int {
    if digits == "" then 0 else 10 * ValueOf(digits[..|digits| - 1]) + (digits[|digits| - 1] as int - '0' as int)
  }

  /** A written number reads back as itself, and has no zero in front. */
  lemma {:induction false} DecimalReadsBack(n: nat)
    ensures ValueOf(Decimal(n)) == n
    ensures n > 0 ==> Decimal(n)[0] != '0'
  {
    if n >= 10 {
      DecimalReadsBack(n / 10);
      assert Decimal(n)[..|Decimal(n)| - 1] == Decimal(n / 10);
    }
  }

  lemma {:induction false} DecimalGrows(m: nat, n: nat)
    requires m <= n
    ensures |Decimal(m)| <= |Decimal(n)|
  {
    if n >= 10 && m >= 10 {
      DecimalGrows(m / 10, n / 10);
    }
  }

  /** A separator that is no digit keeps the number behind it readable. */
  lemma SuffixIsReadable(a: string, b: string, sep: char, m: nat, n: nat)
    requires !IsDigit(sep) && a + [sep] + Decimal(m) == b + [sep] + Decimal(n)
    ensures m == n
  {
    var s := a + [sep] + Decimal(m);
    assert s == b + [sep] + Decimal(n);
    assert s[|a|] == sep && s[|b|] == sep;
    assert forall i :: |a| < i < |s| ==> s[i] == Decimal(m)[i - |a| - 1];
    assert forall i :: |b| < i < |s| ==> s[i] == Decimal(n)[i - |b| - 1];
    assert |a| == |b|;
    assert s[|a| + 1..] == Decimal(m) && s[|b| + 1..] == Decimal(n);
    DecimalIsInjective(m, n);
  }

  /** Distinct suffixes give distinct names. */
  ghost predicate Injective(name: nat -> string) {
    forall i, j :: name(i) == name(j) ==> i == j
  }

  /** The names for suffixes 2 up to but not including `k`. */
  function Tried(name: nat -> string, k: nat): set<string>
  {
    set j: nat | 2 <= j < k :: name(j)
  }

  lemma {:induction false} TriedCount(name: nat -> string, k: nat)
    requires Injective(name) && k >= 2
    ensures |Tried(name, k)| == k - 2
  {
    if k == 2 {
      assert Tried(name, k) == {};
    } else {
      TriedCount(name, k - 1);
      TriedStep(name, k - 1);
    }
  }

  lemma TriedStep(name: nat -> string, k: nat)
    requires Injective(name) && k >= 2
    ensures Tried(name, k + 1) == Tried(name, k) + {name(k)} && name(k) !in Tried(name, k)
  {
    forall x ensures x in Tried(name, k + 1) <==> x in Tried(name, k) + {name(k)} {
      if x in Tried(name, k + 1) {
        var j: nat :| 2 <= j < k + 1 && x == name(j);
        assert j < k ==> name(j) in Tried(name, k);
      }
    }
  }

  /** Each try uses up one taken name, which is why the counting ends. */
  lemma TryUsesUpAName(name: nat -> string, taken: set<string>, k: nat)
    requires Injective(name) && k >= 2 && name(k) in taken
    ensures |taken - Tried(name, k + 1)| < |taken - Tried(name, k)|
  {
    TriedStep(name, k);
    assert taken - Tried(name, k + 1) == (taken - Tried(name, k)) - {name(k)};
  }

  /** The first suffix from `k` on whose name is free. */
  function FreeSuffix(name: nat -> string, taken: set<string>, k: nat): (n: nat)
    requires Injective(name) && k >= 2
    ensures n >= k && name(n) !in taken
    ensures forall j :: k <= j < n ==> name(j) in taken
    decreases |taken - Tried(name, k)|
  {
    if name(k) !in taken then k else
    TryUsesUpAName(name, taken, k);
    FreeSuffix(name, taken, k + 1)
  }

  /** It is found within one try more than there are taken names. */
  lemma FreeSuffixIsNear(name: nat -> string, taken: set<string>)
    requires Injective(name)
    ensures FreeSuffix(name, taken, 2) <= |taken| + 2
  {
    var n := FreeSuffix(name, taken, 2);
    TriedCount(name, n);
    SubsetIsNoLarger(Tried(name, n), taken);
  }

  lemma SubsetIsNoLarger<T>(a: set<T>, b: set<T>)
    requires a <= b
    ensures |a| <= |b|
  {
    assert b == a + (b - a);
  }

  /** The plain name when it is free, else the name with the first free suffix. */
  function FreeName(plain: string, name: nat -> string, taken: set<string>): (free: string)
    requires Injective(name)
    ensures free !in taken
    ensures plain !in taken ==> free == plain
    ensures plain in taken ==>
              exists n: nat :: n >= 2 && free == name(n) && forall k: nat :: 2 <= k < n ==> name(k) in taken
  {
    if plain !in taken then plain else name(FreeSuffix(name, taken, 2))
  }

  /** A loop counting up: it has found `plain` and the suffixes below `suffix - 1` taken and
      looks at `candidate` next. */
  ghost predicate Counting(plain: string, name: nat -> string, taken: set<string>, suffix: nat, candidate: string) {
    && Injective(name) && suffix >= 2
    && candidate == (if suffix == 2 then plain else name(suffix - 1))
    && (suffix > 2 ==> plain in taken && FreeSuffix(name, taken, suffix - 1) == FreeSuffix(name, taken, 2))
  }

  /** What such a loop uses up. */
  ghost function TriesLeft(name: nat -> string, taken: set<string>, suffix: nat): nat
    requires suffix >= 2
  {
    if suffix == 2 then |taken| + 1 else |taken - Tried(name, suffix - 1)|
  }

  lemma CountOn(plain: string, name: nat -> string, taken: set<string>, suffix: nat, candidate: string)
    requires Counting(plain, name, taken, suffix, candidate) && candidate in taken
    ensures Counting(plain, name, taken, suffix + 1, name(suffix))
    ensures TriesLeft(name, taken, suffix + 1) < TriesLeft(name, taken, suffix)
  {
    if suffix > 2 {
      TryUsesUpAName(name, taken, suffix - 1);
    } else {
      assert Tried(name, 2) == {};
      assert taken - Tried(name, 2) == taken;
    }
  }

  lemma CountDone(plain: string, name: nat -> string, taken: set<string>, suffix: nat, candidate: string)
    requires Counting(plain, name, taken, suffix, candidate) && candidate !in taken
    ensures candidate == FreeName(plain, name, taken)
    ensures suffix - 2 <= |taken| + 1 && (suffix == 2 <==> plain !in taken)
  {
    FreeSuffixIsNear(name, taken);
  }

  /** A way to pick a free name for a wished one: never a taken name, and the wish itself if free. */
  ghost predicate PicksFree(pick: (string, set<string>) -> string) {
    forall wish, taken :: pick(wish, taken) !in taken && (wish !in taken ==> pick(wish, taken) == wish)
  }

  /** Names picked for one wish after the other, each taken from then on. */
  function Allocate(wishes: seq<string>, pick: (string, set<string>) -> string, taken: set<string>)
      : (names: seq<string>)
    ensures |names| == |wishes|
    decreases wishes
  {
    if wishes == [] then [] else
    var name := pick(wishes[0], taken);
    [name] + Allocate(wishes[1..], pick, taken + {name})
  }

  /** A loop has given out `given` for the first wishes and is on its way to `all`. */
  ghost predicate Allocating(given: seq<string>, wishes: seq<string>, pick: (string, set<string>) -> string,
                             taken: set<string>, all: seq<string>)
  {
    |given| <= |wishes| && given + Allocate(wishes[|given|..], pick, taken) == all
  }

  lemma AllocateNext(given: seq<string>, wishes: seq<string>, pick: (string, set<string>) -> string,
                     taken: set<string>, all: seq<string>, name: string)
    requires Allocating(given, wishes, pick, taken, all) && |given| < |wishes|
    requires name == pick(wishes[|given|], taken)
    ensures Allocating(given + [name], wishes, pick, taken + {name}, all)
  {
    var rest := wishes[|given|..];
    assert rest[1..] == wishes[|given| + 1..];
    assert given + ([name] + Allocate(rest[1..], pick, taken + {name})) == all;
  }

  lemma AllocateStart(wishes: seq<string>, pick: (string, set<string>) -> string, taken: set<string>)
    ensures Allocating([], wishes, pick, taken, Allocate(wishes, pick, taken))
  {
    assert wishes[0..] == wishes;
    assert [] + Allocate(wishes, pick, taken) == Allocate(wishes, pick, taken);
  }

  lemma AllocateDone(given: seq<string>, wishes: seq<string>, pick: (string, set<string>) -> string,
                     taken: set<string>, all: seq<string>)
    requires Allocating(given, wishes, pick, taken, all) && |given| == |wishes|
    ensures given == all
  {
    assert given + [] == given;
  }

  function NamesIn(names: seq<string>): (s: set<string>)
    ensures |s| <= |names|
    ensures forall x :: x in s <==> x in names
  {
    if names == [] then {} else {names[0]} + NamesIn(names[1..])
  }

  lemma NamesInCons(name: string, rest: seq<string>)
    ensures NamesIn([name] + rest) == {name} + NamesIn(rest)
  {
    assert ([name] + rest)[1..] == rest;
  }

  /** Each wish is picked for against all names given before it. */
  lemma {:induction false} AllocateAt(wishes: seq<string>, pick: (string, set<string>) -> string,
                                      taken: set<string>, i: nat)
    requires i < |wishes|
    ensures var names := Allocate(wishes, pick, taken);
            names[i] == pick(wishes[i], taken + NamesIn(names[..i]))
    decreases i
  {
    var name := pick(wishes[0], taken);
    var rest := Allocate(wishes[1..], pick, taken + {name});
    if i == 0 {
      assert taken + NamesIn([]) == taken;
    } else {
      AllocateAt(wishes[1..], pick, taken + {name}, i - 1);
      NamesInCons(name, rest[..i - 1]);
      assert ([name] + rest)[..i] == [name] + rest[..i - 1];
      assert taken + {name} + NamesIn(rest[..i - 1]) == taken + ({name} + NamesIn(rest[..i - 1]));
    }
  }

  ghost predicate Distinct(names: seq<string>) {
    forall i, j :: 0 <= i < j < |names| ==> names[i] != names[j]
  }

  ghost predicate Avoids(names: seq<string>, taken: set<string>) {
    forall i :: 0 <= i < |names| ==> names[i] !in taken
  }

  /** Allocated names are pairwise distinct and none was taken before. */
  lemma AllocatedAreDistinct(wishes: seq<string>, pick: (string, set<string>) -> string, taken: set<string>)
    requires PicksFree(pick)
    ensures var names := Allocate(wishes, pick, taken); Distinct(names) && Avoids(names, taken)
  {
    var names := Allocate(wishes, pick, taken);
    forall j | 0 <= j < |names| ensures names[j] !in taken + NamesIn(names[..j]) {
      AllocateAt(wishes, pick, taken, j);
    }
    forall i, j | 0 <= i < j < |names| ensures names[i] != names[j] {
      assert names[i] in names[..j];
    }
  }

  /** Wishes that collide with nothing are granted as they are. */
  lemma {:induction false} FreeWishesAreGranted(wishes: seq<string>, pick: (string, set<string>) -> string,
                                                taken: set<string>)
    requires PicksFree(pick) && Distinct(wishes) && Avoids(wishes, taken)
    ensures Allocate(wishes, pick, taken) == wishes
    decreases wishes
  {
    if wishes != [] {
      assert wishes[0] !in taken;
      FreeWishesAreGranted(wishes[1..], pick, taken + {wishes[0]});
    }
  }
}
