/** Identifiers of user-defined services: web/js/custom_services.js. Unicode normalisation and
    lower-casing are parameters, since their tables are not part of this model. */
module CustomServices {
  import opened Wrappers
  import opened Text
  import opened FreeNames

  const MAX_NAME_LENGTH := 80
  const MAX_DESCRIPTION_LENGTH := 240
  const MAX_ID_LENGTH := 48

  const RESERVED_INTERNAL_IDS: set<string> := {"auth", "local"}

  /** `decompose` is `normalize("NFD")` without the combining marks, `lower` is `toLowerCase()`. */
  datatype Unicode = Unicode(decompose: string -> string, lower: string -> string)

  predicate IsSpace(c: char) {
    c in {' ', '\t', '\n', '\r', '\U{000B}', '\U{000C}', '\U{00A0}', '\U{1680}', '\U{2028}', '\U{2029}', '\U{202F}',
          '\U{205F}', '\U{3000}', '\U{FEFF}'}
    || '\U{2000}' <= c <= '\U{200A}'
  }

  function TrimStart(s: string, drop: char -> bool): (t: string)
    ensures t != "" ==> !drop(t[0])
    ensures s == "" || !drop(s[0]) ==> t == s
    ensures |t| <= |s| && t == s[|s| - |t|..]
  {
    if s != "" && drop(s[0]) then TrimStart(s[1..], drop) else s
  }

  function TrimEnd(s: string, drop: char -> bool): (t: string)
    ensures t <= s && (t != "" ==> !drop(t[|t| - 1]))
    ensures (s == "" || !drop(s[|s| - 1])) ==> t == s
    ensures s != "" && !drop(s[0]) ==> t != ""
  {
    if s != "" && drop(s[|s| - 1]) then TrimEnd(s[..|s| - 1], drop) else s
  }

  /** `slice(0, end)`; a negative end counts from the back. */
  function SliceTo(s: string, end: int): (t: string)
    ensures t <= s && (end >= 0 ==> |t| <= end) && (|s| <= end ==> t == s)
    ensures s != "" && end > 0 ==> t != ""
  {
    if end >= |s| then s
    else if end >= 0 then s[..end]
    else if |s| + end >= 0 then s[..|s| + end] else ""
  }

  function CleanText(value: string, maxLength: nat): string {
    SliceTo(TrimEnd(TrimStart(value, IsSpace), IsSpace), maxLength)
  }

  predicate IsAlnum(c: char) {
    'a' <= c <= 'z' || '0' <= c <= '9'
  }

  predicate IsDash(c: char) {
    c == '-'
  }

  predicate DashPair(s: string, i: int)
    requires 0 <= i < |s| - 1
  {
    IsDash(s[i]) && IsDash(s[i + 1])
  }

  /** Alphanumeric runs joined by single dashes, possibly with one at either end. */
  ghost predicate Dashed(s: string) {
    && (forall i :: 0 <= i < |s| ==> IsAlnum(s[i]) || IsDash(s[i]))
    && (forall i :: 0 <= i < |s| - 1 ==> !DashPair(s, i))
  }

  /** `^[a-z0-9]+(-[a-z0-9]+)*$`, at most 48 characters. */
  ghost predicate Canonical(s: string) {
    0 < |s| <= MAX_ID_LENGTH && Dashed(s) && !IsDash(s[0]) && !IsDash(s[|s| - 1])
  }

  /** Every run of other characters becomes one dash. */
  function Collapse(s: string): (t: string)
    ensures s == "" <==> t == ""
    ensures t != "" ==> (IsDash(t[0]) <==> !IsAlnum(s[0]))
  {
    if s == "" then "" else
    var rest := Collapse(s[1..]);
    if IsAlnum(s[0]) then [s[0]] + rest
    else if rest != "" && IsDash(rest[0]) then rest
    else "-" + rest
  }

  lemma DashedCons(c: char, rest: string)
    requires Dashed(rest) && (IsAlnum(c) || IsDash(c))
    requires IsDash(c) && rest != "" ==> !IsDash(rest[0])
    ensures Dashed([c] + rest)
  {
    var t := [c] + rest;
    forall i | 0 <= i < |t| - 1 ensures !DashPair(t, i) {
      if i > 0 {
        assert !DashPair(rest, i - 1);
      }
    }
  }

  lemma {:induction false} CollapseIsDashed(s: string)
    ensures Dashed(Collapse(s))
  {
    if s != "" {
      CollapseIsDashed(s[1..]);
      var rest := Collapse(s[1..]);
      if IsAlnum(s[0]) {
        DashedCons(s[0], rest);
      } else if rest == "" || !IsDash(rest[0]) {
        DashedCons('-', rest);
      }
    }
  }

  lemma PieceOfDashed(s: string, i: nat, j: nat)
    requires Dashed(s) && i <= j <= |s|
    ensures Dashed(s[i..j])
  {
    var t := s[i..j];
    forall k | 0 <= k < |t| - 1 ensures !DashPair(t, k) {
      assert !DashPair(s, i + k);
    }
  }

  lemma SuffixOfDashed(s: string, t: string)
    requires Dashed(s) && |t| <= |s| && t == s[|s| - |t|..]
    ensures Dashed(t)
  {
    assert s[|s| - |t|..|s|] == t;
    PieceOfDashed(s, |s| - |t|, |s|);
  }

  lemma PrefixOfDashed(s: string, t: string)
    requires Dashed(s) && t <= s
    ensures Dashed(t)
  {
    assert s[0..|t|] == t;
    PieceOfDashed(s, 0, |t|);
  }

  lemma {:induction false} CollapseKeepsDashed(s: string)
    requires Dashed(s)
    ensures Collapse(s) == s
  {
    if s != "" {
      PieceOfDashed(s, 1, |s|);
      assert s[1..|s|] == s[1..];
      CollapseKeepsDashed(s[1..]);
      assert |s| > 1 ==> !DashPair(s, 0);
      assert s == [s[0]] + s[1..];
    }
  }

  /** Without the dashes at either end. */
  function StripDashes(s: string): string {
    TrimEnd(TrimStart(s, IsDash), IsDash)
  }

  lemma StripIsDashed(s: string)
    requires Dashed(s)
    ensures var t := StripDashes(s); Dashed(t) && (t != "" ==> !IsDash(t[0]) && !IsDash(t[|t| - 1]))
  {
    var front := TrimStart(s, IsDash);
    SuffixOfDashed(s, front);
    PrefixOfDashed(front, TrimEnd(front, IsDash));
  }

  /** At most `MAX_ID_LENGTH` of it, not ending in a dash. */
  function CutId(s: string): (t: string)
    ensures t <= s && |t| <= MAX_ID_LENGTH && (t != "" ==> !IsDash(t[|t| - 1]))
    ensures 0 < |s| <= MAX_ID_LENGTH && !IsDash(s[|s| - 1]) ==> t == s
  {
    TrimEnd(SliceTo(s, MAX_ID_LENGTH), IsDash)
  }

  /** Everything `sanitizeServiceId` does after lower-casing. */
  function Slug(s: string): string {
    var id := CutId(StripDashes(Collapse(s)));
    if id == "" then "servico" else id
  }

  lemma ServicoIsCanonical()
    ensures Canonical("servico")
  {
  }

  lemma CutIsCanonical(stripped: string)
    requires Dashed(stripped) && (stripped != "" ==> !IsDash(stripped[0]))
    ensures CutId(stripped) != "" ==> Canonical(CutId(stripped))
  {
    PrefixOfDashed(stripped, CutId(stripped));
  }

  lemma SlugIsCanonical(s: string)
    ensures Canonical(Slug(s))
  {
    CollapseIsDashed(s);
    StripIsDashed(Collapse(s));
    CutIsCanonical(StripDashes(Collapse(s)));
    ServicoIsCanonical();
  }

  lemma SlugKeepsCanonical(s: string)
    requires Canonical(s)
    ensures Slug(s) == s
  {
    CollapseKeepsDashed(s);
    assert TrimStart(s, IsDash) == s;
    assert StripDashes(s) == s;
    assert CutId(s) == s;
  }

  function SanitizeServiceId(u: Unicode, name: string): (id: string)
    ensures Canonical(id)
  {
    SlugIsCanonical(u.lower(u.decompose(CleanText(name, MAX_NAME_LENGTH))));
    Slug(u.lower(u.decompose(CleanText(name, MAX_NAME_LENGTH))))
  }

  /** Lower-case letters, digits and dashes have no decomposition and no lower case of their own. */
  ghost predicate KeepsCanonical(u: Unicode) {
    forall s :: Canonical(s) ==> u.decompose(s) == s && u.lower(s) == s
  }

  lemma CanonicalIsLower(u: Unicode, id: string)
    requires KeepsCanonical(u) && Canonical(id)
    ensures u.decompose(id) == id && u.lower(id) == id && id != ""
  {
  }

  lemma CleanKeepsCanonical(id: string, maxLength: nat)
    requires Canonical(id) && maxLength >= MAX_ID_LENGTH
    ensures CleanText(id, maxLength) == id
  {
    assert !IsSpace(id[0]) && !IsSpace(id[|id| - 1]);
    assert TrimStart(id, IsSpace) == id;
    assert TrimEnd(id, IsSpace) == id;
  }

  lemma SanitizeIs(u: Unicode, name: string, clean: string, folded: string)
    requires CleanText(name, MAX_NAME_LENGTH) == clean && u.lower(u.decompose(clean)) == folded
    ensures SanitizeServiceId(u, name) == Slug(folded)
  {
  }

  lemma SanitizeKeepsCanonical(u: Unicode, id: string)
    requires KeepsCanonical(u) && Canonical(id)
    ensures SanitizeServiceId(u, id) == id
  {
    CanonicalIsLower(u, id);
    CleanKeepsCanonical(id, MAX_NAME_LENGTH);
    SanitizeIs(u, id, id, id);
    SlugKeepsCanonical(id);
  }

  /** What reconciling needs of a sanitizer: canonical results, and canonical ids left alone. */
  ghost predicate Sanitizes(sanitize: string -> string) {
    && (forall s :: Canonical(sanitize(s)))
    && (forall s {:trigger sanitize(s)} :: Canonical(s) ==> sanitize(s) == s)
  }

  function Sanitizer(u: Unicode): string -> string {
    (name: string) => SanitizeServiceId(u, name)
  }

  /** `sanitizeServiceId` gives a canonical id for any text and is the identity on canonical ids. */
  lemma SanitizerSanitizes(u: Unicode)
    requires KeepsCanonical(u)
    ensures Sanitizes(Sanitizer(u))
  {
    forall s | Canonical(s) ensures Sanitizer(u)(s) == s {
      SanitizeKeepsCanonical(u, s);
    }
  }

  /** The base, cut so that a dash and the suffix fit behind it. */
  function Stem(base: string, suffix: nat): string {
    TrimEnd(SliceTo(base, MAX_ID_LENGTH - (1 + |Decimal(suffix)|)), IsDash)
  }

  /** The id tried for a suffix. */
  function SuffixedId(base: string, suffix: nat): string {
    Stem(base, suffix) + ['-'] + Decimal(suffix)
  }

  function SuffixedIds(base: string): nat -> string {
    (k: nat) => SuffixedId(base, k)
  }

  lemma SuffixedIdsDiffer(base: string)
    ensures Injective(SuffixedIds(base))
  {
    forall i: nat, j: nat | SuffixedIds(base)(i) == SuffixedIds(base)(j) ensures i == j {
      SuffixIsReadable(Stem(base, i), Stem(base, j), '-', i, j);
    }
  }

  function UniqueId(base: string, reserved: set<string>): (id: string)
    ensures id !in reserved
    ensures base !in reserved ==> id == base
  {
    SuffixedIdsDiffer(base);
    FreeName(base, SuffixedIds(base), reserved)
  }

  /** The counting loop, with the number of times it went round. */
  method UniqueServiceId(base: string, reserved: set<string>) returns (candidate: string, rounds: nat)
    ensures candidate == UniqueId(base, reserved) && candidate !in reserved
    ensures rounds <= |reserved| + 1
    ensures rounds == 0 <==> base !in reserved
  {
    ghost var name := SuffixedIds(base);
    SuffixedIdsDiffer(base);
    candidate := base;
    var suffix := 2;
    while candidate in reserved
      invariant Counting(base, name, reserved, suffix, candidate)
      decreases TriesLeft(name, reserved, suffix)
    {
      CountOn(base, name, reserved, suffix, candidate);
      candidate := SuffixedId(base, suffix);
      suffix := suffix + 1;
    }
    CountDone(base, name, reserved, suffix, candidate);
    rounds := suffix - 2;
  }

  /** Few enough names that a suffix leaves room for a letter: fewer than ten to the 46th. */
  ghost predicate SuffixesFit(names: nat) {
    |Decimal(names + 2)| <= MAX_ID_LENGTH - 2
  }

  lemma UniqueIdIsCanonical(base: string, reserved: set<string>)
    requires Canonical(base) && SuffixesFit(|reserved|)
    ensures Canonical(UniqueId(base, reserved))
  {
    if base in reserved {
      var name := SuffixedIds(base);
      SuffixedIdsDiffer(base);
      var k := FreeSuffix(name, reserved, 2);
      FreeSuffixIsNear(name, reserved);
      DecimalGrows(k, |reserved| + 2);
      SuffixedIdIsCanonical(base, k);
    }
  }

  lemma JoinedIsDashed(front: string, digits: string)
    requires Dashed(front) && front != "" && !IsDash(front[|front| - 1])
    requires forall i :: 0 <= i < |digits| ==> IsDigit(digits[i])
    ensures Dashed(front + ['-'] + digits)
  {
    var id := front + ['-'] + digits;
    assert forall i :: 0 <= i < |front| ==> id[i] == front[i];
    assert id[|front|] == '-';
    assert forall i :: |front| < i < |id| ==> id[i] == digits[i - |front| - 1];
    forall i | 0 <= i < |id| - 1 ensures !DashPair(id, i) {
      if i < |front| - 1 {
        assert !DashPair(front, i);
      }
    }
  }

  lemma SuffixedIdIsCanonical(base: string, suffix: nat)
    requires Canonical(base) && |Decimal(suffix)| <= MAX_ID_LENGTH - 2
    ensures Canonical(SuffixedId(base, suffix))
  {
    var digits := Decimal(suffix);
    var cut := SliceTo(base, MAX_ID_LENGTH - (1 + |digits|));
    var front := Stem(base, suffix);
    assert cut[0] == base[0];
    PrefixOfDashed(base, front);
    JoinedIsDashed(front, digits);
    assert IsDigit(digits[|digits| - 1]);
  }

  datatype HostService = HostService(id: string, prefix: string)

  datatype CustomService = CustomService(configId: string, name: string, description: string, port: int,
                                         icon: string, websocket: bool, persisted: bool)

  predicate IsSlash(c: char) {
    c == '/'
  }

  function HostId(u: Unicode, h: HostService): string {
    u.lower(CleanText(h.id, MAX_ID_LENGTH))
  }

  function HostPrefix(u: Unicode, h: HostService): string {
    u.lower(TrimEnd(TrimStart(CleanText(h.prefix, MAX_ID_LENGTH + 1), IsSlash), IsSlash))
  }

  function CustomId(u: Unicode, c: CustomService): string {
    u.lower(CleanText(c.configId, MAX_ID_LENGTH))
  }

  /** Every id and route the host or another custom service already answers to. */
  function ReservedNames(u: Unicode, host: seq<HostService>, custom: seq<CustomService>): set<string> {
    RESERVED_INTERNAL_IDS
    + (set h | h in host && HostId(u, h) != "" :: HostId(u, h))
    + (set h | h in host && HostPrefix(u, h) != "" :: HostPrefix(u, h))
    + (set c | c in custom && CustomId(u, c) != "" :: CustomId(u, c))
  }

  /** The id a new service of that name gets. */
  function NewConfigId(u: Unicode, name: string, host: seq<HostService>, custom: seq<CustomService>): string {
    UniqueId(SanitizeServiceId(u, name), ReservedNames(u, host, custom))
  }

  lemma HostNamesAreReserved(u: Unicode, host: seq<HostService>, custom: seq<CustomService>, h: HostService)
    requires h in host
    ensures HostId(u, h) == "" || HostId(u, h) in ReservedNames(u, host, custom)
    ensures HostPrefix(u, h) == "" || HostPrefix(u, h) in ReservedNames(u, host, custom)
  {
  }

  lemma CustomIdIsReserved(u: Unicode, host: seq<HostService>, custom: seq<CustomService>, c: CustomService)
    requires c in custom
    ensures CustomId(u, c) == "" || CustomId(u, c) in ReservedNames(u, host, custom)
  {
  }

  lemma CanonicalCustomId(u: Unicode, c: CustomService)
    requires KeepsCanonical(u) && Canonical(c.configId)
    ensures CustomId(u, c) == c.configId && c.configId != ""
  {
    var id := c.configId;
    CanonicalIsLower(u, id);
    CleanKeepsCanonical(id, MAX_ID_LENGTH);
    assert CleanText(c.configId, MAX_ID_LENGTH) == id;
  }

  lemma UniqueIdIsNotEmpty(base: string, reserved: set<string>)
    requires base != ""
    ensures UniqueId(base, reserved) != ""
  {
  }

  /** Creating a service never takes an id in use, an internal route, or a host's id or prefix. */
  lemma NewIdIsUnused(u: Unicode, name: string, host: seq<HostService>, custom: seq<CustomService>)
    requires KeepsCanonical(u)
    ensures var id := NewConfigId(u, name, host, custom);
            && id !in RESERVED_INTERNAL_IDS
            && (forall h :: h in host ==> id != HostId(u, h) && id != HostPrefix(u, h))
            && (forall c :: c in custom && Canonical(c.configId) ==> id != c.configId)
            && (SuffixesFit(|ReservedNames(u, host, custom)|) ==> Canonical(id))
  {
    var id := NewConfigId(u, name, host, custom);
    var base := SanitizeServiceId(u, name);
    UniqueIdIsNotEmpty(base, ReservedNames(u, host, custom));
    forall h | h in host ensures id != HostId(u, h) && id != HostPrefix(u, h) {
      HostNamesAreReserved(u, host, custom, h);
    }
    forall c | c in custom && Canonical(c.configId) ensures id != c.configId {
      CanonicalCustomId(u, c);
      CustomIdIsReserved(u, host, custom, c);
    }
    if SuffixesFit(|ReservedNames(u, host, custom)|) {
      UniqueIdIsCanonical(base, ReservedNames(u, host, custom));
    }
  }

  const SAFE_SERVICE_ICONS: set<string> := {
    "home", "video", "camera", "router", "wifi", "server", "database", "dashboard", "activity", "terminal", "code",
    "shield", "cloud", "globe", "music", "film", "tv", "hard-drive", "cpu", "zap", "sliders", "bell", "thermometer",
    "printer", "download", "lightbulb", "docker", "eye", "folder", "package", "crown"
  }

  /** What the form hands over; the port is None when it is not an integer. */
  datatype Input = Input(name: string, description: string, port: Option<int>, icon: string,
                         websocket: bool, persisted: bool)

  datatype Creation = Created(service: CustomService) | InvalidName | InvalidPort | InvalidIcon

  predicate ValidPort(port: Option<int>) {
    port.Some? && 1024 <= port.value <= 65535
  }

  method CreateCustomService(u: Unicode, input: Input, host: seq<HostService>, custom: seq<CustomService>)
      returns (r: Creation)
    ensures r.InvalidName? <==> CleanText(input.name, MAX_NAME_LENGTH) == ""
    ensures r.InvalidPort? <==> !r.InvalidName? && !ValidPort(input.port)
    ensures r.InvalidIcon? <==>
              !r.InvalidName? && !r.InvalidPort? && u.lower(CleanText(input.icon, 32)) !in SAFE_SERVICE_ICONS
    ensures r.Created? ==>
              && r.service.configId == NewConfigId(u, r.service.name, host, custom)
              && r.service.name == CleanText(input.name, MAX_NAME_LENGTH) && 0 < |r.service.name| <= MAX_NAME_LENGTH
              && r.service.description == CleanText(input.description, MAX_DESCRIPTION_LENGTH)
              && |r.service.description| <= MAX_DESCRIPTION_LENGTH
              && r.service.icon == u.lower(CleanText(input.icon, 32))
              && Some(r.service.port) == input.port && ValidPort(input.port)
              && r.service.websocket == input.websocket && r.service.persisted == input.persisted
  {
    var name := CleanText(input.name, MAX_NAME_LENGTH);
    var description := CleanText(input.description, MAX_DESCRIPTION_LENGTH);
    var icon := u.lower(CleanText(input.icon, 32));
    if name == "" {
      return InvalidName;
    }
    if input.port.None? || input.port.value < 1024 || input.port.value > 65535 {
      return InvalidPort;
    }
    if icon !in SAFE_SERVICE_ICONS {
      return InvalidIcon;
    }
    var base := SanitizeServiceId(u, name);
    var configId, _ := UniqueServiceId(base, ReservedNames(u, host, custom));
    return Created(
        CustomService(configId, name, description, input.port.value, icon, input.websocket, input.persisted));
  }

  /** The id a stored service starts from: its own, or one made from its name. */
  function BaseOf(sanitize: string -> string, s: CustomService): string {
    sanitize(if s.configId != "" then s.configId else s.name)
  }

  function Bases(sanitize: string -> string, custom: seq<CustomService>): (bases: seq<string>)
    ensures |bases| == |custom|
  {
    seq(|custom|, i requires 0 <= i < |custom| => BaseOf(sanitize, custom[i]))
  }

  /** Every service in turn gets an id not reserved and not given to one before it. */
  function ReconciledIds(sanitize: string -> string, custom: seq<CustomService>, reserved: set<string>)
      : (ids: seq<string>)
    ensures |ids| == |custom|
  {
    Allocate(Bases(sanitize, custom), UniqueId, reserved)
  }

  function Reconciled(sanitize: string -> string, custom: seq<CustomService>, reserved: set<string>)
      : (out: seq<CustomService>)
    ensures |out| == |custom|
    ensures forall i :: 0 <= i < |out| ==> out[i] == WithId(custom[i], ReconciledIds(sanitize, custom, reserved)[i])
  {
    var ids := ReconciledIds(sanitize, custom, reserved);
    seq(|custom|, i requires 0 <= i < |custom| => WithId(custom[i], ids[i]))
  }

  /** The service under an id. The source passes the same object on when it has that id already. */
  function WithId(s: CustomService, id: string): CustomService {
    s.(configId := id)
  }

  /** The first services of the list, each under its id. */
  ghost predicate Assigned(out: seq<CustomService>, ids: seq<string>, custom: seq<CustomService>) {
    |out| == |ids| <= |custom| && forall j :: 0 <= j < |out| ==> out[j] == WithId(custom[j], ids[j])
  }

  lemma AssignNext(out: seq<CustomService>, ids: seq<string>, custom: seq<CustomService>, id: string)
    requires Assigned(out, ids, custom) && |out| < |custom|
    ensures Assigned(out + [WithId(custom[|out|], id)], ids + [id], custom)
  {
  }

  method AssignConfigIds(sanitize: string -> string, custom: seq<CustomService>, names: set<string>)
      returns (out: seq<CustomService>)
    ensures |out| == |custom|
    ensures var ids := ReconciledIds(sanitize, custom, names);
            forall i :: 0 <= i < |out| ==> out[i] == WithId(custom[i], ids[i])
  {
    var reserved := names;
    ghost var bases, all := Bases(sanitize, custom), ReconciledIds(sanitize, custom, names);
    ghost var ids: seq<string> := [];
    AllocateStart(bases, UniqueId, reserved);
    out := [];
    for i := 0 to |custom|
      invariant |ids| == i && Allocating(ids, bases, UniqueId, reserved, all)
      invariant Assigned(out, ids, custom)
    {
      var base := BaseOf(sanitize, custom[i]);
      assert base == bases[i];
      var configId, _ := UniqueServiceId(base, reserved);
      AllocateNext(ids, bases, UniqueId, reserved, all, configId);
      AssignNext(out, ids, custom, configId);
      reserved := reserved + {configId};
      ids := ids + [configId];
      out := out + [WithId(custom[i], configId)];
    }
    AllocateDone(ids, bases, UniqueId, reserved, all);
  }

  method ReconcileCustomServices(u: Unicode, custom: seq<CustomService>, host: seq<HostService>)
      returns (out: seq<CustomService>)
    ensures out == Reconciled(Sanitizer(u), custom, ReservedNames(u, host, []))
  {
    out := AssignConfigIds(Sanitizer(u), custom, ReservedNames(u, host, []));
  }

  lemma UniqueIdPicksFree()
    ensures PicksFree(UniqueId)
  {
  }

  /** Reconciled ids are pairwise distinct and outside the reserved set. */
  lemma ReconciledIdsAreDistinct(sanitize: string -> string, custom: seq<CustomService>, reserved: set<string>)
    ensures var ids := ReconciledIds(sanitize, custom, reserved); Distinct(ids) && Avoids(ids, reserved)
  {
    UniqueIdPicksFree();
    AllocatedAreDistinct(Bases(sanitize, custom), UniqueId, reserved);
  }

  /** The names service `i` must not be given. */
  function TakenBefore(sanitize: string -> string, custom: seq<CustomService>, reserved: set<string>, i: nat)
      : set<string>
    requires i <= |custom|
  {
    reserved + NamesIn(ReconciledIds(sanitize, custom, reserved)[..i])
  }

  lemma TakenBeforeIsSmall(sanitize: string -> string, custom: seq<CustomService>, reserved: set<string>, i: nat)
    requires i <= |custom|
    ensures |TakenBefore(sanitize, custom, reserved, i)| <= |reserved| + i
  {
    var given := NamesIn(ReconciledIds(sanitize, custom, reserved)[..i]);
    assert reserved + given == reserved + (given - reserved);
    SubsetIsNoLarger(given - reserved, given);
  }

  lemma ReconciledIdAt(sanitize: string -> string, custom: seq<CustomService>, reserved: set<string>, i: nat)
    requires i < |custom|
    ensures ReconciledIds(sanitize, custom, reserved)[i]
         == UniqueId(BaseOf(sanitize, custom[i]), TakenBefore(sanitize, custom, reserved, i))
  {
    AllocateAt(Bases(sanitize, custom), UniqueId, reserved, i);
  }

  lemma CanonicalAmongFew(base: string, taken: set<string>, limit: nat)
    requires Canonical(base) && |taken| <= limit && SuffixesFit(limit)
    ensures Canonical(UniqueId(base, taken))
  {
    DecimalGrows(|taken| + 2, limit + 2);
    UniqueIdIsCanonical(base, taken);
  }

  /** Reconciled ids are canonical, whatever was stored. */
  lemma ReconciledIdsAreCanonical(sanitize: string -> string, custom: seq<CustomService>, reserved: set<string>)
    requires Sanitizes(sanitize) && SuffixesFit(|reserved| + |custom|)
    ensures forall i :: 0 <= i < |custom| ==> Canonical(ReconciledIds(sanitize, custom, reserved)[i])
  {
    forall i | 0 <= i < |custom| ensures Canonical(ReconciledIds(sanitize, custom, reserved)[i]) {
      ReconciledIdAt(sanitize, custom, reserved, i);
      TakenBeforeIsSmall(sanitize, custom, reserved, i);
      CanonicalAmongFew(BaseOf(sanitize, custom[i]), TakenBefore(sanitize, custom, reserved, i), |reserved| + |custom|);
    }
  }

  /** An id changes only when it has to: a service keeps a canonical id that is neither reserved
      nor given to one before it. */
  lemma ReconcileKeepsFreeIds(sanitize: string -> string, custom: seq<CustomService>, reserved: set<string>, i: nat)
    requires Sanitizes(sanitize) && i < |custom| && Canonical(custom[i].configId)
    requires custom[i].configId !in reserved
    requires custom[i].configId !in ReconciledIds(sanitize, custom, reserved)[..i]
    ensures Reconciled(sanitize, custom, reserved)[i] == custom[i]
  {
    ReconciledIdAt(sanitize, custom, reserved, i);
  }

  /** Reconciling again against the same host changes nothing: ids do not wander. */
  lemma ReconcileIsIdempotent(sanitize: string -> string, custom: seq<CustomService>, reserved: set<string>)
    requires Sanitizes(sanitize) && SuffixesFit(|reserved| + |custom|)
    ensures var once := Reconciled(sanitize, custom, reserved);
            Reconciled(sanitize, once, reserved) == once
  {
    var once := Reconciled(sanitize, custom, reserved);
    var ids := ReconciledIds(sanitize, custom, reserved);
    ReconciledIdsAreCanonical(sanitize, custom, reserved);
    assert Bases(sanitize, once) == ids;
    ReconciledIdsAreDistinct(sanitize, custom, reserved);
    UniqueIdPicksFree();
    FreeWishesAreGranted(ids, UniqueId, reserved);
  }

  function SuffixedRuntimeId(base: string, suffix: nat): string {
    base + [':'] + Decimal(suffix)
  }

  function SuffixedRuntimeIds(base: string): nat -> string {
    (k: nat) => SuffixedRuntimeId(base, k)
  }

  lemma SuffixedRuntimeIdsDiffer(base: string)
    ensures Injective(SuffixedRuntimeIds(base))
  {
    forall i: nat, j: nat | SuffixedRuntimeIds(base)(i) == SuffixedRuntimeIds(base)(j) ensures i == j {
      SuffixIsReadable(base, base, ':', i, j);
    }
  }

  function RuntimeId(base: string, taken: set<string>): (id: string)
    ensures id !in taken
    ensures base !in taken ==> id == base
  {
    SuffixedRuntimeIdsDiffer(base);
    FreeName(base, SuffixedRuntimeIds(base), taken)
  }

  /** The id `custom:` and the configured id, with a number behind a colon where that is taken. */
  ghost predicate IsRuntimeIdOf(id: string, configId: string) {
    var plain := "custom:" + configId;
    id == plain || exists n: nat :: n >= 2 && id == SuffixedRuntimeId(plain, n)
  }

  lemma RuntimeIdNames(configId: string, taken: set<string>)
    ensures IsRuntimeIdOf(RuntimeId("custom:" + configId, taken), configId)
  {
    var plain := "custom:" + configId;
    SuffixedRuntimeIdsDiffer(plain);
    if plain in taken {
      var n: nat :| n >= 2 && RuntimeId(plain, taken) == SuffixedRuntimeIds(plain)(n);
      assert SuffixedRuntimeIds(plain)(n) == SuffixedRuntimeId(plain, n);
    }
  }

  /** The loop that finds one runtime id. */
  method FindRuntimeId(base: string, taken: set<string>) returns (runtimeId: string)
    ensures runtimeId == RuntimeId(base, taken)
  {
    ghost var name := SuffixedRuntimeIds(base);
    SuffixedRuntimeIdsDiffer(base);
    runtimeId := base;
    var suffix := 2;
    while runtimeId in taken
      invariant Counting(base, name, taken, suffix, runtimeId)
      decreases TriesLeft(name, taken, suffix)
    {
      CountOn(base, name, taken, suffix, runtimeId);
      runtimeId := base + ":" + Decimal(suffix);
      suffix := suffix + 1;
    }
    CountDone(base, name, taken, suffix, runtimeId);
  }

  function RuntimeBases(custom: seq<CustomService>): (bases: seq<string>)
    ensures |bases| == |custom|
  {
    seq(|custom|, i requires 0 <= i < |custom| => "custom:" + custom[i].configId)
  }

  datatype RuntimeService = RuntimeService(id: string, service: CustomService)

  method AssignRuntimeIds(custom: seq<CustomService>, taken: set<string>) returns (runtime: seq<RuntimeService>)
    ensures |runtime| == |custom|
    ensures var ids := Allocate(RuntimeBases(custom), RuntimeId, taken);
            forall i :: 0 <= i < |runtime| ==> runtime[i] == RuntimeService(ids[i], custom[i])
  {
    ghost var bases := RuntimeBases(custom);
    ghost var all := Allocate(bases, RuntimeId, taken);
    ghost var ids: seq<string> := [];
    AllocateStart(bases, RuntimeId, taken);
    var runtimeIds := taken;
    runtime := [];
    for i := 0 to |custom|
      invariant |runtime| == |ids| == i && Allocating(ids, bases, RuntimeId, runtimeIds, all)
      invariant forall j :: 0 <= j < i ==> runtime[j] == RuntimeService(ids[j], custom[j])
    {
      var runtimeId := FindRuntimeId("custom:" + custom[i].configId, runtimeIds);
      AllocateNext(ids, bases, RuntimeId, runtimeIds, all, runtimeId);
      runtimeIds := runtimeIds + {runtimeId};
      ids := ids + [runtimeId];
      runtime := runtime + [RuntimeService(runtimeId, custom[i])];
    }
    AllocateDone(ids, bases, RuntimeId, runtimeIds, all);
  }

  /** Runtime ids made from the configured ones, distinct from each other and from the taken ones. */
  ghost predicate AreRuntimeIds(ids: seq<string>, custom: seq<CustomService>, taken: set<string>) {
    && |ids| == |custom| && Distinct(ids) && Avoids(ids, taken)
    && forall i :: 0 <= i < |ids| ==> IsRuntimeIdOf(ids[i], custom[i].configId)
  }

  lemma RuntimeIdsAre(custom: seq<CustomService>, taken: set<string>)
    ensures AreRuntimeIds(Allocate(RuntimeBases(custom), RuntimeId, taken), custom, taken)
  {
    var bases := RuntimeBases(custom);
    var ids := Allocate(bases, RuntimeId, taken);
    AllocatedAreDistinct(bases, RuntimeId, taken);
    forall i | 0 <= i < |custom| ensures IsRuntimeIdOf(ids[i], custom[i].configId) {
      AllocateAt(bases, RuntimeId, taken, i);
      RuntimeIdNames(custom[i].configId, taken + NamesIn(ids[..i]));
    }
  }

  /** The merged list: the host's services in front, as they are, then the custom ones under
      runtime ids distinct from each other and from every host id. */
  method MergeHostAndCustomServices(u: Unicode, host: seq<HostService>, custom: seq<CustomService>)
      returns (reconciled: seq<CustomService>, runtime: seq<RuntimeService>)
    ensures reconciled == Reconciled(Sanitizer(u), custom, ReservedNames(u, host, []))
    ensures |runtime| == |custom| && forall i :: 0 <= i < |runtime| ==> runtime[i].service == reconciled[i]
    ensures forall i, j :: 0 <= i < j < |runtime| ==> runtime[i].id != runtime[j].id
    ensures forall i, h :: 0 <= i < |runtime| && h in host ==> runtime[i].id != h.id
    ensures forall i :: 0 <= i < |runtime| ==> IsRuntimeIdOf(runtime[i].id, reconciled[i].configId)
  {
    reconciled := ReconcileCustomServices(u, custom, host);
    var hostIds := set h | h in host :: h.id;
    runtime := AssignRuntimeIds(reconciled, hostIds);
    ghost var ids := Allocate(RuntimeBases(reconciled), RuntimeId, hostIds);
    RuntimeIdsAre(reconciled, hostIds);
    forall i | 0 <= i < |runtime| ensures runtime[i].id == ids[i] && IsRuntimeIdOf(ids[i], reconciled[i].configId) {
    }
  }
}
