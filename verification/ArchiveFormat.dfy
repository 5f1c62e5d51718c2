/**
 * Packing a case into an archive and reading one back under every bound, with
 * its manifest checked. The zip itself is the sequence of entries it carries.
 */
module ArchiveFormat {
  import opened Wrappers
  import opened ArchiveNames

  type Digest = string

  datatype Attachments = Included | Omitted | Unsaid

  datatype Missing = Absent | Names(names: seq<string>) | NotNames

  /** Names with their digests; stated as a list, they come with an own `length` that is no entry. */
  datatype Files = NoFiles | Files(listed: seq<(string, Digest)>, isList: bool)

  /** What a manifest's JSON says, sound or not. */
  datatype Manifest = Manifest(version: int, attachments: Attachments, missing: Missing, files: Files)

  /** Bytes of a member; those that parse as a manifest are told apart. */
  datatype Bytes = Data(content: seq<nat>) | ManifestJson(manifest: Manifest)

  datatype Member = Member(name: string, bytes: Bytes)

  /** One entry of the zip's directory, and what it inflates to where it can be read. */
  datatype Entry = Entry(name: string, size: nat, directory: bool, data: Option<Bytes>)

  /** What assigning a name meets in an object whose prototype has been set to bytes. */
  datatype Slot = Creates | Ignores | Throws

  /** The digest, a member's size, the locale's comparison, and what bytes as a prototype do to a new name. */
  datatype Tools = Tools(sha256: Bytes -> Digest, size: Bytes -> nat, locale: Compare, slot: (string, Bytes) -> Slot)

  datatype Limits = Limits(memberBytes: nat, totalBytes: nat)

  datatype BadArchive = UnsafeName | TooManyMembers | MemberTooLarge | TooLarge | Unreadable | NoManifest
                      | BadManifest | NamedAndMissing | DigestDiffers | Unlisted

  datatype Result<+T> = Ok(value: T) | Bad(why: BadArchive)

  const MANIFEST_NAME := "manifest.json"
  const ARCHIVE_VERSION := 1

  /** The one name whose assignment makes no key: it sets the object's prototype. */
  const PROTOTYPE := "__proto__"
  const LENGTH := "length"

  const MAX_MEMBERS := 10_000

  /** Members by name, as an object holds them: a later one of a name replaces an earlier. */
  function MapOf(members: seq<Member>): map<string, Bytes>
    decreases members
  {
    if members == [] then map[]
    else
      var last := members[|members| - 1];
      MapOf(members[..|members| - 1])[last.name := last.bytes]
  }

  function NamesOf(members: seq<Member>): seq<string>
    ensures |NamesOf(members)| == |members|
    ensures forall i :: 0 <= i < |members| ==> NamesOf(members)[i] == members[i].name
  {
    seq(|members|, i requires 0 <= i < |members| => members[i].name)
  }

  ghost predicate DistinctNames(members: seq<Member>) {
    forall i, j :: 0 <= i < j < |members| ==> members[i].name != members[j].name
  }

  /** Each name with its digest, in the order of the names. */
  function Listed(names: seq<string>, files: map<string, Digest>): seq<(string, Digest)>
    decreases names
  {
    if names == [] then []
    else
      var last := names[|names| - 1];
      Listed(names[..|names| - 1], files) + (if last in files then [(last, files[last])] else [])
  }

  /** The digests by name, as an object of strings holds them. */
  function Digests(tools: Tools, held: map<string, Bytes>): map<string, Digest> {
    map name | name in held && name != PROTOTYPE :: tools.sha256(held[name])
  }

  function ManifestOf(tools: Tools, members: seq<Member>, attachments: Attachments, missing: seq<string>): Manifest {
    Manifest(ARCHIVE_VERSION, attachments, Names(Sort(tools.locale, missing)),
             Files(Listed(Sort(tools.locale, NamesOf(members)), Digests(tools, MapOf(members))), false))
  }

  /** The members with the manifest among them: in place of one of its name, or last. */
  function WithManifest(members: seq<Member>, manifest: Bytes): seq<Member>
    decreases members
  {
    if members == [] then [Member(MANIFEST_NAME, manifest)]
    else if members[0].name == MANIFEST_NAME then [Member(MANIFEST_NAME, manifest)] + members[1..]
    else [members[0]] + WithManifest(members[1..], manifest)
  }

  function EntriesOf(tools: Tools, members: seq<Member>): seq<Entry>
    ensures |EntriesOf(tools, members)| == |members|
    ensures forall i :: 0 <= i < |members| ==>
              EntriesOf(tools, members)[i]
                == Entry(members[i].name, tools.size(members[i].bytes), false, Some(members[i].bytes))
  {
    seq(|members|, i requires 0 <= i < |members| =>
      Entry(members[i].name, tools.size(members[i].bytes), false, Some(members[i].bytes)))
  }

  function Packed(tools: Tools, members: seq<Member>, attachments: Attachments, missing: seq<string>): seq<Entry> {
    EntriesOf(tools, WithManifest(members, ManifestJson(ManifestOf(tools, members, attachments, missing))))
  }

  lemma {:induction false} TheManifestIsAmong(members: seq<Member>, manifest: Bytes)
    requires DistinctNames(members)
    ensures var all, named := WithManifest(members, manifest), MANIFEST_NAME in NamesOf(members);
            && |all| == |members| + (if named then 0 else 1)
            && (!named ==> all[|members|] == Member(MANIFEST_NAME, manifest))
            && forall k :: 0 <= k < |members| ==>
                 all[k].name == members[k].name
                 && all[k].bytes == (if members[k].name == MANIFEST_NAME then manifest else members[k].bytes)
    decreases members
  {
    if members != [] {
      var rest := members[1..];
      assert NamesOf(members) == [members[0].name] + NamesOf(rest);
      TheManifestIsAmong(rest, manifest);
    }
  }

  /**
   * What is packed: each member in its place with its bytes, but for one of the
   * manifest's own name, which the manifest replaces; with none, it comes last.
   */
  lemma WhatIsPacked(tools: Tools, members: seq<Member>, attachments: Attachments, missing: seq<string>)
    requires DistinctNames(members)
    ensures var entries := Packed(tools, members, attachments, missing);
            var manifest := ManifestJson(ManifestOf(tools, members, attachments, missing));
            var named := exists k :: 0 <= k < |members| && members[k].name == "manifest.json";
            && |entries| == |members| + (if named then 0 else 1)
            && (!named ==> entries[|members|] == Entry("manifest.json", tools.size(manifest), false, Some(manifest)))
            && forall k :: 0 <= k < |members| ==>
                 var bytes := if members[k].name == "manifest.json" then manifest else members[k].bytes;
                 entries[k] == Entry(members[k].name, tools.size(bytes), false, Some(bytes))
  {
    hide ManifestOf, WithManifest, DistinctNames;
    TheManifestIsAmong(members, ManifestJson(ManifestOf(tools, members, attachments, missing)));
    forall k | 0 <= k < |members| ensures NamesOf(members)[k] == members[k].name {}
  }

  /** Refused exactly where some member's name is unsafe. */
  method Pack(tools: Tools, members: seq<Member>, attachments: Attachments, missing: seq<string>)
    returns (r: Result<seq<Entry>>)
    ensures r.Ok? <==> forall i :: 0 <= i < |members| ==> Harmless(members[i].name)
    ensures r.Bad? ==> r.why == UnsafeName
    ensures r.Ok? ==> r.value == Packed(tools, members, attachments, missing)
  {
    hide IsSafe, Harmless, Sort, Listed, WithManifest;
    forall i | 0 <= i < |members| ensures IsSafe(members[i].name) <==> Harmless(members[i].name) {
      SafeIsHarmless(members[i].name);
    }
    var files: map<string, Digest> := map[];
    for i := 0 to |members|
      invariant forall j :: 0 <= j < i ==> IsSafe(members[j].name)
      invariant files == Digests(tools, MapOf(members[..i]))
    {
      if !IsSafe(members[i].name) { return Bad(UnsafeName); }
      if members[i].name != PROTOTYPE { files := files[members[i].name := tools.sha256(members[i].bytes)]; }
      assert members[..i + 1][..i] == members[..i];
    }
    assert members[..|members|] == members;
    var manifest := Manifest(ARCHIVE_VERSION, attachments, Names(Sort(tools.locale, missing)),
                             Files(Listed(Sort(tools.locale, NamesOf(members)), files), false));
    r := Ok(EntriesOf(tools, WithManifest(members, ManifestJson(manifest))));
  }

  // --- One manifest for one case ------------------------------------------

  lemma {:induction false} MapOfHolds(members: seq<Member>, i: nat)
    requires DistinctNames(members) && i < |members|
    ensures members[i].name in MapOf(members) && MapOf(members)[members[i].name] == members[i].bytes
    decreases members
  {
    if i < |members| - 1 { MapOfHolds(members[..|members| - 1], i); }
  }

  lemma {:induction false} MapOfKeys(members: seq<Member>)
    ensures forall name :: name in MapOf(members) <==> name in NamesOf(members)
    decreases members
  {
    if members != [] {
      var shorter := members[..|members| - 1];
      MapOfKeys(shorter);
      assert NamesOf(members) == NamesOf(shorter) + [members[|members| - 1].name];
    }
  }

  lemma {:induction false} DistinctNamesOnceEach(names: seq<string>, held: set<string>)
    requires forall i, j :: 0 <= i < j < |names| ==> names[i] != names[j]
    requires forall name :: name in names <==> name in held
    ensures multiset(names) == multiset(held)
    decreases names
  {
    if names == [] {
      assert held == {};
    } else {
      var last := |names| - 1;
      assert names == names[..last] + [names[last]];
      assert names[last] !in names[..last];
      DistinctNamesOnceEach(names[..last], held - {names[last]});
    }
  }

  /** The same members and the same missing names, in any order, make the same manifest. */
  lemma TheManifestIsCanonical(tools: Tools, attachments: Attachments,
                               members: seq<Member>, members': seq<Member>,
                               missing: seq<string>, missing': seq<string>)
    requires WeakOrder(tools.locale)
    requires DistinctNames(members) && DistinctNames(members') && MapOf(members) == MapOf(members')
    requires multiset(missing) == multiset(missing')
    ensures ManifestOf(tools, members, attachments, missing) == ManifestOf(tools, members', attachments, missing')
  {
    hide Sort, Listed, WeakOrder;
    var names, names' := NamesOf(members), NamesOf(members');
    MapOfKeys(members);
    MapOfKeys(members');
    DistinctNamesOnceEach(names, MapOf(members).Keys);
    DistinctNamesOnceEach(names', MapOf(members).Keys);
    SortIgnoresInputOrder(tools.locale, names, names');
    SortIgnoresInputOrder(tools.locale, missing, missing');
  }

  /** The list holds the names that have a digest, each with it, and nothing else. */
  lemma {:induction false} ListedHolds(names: seq<string>, files: map<string, Digest>)
    ensures forall pair :: pair in Listed(names, files) <==>
              pair.0 in names && pair.0 in files && pair.1 == files[pair.0]
    decreases names
  {
    if names != [] {
      ListedHolds(names[..|names| - 1], files);
      assert names == names[..|names| - 1] + [names[|names| - 1]];
    }
  }

  /** Each name comes strictly before those after it. */
  ghost predicate Strict(locale: Compare, names: seq<string>) {
    forall i, j :: 0 <= i < j < |names| ==> ByName(locale, names[i], names[j]) < 0
  }

  ghost predicate ListedStrictly(locale: Compare, listed: seq<(string, Digest)>) {
    forall i, j :: 0 <= i < j < |listed| ==> ByName(locale, listed[i].0, listed[j].0) < 0
  }

  lemma {:induction false} ListedKeepsOrder(locale: Compare, names: seq<string>, files: map<string, Digest>)
    requires Strict(locale, names)
    ensures ListedStrictly(locale, Listed(names, files))
    decreases names
  {
    if names != [] {
      var last := |names| - 1;
      assert Strict(locale, names[..last]);
      ListedKeepsOrder(locale, names[..last], files);
      ListedHolds(names[..last], files);
      var earlier, listed := Listed(names[..last], files), Listed(names, files);
      forall i, j | 0 <= i < j < |listed| ensures ByName(locale, listed[i].0, listed[j].0) < 0 {
        assert listed[i] == earlier[i] && earlier[i] in earlier;
        var k :| 0 <= k < last && names[..last][k] == earlier[i].0;
        if j < |earlier| {
          assert listed[j] == earlier[j];
        } else {
          assert listed[j].0 == names[last] && names[k] == earlier[i].0;
        }
      }
    }
  }

  /**
   * What a manifest states: its version, whether the files travel, the missing
   * names in order and as often as given, and each member's name in order,
   * once, with the digest of its bytes, but for one named `__proto__`.
   */
  lemma WhatAManifestStates(tools: Tools, members: seq<Member>, attachments: Attachments, missing: seq<string>)
    requires WeakOrder(tools.locale) && DistinctNames(members)
    ensures var m := ManifestOf(tools, members, attachments, missing);
            && m.version == 1 && m.attachments == attachments
            && m.missing.Names? && multiset(m.missing.names) == multiset(missing)
            && (forall i, j :: 0 <= i < j < |m.missing.names| ==>
                  ByName(tools.locale, m.missing.names[i], m.missing.names[j]) <= 0)
            && m.files.Files? && !m.files.isList && ListedStrictly(tools.locale, m.files.listed)
            && forall name, digest :: (name, digest) in m.files.listed <==>
                 name != "__proto__"
                 && exists k :: 0 <= k < |members| && members[k].name == name
                                && digest == tools.sha256(members[k].bytes)
  {
    hide Sort, WeakOrder, Listed, MapOf, DistinctNames, Strict, ListedStrictly;
    var names, files := Sort(tools.locale, NamesOf(members)), Digests(tools, MapOf(members));
    SortSorts(tools.locale, missing);
    SortedNamesAreTheMembers(tools.locale, members);
    SortedNamesAreStrict(tools, members);
    ListedKeepsOrder(tools.locale, names, files);
    ListedHolds(names, files);
    MapOfKeys(members);
    forall k | 0 <= k < |members|
      ensures members[k].name in names && MapOf(members)[members[k].name] == members[k].bytes
    {
      MapOfHolds(members, k);
    }
    forall name, digest | (name, digest) in Listed(names, files)
      ensures exists k :: 0 <= k < |members| && members[k].name == name && digest == tools.sha256(members[k].bytes)
    {
      var k :| 0 <= k < |members| && NamesOf(members)[k] == name;
      assert members[k].name == name;
    }
  }

  lemma SortedNamesAreStrict(tools: Tools, members: seq<Member>)
    requires WeakOrder(tools.locale) && DistinctNames(members)
    ensures Strict(tools.locale, Sort(tools.locale, NamesOf(members)))
  {
    hide Sort, WeakOrder, ByName, MapOf;
    var names := Sort(tools.locale, NamesOf(members));
    SortSorts(tools.locale, NamesOf(members));
    MapOfKeys(members);
    DistinctNamesOnceEach(NamesOf(members), MapOf(members).Keys);
    forall i, j | 0 <= i < j < |names| ensures ByName(tools.locale, names[i], names[j]) < 0 {
      assert AtMost(tools.locale, names[i], names[j]);
      ByNameIsAStrictTotalOrder(tools.locale, names[i], names[j], names[i]);
      if names[i] == names[j] { TwicePresent(names, i, j); }
    }
  }

  // --- Reading one back ---------------------------------------------------

  function TotalSize(entries: seq<Entry>): nat
    decreases entries
  {
    if entries == [] then 0 else TotalSize(entries[..|entries| - 1]) + entries[|entries| - 1].size
  }

  /** The object the members are read into: its own keys, and its prototype once one was assigned. */
  datatype Opened = Opened(own: map<string, Bytes>, prototype: Option<Bytes>)

  const NOTHING_OPENED := Opened(map[], None)

  /** `members[name] = bytes`, or nothing where it throws. */
  function Assigned(tools: Tools, o: Opened, name: string, bytes: Bytes): Option<Opened> {
    if name == PROTOTYPE then Some(o.(prototype := Some(bytes)))
    else if name in o.own || o.prototype.None? then Some(o.(own := o.own[name := bytes]))
    else
      match tools.slot(name, o.prototype.value)
      case Creates => Some(o.(own := o.own[name := bytes]))
      case Ignores => Some(o)
      case Throws => None
  }

  /** `members[name]` where it is bytes: whatever else a prototype answers is never taken for a member. */
  function Looked(o: Opened, name: string): Option<Bytes> {
    if name in o.own then Some(o.own[name]) else if name == PROTOTYPE then o.prototype else None
  }

  /** What the entries inflate to, directories aside; nothing where one cannot be read or kept. */
  function Inflated(tools: Tools, entries: seq<Entry>): Option<Opened>
    decreases entries
  {
    if entries == [] then Some(NOTHING_OPENED)
    else
      var last, earlier := entries[|entries| - 1], Inflated(tools, entries[..|entries| - 1]);
      if earlier.None? || last.directory then earlier
      else if last.data.None? then None
      else Assigned(tools, earlier.value, last.name, last.data.value)
  }

  /** The bounds on how many the entries are and how large. */
  predicate FitsIn(entries: seq<Entry>, limits: Limits) {
    && |entries| <= MAX_MEMBERS && TotalSize(entries) <= limits.totalBytes
    && forall i :: 0 <= i < |entries| ==> entries[i].size <= limits.memberBytes
  }

  predicate WithinBounds(entries: seq<Entry>, limits: Limits) {
    FitsIn(entries, limits) && forall i :: 0 <= i < |entries| ==> IsSafe(entries[i].name)
  }

  predicate ManifestReads(m: Manifest) {
    m.version == ARCHIVE_VERSION && m.files.Files? && m.attachments != Unsaid && m.missing != NotNames
  }

  predicate Lists(listed: seq<(string, Digest)>, name: string) {
    exists i :: 0 <= i < |listed| && listed[i].0 == name
  }

  /** `Object.hasOwn(files, name)`. */
  predicate Owns(files: Files, name: string) {
    files.Files? && (Lists(files.listed, name) || (files.isList && name == LENGTH))
  }

  /** Each listed name is found with its digest, and each member's name is the manifest's own or in its files. */
  predicate ManifestHolds(tools: Tools, o: Opened, files: Files)
    requires files.Files?
  {
    && (forall i :: 0 <= i < |files.listed| ==>
          Looked(o, files.listed[i].0).Some? && tools.sha256(Looked(o, files.listed[i].0).value) == files.listed[i].1)
    && forall name :: name in o.own ==> name == MANIFEST_NAME || Owns(files, name)
  }

  predicate HasManifest(o: Opened) {
    && MANIFEST_NAME in o.own && o.own[MANIFEST_NAME].ManifestJson?
    && ManifestReads(o.own[MANIFEST_NAME].manifest)
  }

  predicate Acceptable(tools: Tools, entries: seq<Entry>, limits: Limits) {
    && WithinBounds(entries, limits)
    && var o := Inflated(tools, entries);
       && o.Some? && HasManifest(o.value)
       && ManifestHolds(tools, o.value, o.value.own[MANIFEST_NAME].manifest.files)
  }

  lemma {:induction false} ALongerTotalIsNoLess(entries: seq<Entry>, n: nat)
    requires n <= |entries|
    ensures TotalSize(entries[..n]) <= TotalSize(entries)
    decreases |entries|
  {
    if n < |entries| {
      ALongerTotalIsNoLess(entries[..|entries| - 1], n);
      assert entries[..|entries| - 1][..n] == entries[..n];
    } else {
      assert entries[..n] == entries;
    }
  }

  /** A directory's size is its entries', each counted once. */
  lemma {:induction false} SizesAddUp(entries: seq<Entry>, more: seq<Entry>, entry: Entry)
    ensures TotalSize([]) == 0 && TotalSize([entry]) == entry.size
    ensures TotalSize(entries + more) == TotalSize(entries) + TotalSize(more)
    decreases more
  {
    assert [entry][..0] == [];
    if more == [] {
      assert entries + more == entries;
    } else {
      SizesAddUp(entries, more[..|more| - 1], entry);
      assert (entries + more)[..|entries + more| - 1] == entries + more[..|more| - 1];
    }
  }

  /** Every bound, read off the directory before anything is inflated. */
  method CheckBounds(entries: seq<Entry>, limits: Limits) returns (r: Result<nat>)
    ensures r.Ok? <==>
              && |entries| <= 10_000 && TotalSize(entries) <= limits.totalBytes
              && forall i :: 0 <= i < |entries| ==> entries[i].size <= limits.memberBytes && Harmless(entries[i].name)
    ensures r.Ok? ==> r.value == TotalSize(entries)
  {
    hide IsSafe, Harmless;
    forall i | 0 <= i < |entries| ensures IsSafe(entries[i].name) <==> Harmless(entries[i].name) {
      SafeIsHarmless(entries[i].name);
    }
    if |entries| > MAX_MEMBERS { return Bad(TooManyMembers); }
    var total := 0;
    for i := 0 to |entries|
      invariant total == TotalSize(entries[..i]) <= limits.totalBytes
      invariant forall j :: 0 <= j < i ==> IsSafe(entries[j].name) && entries[j].size <= limits.memberBytes
    {
      if !IsSafe(entries[i].name) { return Bad(UnsafeName); }
      if entries[i].size > limits.memberBytes { return Bad(MemberTooLarge); }
      assert entries[..i + 1][..i] == entries[..i];
      total := total + entries[i].size;
      ALongerTotalIsNoLess(entries, i + 1);
      if total > limits.totalBytes { return Bad(TooLarge); }
    }
    assert entries[..|entries|] == entries;
    r := Ok(total);
  }

  lemma {:induction false} AnUnreadableEntryIsFinal(tools: Tools, entries: seq<Entry>, n: nat)
    requires n <= |entries| && Inflated(tools, entries[..n]).None?
    ensures Inflated(tools, entries).None?
    decreases |entries|
  {
    if n < |entries| {
      assert entries[..|entries| - 1][..n] == entries[..n];
      AnUnreadableEntryIsFinal(tools, entries[..|entries| - 1], n);
    } else {
      assert entries[..n] == entries;
    }
  }

  /** Each entry that is no directory inflated and assigned to its name. */
  method Inflate(tools: Tools, entries: seq<Entry>) returns (r: Result<Opened>)
    ensures r == if Inflated(tools, entries).Some? then Ok(Inflated(tools, entries).value) else Bad(Unreadable)
  {
    hide Assigned;
    var members := NOTHING_OPENED;
    for i := 0 to |entries|
      invariant Inflated(tools, entries[..i]) == Some(members)
    {
      ghost var more := entries[..i + 1];
      assert more[..i] == entries[..i] && more[i] == entries[i];
      if entries[i].directory { continue; }
      var entry := entries[i];
      var kept := if entry.data.None? then None else Assigned(tools, members, entry.name, entry.data.value);
      if kept.None? {
        AnUnreadableEntryIsFinal(tools, entries, i + 1);
        return Bad(Unreadable);
      }
      members := kept.value;
    }
    assert entries[..|entries|] == entries;
    r := Ok(members);
  }

  /** The bounds, number by number and name by name. */
  lemma BoundsOnTheDirectory(entries: seq<Entry>, limits: Limits)
    ensures WithinBounds(entries, limits) <==>
              && |entries| <= 10_000 && TotalSize(entries) <= limits.totalBytes
              && forall i :: 0 <= i < |entries| ==> entries[i].size <= limits.memberBytes && Harmless(entries[i].name)
  {
    hide IsSafe, Harmless;
    forall i | 0 <= i < |entries| ensures IsSafe(entries[i].name) <==> Harmless(entries[i].name) {
      SafeIsHarmless(entries[i].name);
    }
  }

  /** Accepts exactly the archives that are within every bound and as their manifest says. */
  method Unpack(tools: Tools, entries: seq<Entry>, limits: Limits) returns (r: Result<(Opened, Manifest)>)
    ensures r.Ok? <==> Acceptable(tools, entries, limits)
    ensures r.Ok? ==> Inflated(tools, entries) == Some(r.value.0)
                      && r.value.0.own[MANIFEST_NAME] == ManifestJson(r.value.1)
  {
    hide IsSafe, Harmless, TotalSize, Inflated, ManifestHolds;
    BoundsOnTheDirectory(entries, limits);
    var bounds := CheckBounds(entries, limits);
    if bounds.Bad? { return Bad(bounds.why); }
    var inflated := Inflate(tools, entries);
    if inflated.Bad? { return Bad(inflated.why); }
    var members := inflated.value;
    if MANIFEST_NAME !in members.own { return Bad(NoManifest); }
    if !members.own[MANIFEST_NAME].ManifestJson? { return Bad(BadManifest); }
    var manifest := members.own[MANIFEST_NAME].manifest;
    if manifest.version != ARCHIVE_VERSION { return Bad(BadManifest); }
    if !manifest.files.Files? { return Bad(BadManifest); }
    if manifest.attachments == Unsaid { return Bad(BadManifest); }
    if manifest.missing == NotNames { return Bad(BadManifest); }
    var checked := CheckManifest(tools, members, manifest.files);
    if checked.Bad? { return Bad(checked.why); }
    r := Ok((members, manifest));
  }

  /** The two passes: every listed name's digest, then every member's listing. */
  method CheckManifest(tools: Tools, members: Opened, files: Files) returns (r: Result<nat>)
    requires files.Files?
    ensures r.Ok? <==> ManifestHolds(tools, members, files)
  {
    hide Looked;
    var listed := files.listed;
    var named: set<string> := {};
    for i := 0 to |listed|
      invariant forall j :: 0 <= j < i ==>
                  Looked(members, listed[j].0).Some? && tools.sha256(Looked(members, listed[j].0).value) == listed[j].1
      invariant forall name :: name in named <==> exists j :: 0 <= j < i && listed[j].0 == name
    {
      var bytes := Looked(members, listed[i].0);
      if bytes.None? { return Bad(NamedAndMissing); }
      if tools.sha256(bytes.value) != listed[i].1 { return Bad(DigestDiffers); }
      named := named + {listed[i].0};
    }
    if files.isList { named := named + {LENGTH}; }
    assert forall name :: name in named <==> Owns(files, name);
    var left := members.own.Keys;
    while left != {}
      invariant left <= members.own.Keys
      invariant forall name :: name in members.own && name !in left ==> name == MANIFEST_NAME || name in named
      decreases left
    {
      var name :| name in left;
      if name != MANIFEST_NAME && name !in named { return Bad(Unlisted); }
      left := left - {name};
    }
    r := Ok(|members.own|);
  }

  // --- What an accepted archive holds ---------------------------------------

  /** The names of the files in the zip. */
  function NamesCarried(entries: seq<Entry>): set<string> {
    set entry | entry in entries && !entry.directory :: entry.name
  }

  function NamesListed(files: Files): set<string> {
    if files.NoFiles? then {} else set i | 0 <= i < |files.listed| :: files.listed[i].0
  }

  /** The data of the last file of a name. */
  function LastOf(entries: seq<Entry>, name: string): Option<Bytes>
    decreases entries
  {
    if entries == [] then None
    else
      var last := entries[|entries| - 1];
      if !last.directory && last.name == name then last.data else LastOf(entries[..|entries| - 1], name)
  }

  /** Entry `i` makes a key of its name: nothing before it has set a prototype, or the prototype lets it. */
  predicate MakesKey(tools: Tools, entries: seq<Entry>, i: nat)
    requires i < |entries|
  {
    var prototype := LastOf(entries[..i], PROTOTYPE);
    && !entries[i].directory && entries[i].name != PROTOTYPE
    && (prototype.None? || tools.slot(entries[i].name, prototype.value) == Creates)
  }

  /** The names of the zip that become keys. */
  function NamesKept(tools: Tools, entries: seq<Entry>): set<string> {
    set i | 0 <= i < |entries| && MakesKey(tools, entries, i) :: entries[i].name
  }

  /** Files whose names become no key and no prototype: what a prototype of bytes ignores. */
  function Ignored(tools: Tools, entries: seq<Entry>): set<string> {
    NamesCarried(entries) - NamesKept(tools, entries) - {PROTOTYPE}
  }

  /** Entry `i` can be read, and its name is one an object takes or has already. */
  predicate IsTaken(tools: Tools, entries: seq<Entry>, i: nat)
    requires i < |entries|
  {
    var entry, prototype := entries[i], LastOf(entries[..i], PROTOTYPE);
    entry.directory ||
    (entry.data.Some? &&
     (entry.name == PROTOTYPE || entry.name in NamesKept(tools, entries[..i]) || prototype.None?
      || tools.slot(entry.name, prototype.value) != Throws))
  }

  predicate AllTaken(tools: Tools, entries: seq<Entry>) {
    forall i :: 0 <= i < |entries| ==> IsTaken(tools, entries, i)
  }

  /** What the manifest in the zip states of its files. */
  function FilesStated(entries: seq<Entry>): Files {
    match LastOf(entries, MANIFEST_NAME)
    case Some(ManifestJson(manifest)) => manifest.files
    case _ => NoFiles
  }

  /** Some name, unlisted, is taken for listed because the files are stated as a list. */
  predicate LengthPasses(files: Files, names: set<string>) {
    files.Files? && files.isList && LENGTH in names - NamesListed(files)
  }

  lemma KeptOneMore(tools: Tools, entries: seq<Entry>)
    requires entries != []
    ensures var last := |entries| - 1;
            && NamesKept(tools, entries)
                 == NamesKept(tools, entries[..last])
                    + (if MakesKey(tools, entries, last) then {entries[last].name} else {})
            && NamesCarried(entries)
                 == NamesCarried(entries[..last]) + (if entries[last].directory then {} else {entries[last].name})
            && (AllTaken(tools, entries) <==> AllTaken(tools, entries[..last]) && IsTaken(tools, entries, last))
  {
    var last := |entries| - 1;
    forall i | 0 <= i < last
      ensures MakesKey(tools, entries, i) == MakesKey(tools, entries[..last], i) && entries[..last][i] == entries[i]
      ensures IsTaken(tools, entries, i) == IsTaken(tools, entries[..last], i)
    {
      assert entries[..last][..i] == entries[..i];
    }
    hide MakesKey, IsTaken;
    assert entries == entries[..last] + [entries[last]];
  }

  /**
   * What the files become, read off the zip's directory: everything is taken
   * or nothing is, each name kept holds its last file, and the last file named
   * `__proto__` is the prototype.
   */
  lemma {:induction false} WhatIsOpened(tools: Tools, entries: seq<Entry>)
    ensures Inflated(tools, entries).Some? <==> AllTaken(tools, entries)
    ensures AllTaken(tools, entries) ==>
              var o := Inflated(tools, entries).value;
              && o.own.Keys == NamesKept(tools, entries)
              && (forall name :: name in o.own ==> LastOf(entries, name) == Some(o.own[name]))
              && o.prototype == LastOf(entries, PROTOTYPE)
    decreases entries
  {
    if entries != [] {
      hide NamesKept, AllTaken, NamesCarried;
      WhatIsOpened(tools, entries[..|entries| - 1]);
      KeptOneMore(tools, entries);
    } else {
      assert NamesKept(tools, entries) == {};
    }
  }

  /** Names kept are names carried, and all of them where none is `__proto__`, which is never one. */
  lemma {:induction false} WhatIsKeptWasCarried(tools: Tools, entries: seq<Entry>)
    requires AllTaken(tools, entries)
    ensures NamesKept(tools, entries) <= NamesCarried(entries) && PROTOTYPE !in NamesKept(tools, entries)
    ensures LastOf(entries, PROTOTYPE).Some? <==> PROTOTYPE in NamesCarried(entries)
    ensures PROTOTYPE !in NamesCarried(entries) ==> NamesKept(tools, entries) == NamesCarried(entries)
    decreases entries
  {
    if entries != [] {
      hide NamesKept, AllTaken, NamesCarried;
      KeptOneMore(tools, entries);
      WhatIsKeptWasCarried(tools, entries[..|entries| - 1]);
    } else {
      assert NamesKept(tools, entries) == {} && NamesCarried(entries) == {};
    }
  }

  /**
   * An accepted archive, by its directory alone: the object's keys are the
   * names kept, the manifest is the last file of its name, what is listed is a
   * name kept or the prototype carried, and what is kept is listed.
   */
  lemma AnAcceptedArchiveSays(tools: Tools, entries: seq<Entry>, limits: Limits)
    requires Acceptable(tools, entries, limits)
    ensures var kept, listed := NamesKept(tools, entries), NamesListed(FilesStated(entries));
            && AllTaken(tools, entries) && Inflated(tools, entries).value.own.Keys == kept
            && MANIFEST_NAME in kept && FilesStated(entries).Files?
            && listed <= kept + (NamesCarried(entries) * {PROTOTYPE})
            && kept <= listed + {MANIFEST_NAME} + (if FilesStated(entries).isList then {LENGTH} else {})
  {
    hide Inflated, WithinBounds, NamesCarried, NamesKept, AllTaken;
    WhatIsOpened(tools, entries);
    WhatIsKeptWasCarried(tools, entries);
    var o, files := Inflated(tools, entries).value, FilesStated(entries);
    assert files == o.own[MANIFEST_NAME].manifest.files;
    assert forall name :: name in NamesListed(files) <==> Lists(files.listed, name);
    forall name | name in NamesListed(files) ensures Looked(o, name).Some? {
      assert Lists(files.listed, name);
    }
  }

  /**
   * What is read out of an accepted archive is what its manifest lists, and
   * the manifest, exactly when the manifest lists no prototype and no name
   * kept passes for the length of a list.
   */
  lemma WhatIsReadIsListed(tools: Tools, entries: seq<Entry>, limits: Limits)
    requires Acceptable(tools, entries, limits)
    ensures var files := FilesStated(entries);
            Inflated(tools, entries).value.own.Keys == NamesListed(files) + {MANIFEST_NAME} <==>
              PROTOTYPE !in NamesListed(files) && !LengthPasses(files, NamesKept(tools, entries))
  {
    hide Acceptable, Inflated, NamesKept, NamesCarried, NamesListed, FilesStated, AllTaken;
    AnAcceptedArchiveSays(tools, entries, limits);
    WhatIsKeptWasCarried(tools, entries);
    TheThreeNamesDiffer();
  }

  /**
   * The files in an accepted zip are its manifest's and the manifest itself,
   * exactly when no file named `__proto__` goes unlisted, nothing behind one
   * is ignored, and no unlisted file passes for the length of a list.
   */
  lemma AnAcceptedArchiveIsItsManifest(tools: Tools, entries: seq<Entry>, limits: Limits)
    requires Acceptable(tools, entries, limits)
    ensures var files, carried := FilesStated(entries), NamesCarried(entries);
            carried == NamesListed(files) + {MANIFEST_NAME} <==>
              && (PROTOTYPE in carried ==> PROTOTYPE in NamesListed(files))
              && Ignored(tools, entries) == {}
              && !LengthPasses(files, carried)
  {
    hide Acceptable, Inflated, NamesKept, NamesCarried, NamesListed, FilesStated, AllTaken;
    AnAcceptedArchiveSays(tools, entries, limits);
    WhatIsKeptWasCarried(tools, entries);
    TheThreeNamesDiffer();
  }

  lemma TheThreeNamesDiffer()
    ensures LENGTH != MANIFEST_NAME && PROTOTYPE != MANIFEST_NAME && LENGTH != PROTOTYPE
  {}

  /** What a name stands for in an accepted archive: its last file, where it is kept or the prototype's. */
  predicate IsFoundWith(tools: Tools, entries: seq<Entry>, name: string, digest: Digest) {
    && (name in NamesKept(tools, entries) || name == PROTOTYPE)
    && LastOf(entries, name).Some? && tools.sha256(LastOf(entries, name).value) == digest
  }

  /**
   * Acceptance, on the zip's directory alone: within the bounds, every file
   * taken, the last manifest kept and of version one, saying whether its files
   * travelled and what is missing, each file it lists found with its digest,
   * and each name kept listed.
   */
  lemma AcceptanceIsOnTheDirectory(tools: Tools, entries: seq<Entry>, limits: Limits)
    ensures Acceptable(tools, entries, limits) <==>
              && |entries| <= 10_000 && TotalSize(entries) <= limits.totalBytes
              && (forall i :: 0 <= i < |entries| ==> entries[i].size <= limits.memberBytes && Harmless(entries[i].name))
              && AllTaken(tools, entries) && "manifest.json" in NamesKept(tools, entries)
              && match LastOf(entries, "manifest.json")
                 case Some(ManifestJson(m)) =>
                   && m.version == 1 && m.attachments != Unsaid && m.missing != NotNames && m.files.Files?
                   && (forall i :: 0 <= i < |m.files.listed| ==>
                         IsFoundWith(tools, entries, m.files.listed[i].0, m.files.listed[i].1))
                   && (forall name :: name in NamesKept(tools, entries) ==>
                         || name == "manifest.json" || (m.files.isList && name == "length")
                         || exists i :: 0 <= i < |m.files.listed| && m.files.listed[i].0 == name)
                 case _ => false
  {
    hide Inflated, WithinBounds, NamesKept, AllTaken, LastOf, TotalSize, Harmless;
    BoundsOnTheDirectory(entries, limits);
    WhatIsOpened(tools, entries);
    if AllTaken(tools, entries) {
      PrototypeIsNeverKept(tools, entries);
      var o := Inflated(tools, entries).value;
      forall name
        ensures Looked(o, name).Some? <==>
                  (name in NamesKept(tools, entries) || name == PROTOTYPE) && LastOf(entries, name).Some?
      {}
      forall name | Looked(o, name).Some? ensures LastOf(entries, name) == Looked(o, name) {}
    }
  }

  lemma PrototypeIsNeverKept(tools: Tools, entries: seq<Entry>)
    ensures PROTOTYPE !in NamesKept(tools, entries)
  {}

  // --- The three ways they differ --------------------------------------------

  /** A manifest of these files and nothing missing. */
  function Stating(files: Files): Bytes { ManifestJson(Manifest(ARCHIVE_VERSION, Omitted, Absent, files)) }

  const LISTING_NOTHING := Files([], false)
  const AN_EMPTY_LIST := Files([], true)

  function ListingThePrototype(tools: Tools, bytes: Bytes): Files { Files([(PROTOTYPE, tools.sha256(bytes))], false) }

  /** A zip of a manifest and other files, each entry of its own size. */
  function Zipped(tools: Tools, files: Files, others: seq<Member>): seq<Entry> {
    EntriesOf(tools, [Member(MANIFEST_NAME, Stating(files))] + others)
  }

  lemma TheManifestIsOpenedFirst(tools: Tools, files: Files)
    ensures Inflated(tools, Zipped(tools, files, [])) == Some(Opened(map[MANIFEST_NAME := Stating(files)], None))
    ensures NamesCarried(Zipped(tools, files, [])) == {MANIFEST_NAME}
    ensures |Zipped(tools, files, [])| == 1 && IsSafe(Zipped(tools, files, [])[0].name)
  {
    hide IsSafe;
    TheManifestsNameIsSafe();
    var one := Zipped(tools, files, []);
    assert one[..0] == [] && Inflated(tools, one[..0]) == Some(NOTHING_OPENED);
  }

  lemma OneMoreFile(tools: Tools, files: Files, others: seq<Member>, name: string, bytes: Bytes)
    requires Inflated(tools, Zipped(tools, files, others)).Some?
    ensures var before, after := Zipped(tools, files, others), Zipped(tools, files, others + [Member(name, bytes)]);
            && Inflated(tools, after) == Assigned(tools, Inflated(tools, before).value, name, bytes)
            && NamesCarried(after) == NamesCarried(before) + {name}
            && after == before + [Entry(name, tools.size(bytes), false, Some(bytes))]
  {
    hide Assigned;
    var before, after := Zipped(tools, files, others), Zipped(tools, files, others + [Member(name, bytes)]);
    assert after == before + [Entry(name, tools.size(bytes), false, Some(bytes))];
    assert after[..|before|] == before;
  }

  /** A file named `__proto__` that no manifest lists is accepted where it fits, and is no member of what is read. */
  lemma AnUnlistedPrototypeIsAccepted(tools: Tools, bytes: Bytes, limits: Limits)
    requires FitsIn(Zipped(tools, LISTING_NOTHING, [Member(PROTOTYPE, bytes)]), limits)
    ensures var entries := Zipped(tools, LISTING_NOTHING, [Member(PROTOTYPE, bytes)]);
            && Acceptable(tools, entries, limits)
            && NamesCarried(entries) == {MANIFEST_NAME, PROTOTYPE} && NamesListed(LISTING_NOTHING) == {}
            && Inflated(tools, entries).value.own.Keys == {MANIFEST_NAME}
  {
    hide IsSafe, Inflated, FitsIn, NamesCarried, Zipped;
    AWordIsSafe(PROTOTYPE);
    TheManifestIsOpenedFirst(tools, LISTING_NOTHING);
    OneMoreFile(tools, LISTING_NOTHING, [], PROTOTYPE, bytes);
    assert [] + [Member(PROTOTYPE, bytes)] == [Member(PROTOTYPE, bytes)];
  }

  /** A file named `length` beside a manifest whose files are a list is accepted where it fits, and read. */
  lemma ALengthBesideAListIsAccepted(tools: Tools, bytes: Bytes, limits: Limits)
    requires FitsIn(Zipped(tools, AN_EMPTY_LIST, [Member(LENGTH, bytes)]), limits)
    ensures var entries := Zipped(tools, AN_EMPTY_LIST, [Member(LENGTH, bytes)]);
            && Acceptable(tools, entries, limits)
            && NamesListed(AN_EMPTY_LIST) == {}
            && Inflated(tools, entries).value.own.Keys == NamesCarried(entries) == {MANIFEST_NAME, LENGTH}
  {
    hide IsSafe, Inflated, FitsIn, NamesCarried, Zipped;
    AWordIsSafe(LENGTH);
    TheManifestIsOpenedFirst(tools, AN_EMPTY_LIST);
    OneMoreFile(tools, AN_EMPTY_LIST, [], LENGTH, bytes);
    assert [] + [Member(LENGTH, bytes)] == [Member(LENGTH, bytes)];
  }

  /** Behind a listed `__proto__`, a file of a name its bytes ignore is carried unlisted, accepted, and not read. */
  lemma AnIgnoredFileIsAccepted(tools: Tools, bytes: Bytes, name: string, hidden: Bytes, limits: Limits)
    requires IsSafe(name) && name != MANIFEST_NAME && name != PROTOTYPE && tools.slot(name, bytes) == Ignores
    requires FitsIn(Zipped(tools, ListingThePrototype(tools, bytes), [Member(PROTOTYPE, bytes), Member(name, hidden)]),
                    limits)
    ensures var files := ListingThePrototype(tools, bytes);
            var entries := Zipped(tools, files, [Member(PROTOTYPE, bytes), Member(name, hidden)]);
            && Acceptable(tools, entries, limits)
            && NamesCarried(entries) == {MANIFEST_NAME, PROTOTYPE, name} && NamesListed(files) == {PROTOTYPE}
            && Inflated(tools, entries).value.own.Keys == {MANIFEST_NAME}
  {
    hide IsSafe, Inflated, FitsIn, NamesCarried, Zipped;
    AWordIsSafe(PROTOTYPE);
    var files := ListingThePrototype(tools, bytes);
    TheManifestIsOpenedFirst(tools, files);
    OneMoreFile(tools, files, [], PROTOTYPE, bytes);
    assert [] + [Member(PROTOTYPE, bytes)] == [Member(PROTOTYPE, bytes)];
    OneMoreFile(tools, files, [Member(PROTOTYPE, bytes)], name, hidden);
    assert [Member(PROTOTYPE, bytes)] + [Member(name, hidden)] == [Member(PROTOTYPE, bytes), Member(name, hidden)];
    assert files.listed[0].0 == PROTOTYPE;
  }

  lemma AWordIsSafe(name: string)
    requires 3 <= |name| <= LONGEST_NAME
    requires forall i :: 0 <= i < |name| ==> DriveLetter(name[i]) || name[i] == '_' || name[i] == '.'
    requires name[1] != '.'
    ensures IsSafe(name)
  {
    hide Split;
    NoSlashNoCut(name);
    assert ".." != name;
  }

  // --- Packed and read back -----------------------------------------------

  /** Where none is named as a prototype, entries inflate to the members they were made from. */
  lemma {:induction false} EntriesInflateToTheirMembers(tools: Tools, members: seq<Member>)
    requires PROTOTYPE !in NamesOf(members)
    ensures Inflated(tools, EntriesOf(tools, members)) == Some(Opened(MapOf(members), None))
    decreases members
  {
    if members != [] {
      var last := |members| - 1;
      assert NamesOf(members)[last] == members[last].name;
      assert NamesOf(members[..last]) == NamesOf(members)[..last];
      EntriesInflateToTheirMembers(tools, members[..last]);
      assert EntriesOf(tools, members)[..last] == EntriesOf(tools, members[..last]);
    }
  }

  lemma {:induction false} TheManifestGoesLast(members: seq<Member>, manifest: Bytes)
    requires MANIFEST_NAME !in NamesOf(members)
    ensures WithManifest(members, manifest) == members + [Member(MANIFEST_NAME, manifest)]
    decreases members
  {
    if members != [] {
      assert NamesOf(members)[0] == members[0].name;
      assert NamesOf(members[1..]) == NamesOf(members)[1..];
      TheManifestGoesLast(members[1..], manifest);
      assert members == [members[0]] + members[1..];
    }
  }

  /** The list holds each of the names with its digest, and nothing else. */
  lemma {:induction false} ListedSays(names: seq<string>, files: map<string, Digest>)
    requires forall name :: name in names ==> name in files
    ensures |Listed(names, files)| == |names|
    ensures forall i :: 0 <= i < |names| ==> Listed(names, files)[i] == (names[i], files[names[i]])
    decreases names
  {
    if names != [] { ListedSays(names[..|names| - 1], files); }
  }

  lemma SortedNamesAreTheMembers(locale: Compare, members: seq<Member>)
    requires WeakOrder(locale)
    ensures forall name :: name in Sort(locale, NamesOf(members)) <==> name in MapOf(members)
  {
    hide Sort, WeakOrder, MapOf;
    var names := Sort(locale, NamesOf(members));
    MapOfKeys(members);
    SortSorts(locale, NamesOf(members));
    forall name ensures name in names <==> name in NamesOf(members) {
      assert name in names <==> name in multiset(names);
      assert name in NamesOf(members) <==> name in multiset(NamesOf(members));
    }
  }

  /** A list of every member's digest holds of those members, with a manifest beside them. */
  lemma AFullListHolds(tools: Tools, held: map<string, Bytes>, names: seq<string>, manifest: Bytes)
    requires MANIFEST_NAME !in held && PROTOTYPE !in held && forall name :: name in names <==> name in held
    ensures ManifestHolds(tools, Opened(held[MANIFEST_NAME := manifest], None),
                          Files(Listed(names, Digests(tools, held)), false))
  {
    hide Listed;
    var files := Digests(tools, held);
    ListedSays(names, files);
    forall name | name in held ensures Lists(Listed(names, files), name) {
      var i :| 0 <= i < |names| && names[i] == name;
      assert Listed(names, files)[i].0 == name;
    }
  }

  lemma ThePackedManifestHolds(tools: Tools, members: seq<Member>, attachments: Attachments, missing: seq<string>)
    requires WeakOrder(tools.locale) && MANIFEST_NAME !in NamesOf(members) && PROTOTYPE !in NamesOf(members)
    ensures var manifest := ManifestOf(tools, members, attachments, missing);
            ManifestHolds(tools, Opened(MapOf(members)[MANIFEST_NAME := ManifestJson(manifest)], None), manifest.files)
  {
    hide Sort, Listed, WeakOrder, MapOf, Digests, ManifestHolds;
    var manifest := ManifestOf(tools, members, attachments, missing);
    MapOfKeys(members);
    SortedNamesAreTheMembers(tools.locale, members);
    AFullListHolds(tools, MapOf(members), Sort(tools.locale, NamesOf(members)), ManifestJson(manifest));
  }

  /** The archive is accepted, and holds the members and the manifest that was written. */
  predicate IsReadBack(tools: Tools, members: seq<Member>, attachments: Attachments, missing: seq<string>,
                       limits: Limits)
  {
    var entries := Packed(tools, members, attachments, missing);
    var manifest := ManifestOf(tools, members, attachments, missing);
    && Acceptable(tools, entries, limits)
    && Inflated(tools, entries) == Some(Opened(MapOf(members)[MANIFEST_NAME := ManifestJson(manifest)], None))
  }

  lemma PackedMembersAreReadBack(tools: Tools, members: seq<Member>, attachments: Attachments, missing: seq<string>,
                                 limits: Limits)
    requires WeakOrder(tools.locale) && attachments != Unsaid
    requires MANIFEST_NAME !in NamesOf(members) && PROTOTYPE !in NamesOf(members)
    requires WithinBounds(Packed(tools, members, attachments, missing), limits)
    ensures IsReadBack(tools, members, attachments, missing, limits)
  {
    hide Listed, WeakOrder, Sort, ManifestHolds, WithManifest, Inflated, Digests, WithinBounds;
    var manifest := ManifestOf(tools, members, attachments, missing);
    var all := WithManifest(members, ManifestJson(manifest));
    TheManifestGoesLast(members, ManifestJson(manifest));
    assert NamesOf(all) == NamesOf(members) + [MANIFEST_NAME];
    EntriesInflateToTheirMembers(tools, all);
    assert all[..|members|] == members;
    ThePackedManifestHolds(tools, members, attachments, missing);
  }

  lemma PackedMembersAreWithinBounds(tools: Tools, members: seq<Member>, attachments: Attachments, missing: seq<string>,
                                     limits: Limits)
    requires MANIFEST_NAME !in NamesOf(members) && forall i :: 0 <= i < |members| ==> IsSafe(members[i].name)
    requires FitsIn(Packed(tools, members, attachments, missing), limits)
    ensures WithinBounds(Packed(tools, members, attachments, missing), limits)
  {
    hide TotalSize, IsSafe, ManifestOf, WithManifest;
    var manifest := ManifestJson(ManifestOf(tools, members, attachments, missing));
    TheManifestGoesLast(members, manifest);
    TheManifestsNameIsSafe();
  }

  /**
   * What is packed is read back: for members with safe names and none of the
   * manifest's own name, within the limits with their manifest, the archive is
   * accepted and holds the members and the manifest that was written, exactly
   * when no member is named `__proto__`.
   */
  lemma UnpackInvertsPack(tools: Tools, members: seq<Member>, attachments: Attachments, missing: seq<string>,
                          limits: Limits)
    requires WeakOrder(tools.locale) && attachments != Unsaid
    requires MANIFEST_NAME !in NamesOf(members)
    requires forall i :: 0 <= i < |members| ==> IsSafe(members[i].name)
    requires FitsIn(Packed(tools, members, attachments, missing), limits)
    ensures IsReadBack(tools, members, attachments, missing, limits) <==> PROTOTYPE !in NamesOf(members)
  {
    hide Acceptable, WeakOrder, TotalSize, IsSafe, Inflated, Packed, WithinBounds, MapOf, NamesCarried, NamesKept,
         ManifestOf, AllTaken;
    PackedMembersAreWithinBounds(tools, members, attachments, missing, limits);
    if PROTOTYPE !in NamesOf(members) {
      PackedMembersAreReadBack(tools, members, attachments, missing, limits);
    } else {
      MapOfKeys(members);
      assert PROTOTYPE in MapOf(members);
      var entries := Packed(tools, members, attachments, missing);
      WhatIsOpened(tools, entries);
      if AllTaken(tools, entries) { WhatIsKeptWasCarried(tools, entries); }
    }
  }

  lemma TheManifestsNameIsSafe()
    ensures IsSafe(MANIFEST_NAME)
  {
    AWordIsSafe(MANIFEST_NAME);
  }

  lemma {:induction false} NoSlashNoCut(name: string)
    requires '/' !in name
    ensures Split(name) == [name]
    decreases |name|
  {
    if name != "" {
      NoSlashNoCut(name[1..]);
      assert name == [name[0]] + name[1..];
    }
  }
}
