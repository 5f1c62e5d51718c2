/**
 * A case exported from one install and read into another: every artefact the
 * rows name is carried, named as lost, or counted as missing.
 */
module CaseHandover {
  import opened Wrappers
  import opened ArchiveNames
  import opened ArchiveFormat
  import opened CaseRecord
  import opened CaseExport
  import CaseImport
  import ImportedCase

  predicate IsEvidence(name: string) { EVIDENCE_PREFIX <= name }

  /** The digests an import holds once each carried artefact is stored. */
  function Held(tools: Tools, members: map<string, Bytes>): set<Digest> {
    set name | name in members && IsEvidence(name) :: tools.sha256(members[name])
  }

  lemma HeldAreTheDigests(tools: Tools, members: map<string, Bytes>, d: Digest)
    ensures d in Held(tools, members) <==>
              exists name :: name in members && "evidence/" <= name && tools.sha256(members[name]) == d
  {}

  /** The import's first loop: each carried artefact stored under its digest, and the digests now held. */
  method StoreArtefacts(tools: Tools, members: map<string, Bytes>) returns (held: set<Digest>, stored: Store)
    ensures forall d :: d in held <==>
              exists name :: name in members && "evidence/" <= name && tools.sha256(members[name]) == d
    ensures held == stored.Keys == Held(tools, members)
    ensures ContentAddressed(tools, stored)
  {
    hide IsEvidence;
    held, stored := {}, map[];
    var left := members.Keys;
    while left != {}
      invariant left <= members.Keys
      invariant held == stored.Keys
      invariant held == set name | name in members && name !in left && IsEvidence(name) :: tools.sha256(members[name])
      invariant ContentAddressed(tools, stored)
      decreases left
    {
      var name :| name in left;
      left := left - {name};
      if !IsEvidence(name) { continue; }
      var digest := tools.sha256(members[name]);
      stored := stored[digest := members[name]];
      held := held + {digest};
    }
    forall d ensures d in held <==>
        exists name :: name in members && "evidence/" <= name && tools.sha256(members[name]) == d {
      HeldAreTheDigests(tools, members, d);
    }
  }

  /** The store keeps each artefact under its own digest. */
  ghost predicate ContentAddressed(tools: Tools, store: Store) {
    forall h :: h in store ==> tools.sha256(store[h]) == h
  }

  /** What an export asks the store for. */
  function Asked(evidence: seq<Row>, figures: seq<Digest>, includeFiles: bool): set<Digest> {
    if includeFiles then Recorded(evidence) + FigureHashes(figures) else {}
  }

  lemma WhatIsAsked(evidence: seq<Row>, figures: seq<Digest>, includeFiles: bool, d: Digest)
    ensures d in Asked(evidence, figures, includeFiles) <==>
              includeFiles && (d in figures || exists i :: 0 <= i < |evidence| && Records(evidence[i], d))
  {
    hide Records, Recorded;
    RecordedAreRecords(evidence, d);
  }

  function Lines(evidence: seq<Row>, includeFiles: bool, store: Store): seq<string> {
    if includeFiles then CalledAll(Lost(evidence, store)) else []
  }

  // --- What arrives ---------------------------------------------------------

  lemma ArtefactNamesAreEvidence(h: Digest)
    ensures IsEvidence(MemberName(h)) && MemberName(h) != MANIFEST_NAME && MemberName(h) != PROTOTYPE
  {
    assert MemberName(h)[0] == 'e' && MANIFEST_NAME[0] == 'm' && PROTOTYPE[0] == '_';
  }

  lemma RecordMembersAreApart(name: string)
    requires IsRecordMember(name)
    ensures !IsEvidence(name) && name != MANIFEST_NAME && name != PROTOTYPE
  {
    assert name[0] == (if name == CASE_NAME then CASE_NAME else PROSE_PREFIX)[0];
    assert EVIDENCE_PREFIX[0] == 'e' && MANIFEST_NAME[0] == 'm' && PROTOTYPE[0] == '_';
  }

  /** What arrived holds the members' evidence as they had it. */
  ghost predicate SameEvidence(arrived: map<string, Bytes>, members: seq<Member>) {
    forall name :: IsEvidence(name) ==>
      (name in arrived <==> name in MapOf(members)) && (name in arrived ==> arrived[name] == MapOf(members)[name])
  }

  lemma AnArtefactIsHeld(tools: Tools, others: seq<Member>, artefacts: seq<Member>, hashes: set<Digest>, store: Store,
                         arrived: map<string, Bytes>, h: Digest)
    requires ContentAddressed(tools, store) && Artefacts(artefacts, hashes, store)
    requires DistinctNames(others + artefacts) && SameEvidence(arrived, others + artefacts)
    requires h in hashes && h in store
    ensures h in Held(tools, arrived)
  {
    hide MapOf, IsEvidence, MemberName, DistinctNames;
    var members := others + artefacts;
    var i :| 0 <= i < |artefacts| && artefacts[i] == Carried(h, store[h]);
    assert members[|others| + i] == artefacts[i];
    MapOfHolds(members, |others| + i);
    ArtefactNamesAreEvidence(h);
    assert arrived[MemberName(h)] == store[h];
  }

  lemma AHeldDigestIsAnArtefact(tools: Tools, others: seq<Member>, artefacts: seq<Member>, hashes: set<Digest>,
                                store: Store, arrived: map<string, Bytes>, name: string)
    requires ContentAddressed(tools, store) && Artefacts(artefacts, hashes, store)
    requires forall i :: 0 <= i < |others| ==> !IsEvidence(others[i].name)
    requires DistinctNames(others + artefacts) && SameEvidence(arrived, others + artefacts)
    requires name in arrived && IsEvidence(name)
    ensures tools.sha256(arrived[name]) in hashes * store.Keys
  {
    hide MapOf, IsEvidence, MemberName, DistinctNames, Artefacts;
    var members := others + artefacts;
    MapOfKeys(members);
    assert name in NamesOf(members);
    var i :| 0 <= i < |members| && members[i].name == name;
    MapOfHolds(members, i);
    if i < |others| {
      assert false;
    } else {
      EachIsAnArtefact(artefacts, hashes, store, i - |others|);
    }
  }

  lemma EachIsAnArtefact(artefacts: seq<Member>, hashes: set<Digest>, store: Store, i: nat)
    requires Artefacts(artefacts, hashes, store) && i < |artefacts|
    ensures IsArtefact(artefacts[i], hashes, store)
  {}

  lemma HeldAreTheArtefacts(tools: Tools, others: seq<Member>, artefacts: seq<Member>, hashes: set<Digest>,
                            store: Store, arrived: map<string, Bytes>)
    requires ContentAddressed(tools, store) && Artefacts(artefacts, hashes, store)
    requires forall i :: 0 <= i < |others| ==> !IsEvidence(others[i].name)
    requires DistinctNames(others + artefacts) && SameEvidence(arrived, others + artefacts)
    ensures Held(tools, arrived) == hashes * store.Keys
  {
    hide SameEvidence, IsEvidence, Artefacts, ContentAddressed, DistinctNames;
    forall h | h in hashes * store.Keys ensures h in Held(tools, arrived) {
      AnArtefactIsHeld(tools, others, artefacts, hashes, store, arrived, h);
    }
    forall name | name in arrived && IsEvidence(name) ensures tools.sha256(arrived[name]) in hashes * store.Keys {
      AHeldDigestIsAnArtefact(tools, others, artefacts, hashes, store, arrived, name);
    }
  }

  lemma TheMembersAreDistinct(others: seq<Member>, artefacts: seq<Member>, hashes: set<Digest>, store: Store)
    requires DistinctNames(others) && Artefacts(artefacts, hashes, store)
    requires forall i :: 0 <= i < |others| ==> !IsEvidence(others[i].name)
    ensures DistinctNames(others + artefacts)
  {
    hide IsEvidence, MemberName;
    forall j | 0 <= j < |artefacts| ensures IsEvidence(artefacts[j].name) {
      assert IsArtefact(artefacts[j], hashes, store);
      var h :| h in hashes && h in store && artefacts[j] == Carried(h, store[h]);
      ArtefactNamesAreEvidence(h);
    }
  }

  lemma SortKeepsNames(locale: Compare, names: seq<string>)
    requires WeakOrder(locale)
    ensures multiset(Sort(locale, names)) == multiset(names)
  {
    SortSorts(locale, names);
  }

  lemma SortKeepsCount(locale: Compare, names: seq<string>)
    requires WeakOrder(locale)
    ensures |Sort(locale, names)| == |names|
  {
    hide Sort, WeakOrder, ArchiveNames.InOrder;
    SortSorts(locale, names);
    assert |multiset(Sort(locale, names))| == |Sort(locale, names)| && |multiset(names)| == |names|;
  }

  // --- What is counted missing ------------------------------------------------

  /** The evidence rows naming a digest that is not held. */
  function Unheld(evidence: seq<Row>, held: set<Digest>): set<nat> {
    set i: nat | i < |evidence| && HashOf(evidence[i]) != "" && HashOf(evidence[i]) !in held
  }

  /** They are counted on the digest the row itself states. */
  lemma WhatIsUnheld(evidence: seq<Row>, held: set<Digest>, i: nat)
    ensures i in Unheld(evidence, held) <==>
              && i < |evidence| && "hash" in evidence[i].fields && evidence[i].fields["hash"].Text?
              && evidence[i].fields["hash"].text != "" && evidence[i].fields["hash"].text !in held
  {}

  lemma UnheldOneMore(evidence: seq<Row>, held: set<Digest>)
    requires evidence != []
    ensures var last, earlier := HashOf(evidence[|evidence| - 1]), evidence[..|evidence| - 1];
            |Unheld(evidence, held)| == |Unheld(earlier, held)| + (if last != "" && last !in held then 1 else 0)
  {
    hide HashOf;
    var n: nat := |evidence| - 1;
    var last, earlier := HashOf(evidence[n]), evidence[..n];
    assert Unheld(evidence, held) == Unheld(earlier, held) + (if last != "" && last !in held then {n} else {});
  }

  const EVIDENCE_AT := 6

  /** One more table adds its evidence rows that are not held, and nothing where it is not the evidence. */
  lemma {:induction false} MissingInOneMoreTable(
      before: seq<CaseImport.Tabled>, n: nat, rows: seq<Row>, held: set<Digest>)
    requires n < |TABLES|
    ensures |ImportedCase.MissingAmong(before + CaseImport.Tag(n, rows), held)|
         == |ImportedCase.MissingAmong(before, held)| + (if n == EVIDENCE_AT then |Unheld(rows, held)| else 0)
    decreases rows
  {
    hide HashOf, ImportedCase.MissingAmong, Unheld;
    var all := before + CaseImport.Tag(n, rows);
    if rows == [] {
      assert all == before;
      NothingUnheld(rows, held);
    } else {
      var last := |rows| - 1;
      MissingInOneMoreTable(before, n, rows[..last], held);
      assert all[..|all| - 1] == before + CaseImport.Tag(n, rows[..last]);
      assert all[|all| - 1] == CaseImport.Tabled(n, rows[last]);
      ImportedCase.MissingOneMore(all, held);
      UnheldOneMore(rows, held);
    }
  }

  lemma NothingUnheld(rows: seq<Row>, held: set<Digest>)
    requires rows == []
    ensures |Unheld(rows, held)| == 0
  {
    assert Unheld(rows, held) == {};
  }

  /** The rows an import counts as missing their file are the evidence rows naming a digest it does not hold. */
  lemma {:induction false} MissingAreTheUnheldEvidence(record: Record, n: nat, held: set<Digest>)
    requires n <= |TABLES|
    ensures |ImportedCase.MissingAmong(CaseImport.RowsOfTables(record, n), held)|
         == if n > EVIDENCE_AT then |Unheld(RowsOf(record, "evidence"), held)| else 0
    decreases n
  {
    hide RowsOf, ImportedCase.MissingAmong, Unheld;
    if n == 0 {
      ImportedCase.NoneMissing(CaseImport.RowsOfTables(record, n), held);
    } else {
      MissingAreTheUnheldEvidence(record, n - 1, held);
      MissingInOneMoreTable(CaseImport.RowsOfTables(record, n - 1), n - 1, RowsOf(record, TABLES[n - 1]), held);
    }
  }

  /** Rows naming the same digests are unheld alike. */
  predicate NameTheSame(evidence: seq<Row>, evidence': seq<Row>) {
    |evidence| == |evidence'| && forall i :: 0 <= i < |evidence| ==> HashOf(evidence[i]) == HashOf(evidence'[i])
  }

  /** The digests the rows name that are not held. */
  function UnheldDigests(evidence: seq<Row>, held: set<Digest>): set<Digest> {
    HashesOf(evidence) - held - {""}
  }

  /** No digest that is not held is named by two rows. */
  ghost predicate NamedByOneRow(evidence: seq<Row>, held: set<Digest>) {
    forall i, j :: 0 <= i < j < |evidence| && HashOf(evidence[i]) == HashOf(evidence[j]) ==>
      HashOf(evidence[i]) !in UnheldDigests(evidence, held)
  }

  lemma NamedOneMore(evidence: seq<Row>, held: set<Digest>)
    requires evidence != []
    ensures var last, earlier := HashOf(evidence[|evidence| - 1]), evidence[..|evidence| - 1];
            && UnheldDigests(evidence, held)
                 == UnheldDigests(earlier, held) + (if last != "" && last !in held then {last} else {})
            && (NamedByOneRow(evidence, held) <==>
                  NamedByOneRow(earlier, held) && last !in UnheldDigests(earlier, held))
  {
    hide HashOf;
    var n := |evidence| - 1;
    var last, earlier := HashOf(evidence[n]), evidence[..n];
    assert evidence == earlier + [evidence[n]];
    ANewLossIsNew(earlier, evidence[n]);
    if last in UnheldDigests(earlier, held) {
      var i :| 0 <= i < n && HashOf(earlier[i]) == last;
      assert HashOf(evidence[i]) == HashOf(evidence[n]);
    }
    forall i, j | 0 <= i < j < n && HashOf(evidence[i]) == HashOf(evidence[j])
      ensures HashOf(evidence[i]) in UnheldDigests(evidence, held)
         <==> HashOf(evidence[i]) in UnheldDigests(earlier, held)
    {
      assert earlier[i] == evidence[i];
    }
    forall i | 0 <= i < n && HashOf(evidence[i]) == last && last in UnheldDigests(evidence, held)
      ensures last in UnheldDigests(earlier, held)
    {
      assert earlier[i] in earlier;
    }
  }

  /**
   * Each digest not held is at least one row not held, and rows and digests
   * are as many exactly when no such digest is named by two rows.
   */
  lemma {:induction false} EachUnheldDigestIsARow(evidence: seq<Row>, held: set<Digest>)
    ensures |UnheldDigests(evidence, held)| <= |Unheld(evidence, held)|
    ensures |UnheldDigests(evidence, held)| == |Unheld(evidence, held)| <==> NamedByOneRow(evidence, held)
    decreases evidence
  {
    if evidence == [] {
      assert UnheldDigests(evidence, held) == {};
      NothingUnheld(evidence, held);
    } else {
      hide HashOf, Unheld, UnheldDigests, NamedByOneRow;
      EachUnheldDigestIsARow(evidence[..|evidence| - 1], held);
      NamedOneMore(evidence, held);
      UnheldOneMore(evidence, held);
    }
  }

  lemma TheLostAreUnheld(evidence: seq<Row>, figures: seq<Digest>, store: Store)
    ensures |Recorded(evidence) - store.Keys| <= |UnheldDigests(evidence, Asked(evidence, figures, true) * store.Keys)|
  {
    hide HashOf, SaysStored;
    SmallerSet(Recorded(evidence) - store.Keys, UnheldDigests(evidence, Asked(evidence, figures, true) * store.Keys));
  }

  // --- From one install to another --------------------------------------------

  /** The case as the exporting install packs it. */
  function Exported(tools: Tools, store: Store, evidence: seq<Row>, includeFiles: bool,
                    others: seq<Member>, artefacts: seq<Member>): seq<Entry>
  {
    Packed(tools, others + artefacts, if includeFiles then Included else Omitted, Lines(evidence, includeFiles, store))
  }

  /** What reading the archive's manifest answers as lost when it was exported. */
  function LostAtExport(members: map<string, Bytes>): nat {
    if MANIFEST_NAME in members && members[MANIFEST_NAME].ManifestJson?
       && members[MANIFEST_NAME].manifest.missing.Names?
    then |members[MANIFEST_NAME].manifest.missing.names| else 0
  }

  /** The manifest says whether the files travel, and names these as missing. */
  ghost predicate States(members: map<string, Bytes>, includeFiles: bool, missing: seq<string>) {
    && "manifest.json" in members && members["manifest.json"].ManifestJson?
    && var m := members["manifest.json"].manifest;
       && m.attachments == (if includeFiles then Included else Omitted)
       && m.missing.Names? && multiset(m.missing.names) == multiset(missing)
  }

  /** An export is accepted exactly where it fits, and the digests then held are those asked for and stored. */
  lemma WhatIsExportedArrives(tools: Tools, store: Store, evidence: seq<Row>, figures: seq<Digest>, includeFiles: bool,
                              others: seq<Member>, artefacts: seq<Member>, limits: Limits)
    requires WeakOrder(tools.locale) && ContentAddressed(tools, store)
    requires Artefacts(artefacts, Asked(evidence, figures, includeFiles), store)
    requires DistinctNames(others)
    requires forall i :: 0 <= i < |others| ==> IsRecordMember(others[i].name)
    requires forall i :: 0 <= i < |others + artefacts| ==> IsSafe((others + artefacts)[i].name)
    ensures var entries := Exported(tools, store, evidence, includeFiles, others, artefacts);
            && (Acceptable(tools, entries, limits) <==> FitsIn(entries, limits))
            && (FitsIn(entries, limits) ==>
                  var arrived := Inflated(tools, entries).value.own;
                  && Held(tools, arrived) == Asked(evidence, figures, includeFiles) * store.Keys
                  && (forall d :: d in Held(tools, arrived) <==>
                        includeFiles && d in store
                        && (d in figures || exists i :: 0 <= i < |evidence| && Records(evidence[i], d)))
                  && LostAtExport(arrived) == (if includeFiles then |Recorded(evidence) - store.Keys| else 0)
                  && States(arrived, includeFiles, if includeFiles then CalledAll(Lost(evidence, store)) else []))
  {
    hide Acceptable, FitsIn, Inflated, Artefacts, Asked, WeakOrder, ContentAddressed, IsSafe, IsEvidence,
         IsRecordMember, Packed, DistinctNames, MapOf, Sort, Listed, Lost, CalledAll, Recorded, Held, Records;
    var members, lines := others + artefacts, Lines(evidence, includeFiles, store);
    var attachments := if includeFiles then Included else Omitted;
    var entries := Exported(tools, store, evidence, includeFiles, others, artefacts);
    EveryMemberIsKept(others, artefacts, Asked(evidence, figures, includeFiles), store);
    AcceptedIsWithinBounds(tools, entries, limits);
    if FitsIn(entries, limits) {
      UnpackInvertsPack(tools, members, attachments, lines, limits);
      TheMembersAreDistinct(others, artefacts, Asked(evidence, figures, includeFiles), store);
      TheManifestIsNoEvidence();
      HeldAreTheArtefacts(tools, others, artefacts, Asked(evidence, figures, includeFiles), store,
                          Inflated(tools, entries).value.own);
      SortKeepsCount(tools.locale, lines);
      SortKeepsNames(tools.locale, lines);
      EachLossIsNamedOnce(evidence, store);
      forall d ensures d in Asked(evidence, figures, includeFiles) <==>
          includeFiles && (d in figures || exists i :: 0 <= i < |evidence| && Records(evidence[i], d)) {
        WhatIsAsked(evidence, figures, includeFiles, d);
      }
    }
  }

  lemma AcceptedIsWithinBounds(tools: Tools, entries: seq<Entry>, limits: Limits)
    ensures Acceptable(tools, entries, limits) ==> FitsIn(entries, limits)
  {
    hide FitsIn, Inflated, ManifestHolds, IsSafe;
  }

  lemma TheManifestIsNoEvidence()
    ensures !IsEvidence(MANIFEST_NAME)
  {
    assert MANIFEST_NAME[0] == 'm' && EVIDENCE_PREFIX[0] == 'e';
  }

  /** No member of an export has the manifest's name, or the one that makes no key. */
  lemma EveryMemberIsKept(others: seq<Member>, artefacts: seq<Member>, hashes: set<Digest>, store: Store)
    requires Artefacts(artefacts, hashes, store)
    requires forall i :: 0 <= i < |others| ==> IsRecordMember(others[i].name)
    ensures MANIFEST_NAME !in NamesOf(others + artefacts) && PROTOTYPE !in NamesOf(others + artefacts)
    ensures forall i :: 0 <= i < |others| ==> !IsEvidence(others[i].name)
  {
    hide IsEvidence, MemberName, IsRecordMember;
    forall i | 0 <= i < |others|
      ensures !IsEvidence(others[i].name) && others[i].name != MANIFEST_NAME && others[i].name != PROTOTYPE
    {
      RecordMembersAreApart(others[i].name);
    }
    forall j | 0 <= j < |artefacts| ensures artefacts[j].name != MANIFEST_NAME && artefacts[j].name != PROTOTYPE {
      assert IsArtefact(artefacts[j], hashes, store);
      var h :| h in hashes && h in store && artefacts[j] == Carried(h, store[h]);
      ArtefactNamesAreEvidence(h);
    }
  }

  /**
   * Export then import accounts for every artefact. The import counts missing
   * exactly the evidence rows naming a digest that was not asked for or not in
   * the store, which is as many as there are such digests exactly when no two
   * rows name one; and what was lost at export is never more.
   */
  lemma AHandoverAccountsForEveryArtefact(
    tools: Tools, store: Store, evidence: seq<Row>, figures: seq<Digest>, includeFiles: bool,
    others: seq<Member>, artefacts: seq<Member>, limits: Limits,
    shape: CaseImport.Shape, mint: CaseImport.Mint, record: Record, ceiling: nat)
    requires WeakOrder(tools.locale) && ContentAddressed(tools, store)
    requires Artefacts(artefacts, Asked(evidence, figures, includeFiles), store)
    requires DistinctNames(others)
    requires forall i :: 0 <= i < |others| ==> IsRecordMember(others[i].name)
    requires forall i :: 0 <= i < |others + artefacts| ==> IsSafe((others + artefacts)[i].name)
    requires CaseImport.Fresh(mint)
    ensures var entries := Exported(tools, store, evidence, includeFiles, others, artefacts);
            Acceptable(tools, entries, limits) ==>
              var arrived := Inflated(tools, entries).value.own;
              var r := CaseImport.ImportOf(shape, mint, Held(tools, arrived), record, ceiling);
              var lostAtExport, held := LostAtExport(arrived), Asked(evidence, figures, includeFiles) * store.Keys;
              && lostAtExport == (if includeFiles then |Recorded(evidence) - store.Keys| else 0)
              && (r.Imported? && NameTheSame(evidence, RowsOf(record, "evidence")) ==>
                    && r.missingFiles == |Unheld(evidence, held)|
                    && lostAtExport <= |UnheldDigests(evidence, held)| <= r.missingFiles
                    && (r.missingFiles == |UnheldDigests(evidence, held)| <==> NamedByOneRow(evidence, held)))
  {
    hide Acceptable, FitsIn, Inflated, Artefacts, WeakOrder, ContentAddressed, IsSafe, IsEvidence, Packed,
         DistinctNames, IsRecordMember, Lines, Held, Exported, LostAtExport, CaseImport.ImportOf,
         ImportedCase.MissingAmong, CaseImport.RowsOfTables, RowsOf, HashOf, SaysStored, NamedByOneRow, UnheldDigests;
    WhatIsExportedArrives(tools, store, evidence, figures, includeFiles, others, artefacts, limits);
    var held := Asked(evidence, figures, includeFiles) * store.Keys;
    var imported := CaseImport.ImportOf(shape, mint, held, record, ceiling).Imported?;
    if imported && NameTheSame(evidence, RowsOf(record, "evidence")) {
      ImportedCase.AnImportAccountsForTheRecord(shape, mint, held, record, ceiling);
      MissingAreTheUnheldEvidence(record, |TABLES|, held);
      assert Unheld(evidence, held) == Unheld(RowsOf(record, "evidence"), held);
      EachUnheldDigestIsARow(evidence, held);
      if includeFiles { TheLostAreUnheld(evidence, figures, store); }
    }
  }
}
