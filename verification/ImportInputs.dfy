/** Records at which an import's answer is not what its description says of it. */
module ImportInputs {
  import opened Wrappers
  import opened CaseRecord
  import opened CaseImport
  import opened ImportedReferences
  import opened ImportedCase
  import CaseHandover

  /** An install that takes every row as it is stated; systems name methods, and evidence a digest. */
  const TAKING := Shape(
    (collection: string, row: Row) => Some(row.fields),
    (collection: string) => {"methodId", "hash"},
    {"methodId"},
    (collection: string, fields: map<string, Value>) => true,
    (life: Lifecycle) => true)

  lemma {:induction false} EveryRowIsTaken(mint: Mint, held: set<string>, rows: seq<Tabled>)
    requires forall k :: 0 <= k < |rows| ==> rows[k].at < |TABLES|
    ensures LoadRows(TAKING, mint, held, rows).Some?
    decreases rows
  {
    hide FieldsOf, Settled, NamedBy, MissesItsFile, LifecycleOf;
    if rows != [] { EveryRowIsTaken(mint, held, rows[..|rows| - 1]); }
  }

  /** Within the ceiling, every record is imported. */
  lemma EveryRecordIsTaken(mint: Mint, held: set<string>, record: Record, ceiling: nat)
    requires |InOrder(record)| <= ceiling
    ensures LoadRows(TAKING, mint, held, InOrder(record)).Some?
    ensures ImportOf(TAKING, mint, held, record, ceiling).Imported?
  {
    hide LoadRows, RowsOfTables, RowsInFirst;
    TablesAreWrittenInOrder(record, |TABLES|);
    EveryRowIsTaken(mint, held, InOrder(record));
  }

  lemma {:induction false} TablesWithoutRows(record: Record, n: nat, m: nat)
    requires n <= m <= |TABLES| && forall k :: n <= k < m ==> TABLES[k] !in record
    ensures RowsOfTables(record, m) == RowsOfTables(record, n)
    decreases m
  {
    if n < m {
      TablesWithoutRows(record, n, m - 1);
      assert Tag(m - 1, RowsOf(record, TABLES[m - 1])) == [];
    }
  }

  const SYSTEMS_AT := 1
  const EVIDENCE_AT := CaseHandover.EVIDENCE_AT

  lemma TheTablesByInitial(k: nat)
    requires k < |TABLES|
    ensures TABLES[k] == "systems" <==> k == SYSTEMS_AT
    ensures TABLES[k] == "evidence" <==> k == EVIDENCE_AT
  {
    assert TABLES[k][0] == 's' <==> k == SYSTEMS_AT;
    assert TABLES[k][0] == 'e' <==> k == EVIDENCE_AT;
  }

  /** A record of systems and evidence is written in that order. */
  lemma SystemsThenEvidence(record: Record)
    requires record.Keys <= {"systems", "evidence"}
    ensures InOrder(record) == Tag(SYSTEMS_AT, RowsOf(record, "systems")) + Tag(EVIDENCE_AT, RowsOf(record, "evidence"))
  {
    hide RowsOf, Tag;
    forall k: nat | k < |TABLES| && k != SYSTEMS_AT && k != EVIDENCE_AT ensures TABLES[k] !in record {
      TheTablesByInitial(k);
    }
    TablesWithoutRows(record, 0, SYSTEMS_AT);
    TablesWithoutRows(record, SYSTEMS_AT + 1, EVIDENCE_AT);
    TablesWithoutRows(record, EVIDENCE_AT + 1, |TABLES|);
    assert RowsOfTables(record, 0) == [];
    assert [] + Tag(SYSTEMS_AT, RowsOf(record, "systems")) == Tag(SYSTEMS_AT, RowsOf(record, "systems"));
  }

  // --- Rows and digests -------------------------------------------------------

  function Naming(hash: string): Row { Row(None, map["hash" := Text(hash)]) }

  /** Two evidence rows naming one digest the archive did not carry: `missingFiles` is two, and the digest one. */
  lemma TwoRowsOfOneDigestCountTwice(mint: Mint, hash: string, ceiling: nat)
    requires hash != "" && ceiling >= 2
    ensures var evidence := [Naming(hash), Naming(hash)];
            var r := ImportOf(TAKING, mint, {}, map["evidence" := evidence], ceiling);
            r.Imported? && r.missingFiles == 2 && CaseHandover.UnheldDigests(evidence, {}) == {hash}
  {
    hide LoadRows, RowsOfTables, RowsInFirst, InOrder;
    var evidence := [Naming(hash), Naming(hash)];
    var record: Record := map["evidence" := evidence];
    SystemsThenEvidence(record);
    EveryRecordIsTaken(mint, {}, record, ceiling);
    MissingFilesAreCounted(TAKING, mint, {}, InOrder(record));
    assert MissingAmong(InOrder(record), {}) == {0, 1};
    assert CaseHandover.UnheldDigests(evidence, {}) == {hash};
  }

  // --- Unresolved and absent --------------------------------------------------

  function SystemNaming(id: string, named: string): Row { Row(Some(id), map["methodId" := Text(named)]) }

  function EvidenceOf(id: string): Row { Row(Some(id), map[]) }

  /** A system naming, as its method, a row of evidence after it. */
  predicate SystemAndEvidence(rows: seq<Tabled>, system: string, evidence: string) {
    rows == [Tabled(SYSTEMS_AT, SystemNaming(system, evidence)), Tabled(EVIDENCE_AT, EvidenceOf(evidence))]
  }

  lemma TheMethodIsCarried(system: Row, evidence: Row)
    requires system.fields.Keys == {"methodId"} && evidence.fields == map[]
    ensures Carried(TAKING, "systems", system.fields) == {"methodId"}
    ensures Carried(TAKING, "evidence", evidence.fields) == {}
  {
    assert forall f :: f in NEVER_CARRIED ==> |f| != |"methodId"|;
  }

  lemma WhatTheTwoRowsName(rows: seq<Tabled>, system: string, evidence: string)
    requires SystemAndEvidence(rows, system, evidence)
    ensures Names(TAKING, rows[0]) == {evidence} && Names(TAKING, rows[1]) == {}
    ensures ReadUnder(TAKING, rows[0], map[]) == map["methodId" := Null]
    ensures Settled(rows[0], ReadUnder(TAKING, rows[0], map[]), {}) == map["methodId" := Null]
  {
    hide Carried;
    var fields := SystemNaming(system, evidence).fields;
    TheMethodIsCarried(rows[0].row, rows[1].row);
    assert Judged(TAKING, rows[0]) == Some(fields) && Judged(TAKING, rows[1]) == Some(map[]);
    assert NamesIn(fields["methodId"]) == {evidence};
    assert forall id :: id in NamedBy(TAKING, "systems", fields) <==> id in NamesIn(fields["methodId"]);
  }

  lemma TheTwoRowsAreRenamed(mint: Mint, rows: seq<Tabled>, system: string, evidence: string)
    requires SystemAndEvidence(rows, system, evidence)
    ensures Renaming(mint, rows[..0]) == map[] && Renaming(mint, rows).Keys == {system, evidence}
  {
    assert rows[..1][..0] == [] && Renaming(mint, rows[..1]) == map[system := mint(0)];
  }

  /** Of two rows, the first naming the second: one id is unresolved. */
  lemma OneIsUnresolved(mint: Mint, rows: seq<Tabled>, system: string, evidence: string)
    requires SystemAndEvidence(rows, system, evidence) && system != evidence
    requires LoadRows(TAKING, mint, {}, rows).Some?
    ensures LoadRows(TAKING, mint, {}, rows).value.unresolved == {evidence}
    ensures AllNames(TAKING, rows) - Renaming(mint, rows).Keys == {}
  {
    hide LoadRows, Names, Renaming;
    WhatTheTwoRowsName(rows, system, evidence);
    TheTwoRowsAreRenamed(mint, rows, system, evidence);
    AnUnseenNameIsUnresolved(TAKING, mint, {}, rows, 0, evidence);
    forall id | id in LoadRows(TAKING, mint, {}, rows).value.unresolved ensures id == evidence {
      var k := AnUnresolvedNameIsUnseen(TAKING, mint, {}, rows, id);
    }
  }

  /**
   * A system whose `methodId` is the id of a row in a later table, whatever
   * the two ids are: it is written null and counted unresolved, though the
   * archive has the row.
   */
  lemma ALaterRowCountsAsUnresolved(mint: Mint, system: string, evidence: string, ceiling: nat)
    requires system != evidence && ceiling >= 2
    ensures var record: Record :=
              map["systems" := [SystemNaming(system, evidence)], "evidence" := [EvidenceOf(evidence)]];
            var r, rows := ImportOf(TAKING, mint, {}, record, ceiling), InOrder(record);
            && r.Imported? && r.unresolvedReferences == 1
            && |r.written| == 2 && r.written[0] == Written(mint(0), "systems", map["methodId" := Null])
            && DistinctIds(rows) && AllNames(TAKING, rows) - Renaming(mint, rows).Keys == {}
  {
    hide LoadRows, RowsOfTables, RowsInFirst, InOrder, AllNames, Renaming, Settled, ReadUnder, Names;
    var naming, named := SystemNaming(system, evidence), EvidenceOf(evidence);
    var record: Record := map["systems" := [naming], "evidence" := [named]];
    var rows := InOrder(record);
    SystemsThenEvidence(record);
    assert rows == [Tabled(SYSTEMS_AT, naming), Tabled(EVIDENCE_AT, named)];
    EveryRecordIsTaken(mint, {}, record, ceiling);
    OneIsUnresolved(mint, rows, system, evidence);
    TheSystemIsWrittenNull(mint, rows, system, evidence);
  }

  lemma TheSystemIsWrittenNull(mint: Mint, rows: seq<Tabled>, system: string, evidence: string)
    requires SystemAndEvidence(rows, system, evidence) && LoadRows(TAKING, mint, {}, rows).Some?
    ensures var s := LoadRows(TAKING, mint, {}, rows).value;
            && |s.written| == 2
            && Preserved(s.written, s.stamps)[0] == Written(mint(0), "systems", map["methodId" := Null])
  {
    hide LoadRows, Settled, ReadUnder, Renaming;
    LoadedRowsSay(TAKING, mint, {}, rows);
    TheTwoRowsAreRenamed(mint, rows, system, evidence);
    WhatTheTwoRowsName(rows, system, evidence);
    EachRowIsReadAmongEarlier(TAKING, mint, {}, rows, 0);
    NoReportNoLifecycle(mint, rows, system, evidence);
  }

  lemma NoReportNoLifecycle(mint: Mint, rows: seq<Tabled>, system: string, evidence: string)
    requires SystemAndEvidence(rows, system, evidence) && LoadRows(TAKING, mint, {}, rows).Some?
    ensures LoadRows(TAKING, mint, {}, rows).value.stamps == map[]
  {
    hide FieldsOf, Settled, NamedBy, MissesItsFile, LifecycleOf;
    assert rows[..1][..0] == [] && rows[..1][0] == rows[0];
    assert LoadRows(TAKING, mint, {}, rows[..1][..0]) == Some(EMPTY);
    assert LoadRows(TAKING, mint, {}, rows[..1]).value.stamps == map[];
  }
}
