/**
 * What an import writes, row by row and field by field, said of the record and
 * of the rows it left alone.
 */
module ImportedFields {
  import opened Wrappers
  import opened CaseRecord
  import opened CaseImport
  import opened ImportedReferences
  import opened ImportedCase

  // --- The rows ---------------------------------------------------------------

  /** Every row of every table is taken once, table after table, in the record's order. */
  lemma {:induction false} EveryRowHasItsPlace(record: Record, n: nat, m: nat, i: nat)
    requires n < m <= |TABLES| && TABLES[n] in record && i < |record[TABLES[n]]|
    ensures RowsInFirst(record, n) + i < |RowsOfTables(record, m)|
    ensures RowsOfTables(record, m)[RowsInFirst(record, n) + i] == Tabled(n, record[TABLES[n]][i])
    decreases m
  {
    hide RowsOfTables, RowsInFirst, Tag, RowsOf;
    TablesAreWrittenInOrder(record, m - 1);
    OneMoreTable(record, m);
    if n < m - 1 {
      EveryRowHasItsPlace(record, n, m - 1, i);
    } else {
      assert RowsOf(record, TABLES[n]) == record[TABLES[n]] by { TheRowsOf(record, TABLES[n]); }
    }
  }

  lemma OneMoreTable(record: Record, m: nat)
    requires 0 < m <= |TABLES|
    ensures RowsOfTables(record, m) == RowsOfTables(record, m - 1) + Tag(m - 1, RowsOf(record, TABLES[m - 1]))
  {}

  lemma TheRowsOf(record: Record, collection: string)
    ensures collection in record ==> RowsOf(record, collection) == record[collection]
  {}

  lemma {:induction false} NoRowIsMadeUp(record: Record, m: nat, k: nat) returns (n: nat, i: nat)
    requires m <= |TABLES| && k < |RowsOfTables(record, m)|
    ensures n < m && TABLES[n] in record && i < |record[TABLES[n]]| && k == RowsInFirst(record, n) + i
    ensures RowsOfTables(record, m)[k] == Tabled(n, record[TABLES[n]][i])
    decreases m
  {
    TablesAreWrittenInOrder(record, m - 1);
    if k < |RowsOfTables(record, m - 1)| {
      n, i := NoRowIsMadeUp(record, m - 1, k);
    } else {
      n, i := m - 1, k - |RowsOfTables(record, m - 1)|;
    }
  }

  /** The collections whose schemas hold references, each with a collection it points at. */
  const REFERENCES: seq<(string, string)> := [
    ("systems", "methods"), ("accounts", "methods"),
    ("malware", "systems"), ("malware", "accounts"), ("malware", "methods"),
    ("networkIndicators", "systems"), ("networkIndicators", "malware"), ("networkIndicators", "methods"),
    ("cloudApps", "accounts"), ("cloudApps", "methods"),
    ("evidence", "methods"), ("evidence", "systems"), ("evidence", "accounts"),
    ("impact", "systems"), ("impact", "accounts"), ("impact", "evidence"), ("impact", "methods"),
    ("timeline", "systems"), ("timeline", "accounts"), ("timeline", "cloudApps"), ("timeline", "networkIndicators"),
    ("timeline", "malware"), ("timeline", "evidence"), ("timeline", "methods"),
    ("reportBlocks", "reports")]

  function PlaceOf(collection: string): nat {
    match collection
    case "methods" => 0
    case "systems" => 1
    case "accounts" => 2
    case "malware" => 3
    case "networkIndicators" => 4
    case "cloudApps" => 5
    case "evidence" => 6
    case "impact" => 7
    case "timeline" => 8
    case "actions" => 9
    case "casenotes" => 10
    case "reports" => 11
    case "reportBlocks" => 12
    case _ => 13
  }

  lemma EachTableHasItsPlace(n: nat)
    requires n < |TABLES|
    ensures PlaceOf(TABLES[n]) == n
  {}

  /** The order of the tables puts every collection after those its schema points at. */
  lemma TheTablesFollowTheirReferences(n: nat, m: nat, r: nat)
    requires n < |TABLES| && m < |TABLES| && r < |REFERENCES| && REFERENCES[r] == (TABLES[n], TABLES[m])
    ensures m < n
  {
    EachTableHasItsPlace(n);
    EachTableHasItsPlace(m);
    assert PlaceOf(REFERENCES[r].1) < PlaceOf(REFERENCES[r].0);
  }

  /** Where a row names another, its collection's schema points at the other's. */
  ghost predicate NamesAsSchemasDo(shape: Shape, rows: seq<Tabled>) {
    forall j, k :: 0 <= j < |rows| && 0 <= k < |rows|
                   && rows[j].row.id.Some? && rows[j].row.id.value in Names(shape, rows[k]) ==>
      (TableOf(rows[k]), TableOf(rows[j])) in REFERENCES
  }

  /** A record that names rows as the schemas do names only rows already written. */
  lemma SchemasNameEarlierTables(shape: Shape, mint: Mint, record: Record)
    requires NamesAsSchemasDo(shape, InOrder(record))
    ensures NamesOnlyEarlier(shape, mint, InOrder(record))
  {
    hide Names, RowsOfTables, NamesOnlyEarlier;
    var rows := InOrder(record);
    TablesAreWrittenInOrder(record, |TABLES|);
    forall j, k | 0 <= j < |rows| && 0 <= k < |rows|
                  && rows[j].row.id.Some? && rows[j].row.id.value in Names(shape, rows[k])
      ensures rows[j].at < rows[k].at
    {
      var r :| 0 <= r < |REFERENCES| && REFERENCES[r] == (TableOf(rows[k]), TableOf(rows[j]));
      TheTablesFollowTheirReferences(rows[k].at, rows[j].at, r);
    }
    TheTableOrderSuffices(shape, mint, record);
  }

  // --- One row's fields -----------------------------------------------------------

  /** How the row's collection judges it. */
  ghost predicate IsJudged(shape: Shape, t: Tabled, judged: map<string, Value>) {
    t.at < |TABLES| && shape.judge(TABLES[t.at], t.row) == Some(judged)
  }

  /** A judged field the table has and this install does not mint or state for itself. */
  ghost predicate IsTakenOver(shape: Shape, t: Tabled, judged: map<string, Value>, f: string)
    requires t.at < |TABLES|
  {
    && f in judged && f in shape.columns(TABLES[t.at])
    && f !in {"id", "caseId", "version", "createdAt", "updatedAt", "createdBy", "updatedBy",
              "source", "provenance", "unreviewed"}
  }

  /** An evidence row naming a digest that did not travel. */
  ghost predicate LacksItsFile(t: Tabled, held: set<string>) {
    && t.at < |TABLES| && TABLES[t.at] == "evidence"
    && "hash" in t.row.fields && t.row.fields["hash"].Text? && t.row.fields["hash"].text != ""
    && t.row.fields["hash"].text !in held
  }

  lemma LackingIsMissing(t: Tabled, held: set<string>)
    ensures LacksItsFile(t, held) <==> MissesItsFile(t, held)
  {}

  /** The field's date, where it is taken over and is one, or nothing. */
  ghost predicate IsDateOf(shape: Shape, t: Tabled, judged: map<string, Value>, f: string, value: Value)
    requires t.at < |TABLES|
  {
    value == if IsTakenOver(shape, t, judged, f) && judged[f].When? then judged[f] else Null
  }

  /** The fields a row is left with, but for its references. */
  ghost predicate IsLeftWith(shape: Shape, t: Tabled, held: set<string>, judged: map<string, Value>,
                             fields: map<string, Value>)
    requires t.at < |TABLES|
  {
    var report := TABLES[t.at] == "reports";
    && (forall f :: f in fields <==>
          || IsTakenOver(shape, t, judged, f)
          || (LacksItsFile(t, held) && f == "storedAt")
          || (report && f in {"sentAt", "frozen", "frozenAt"}))
    && (forall f :: f in fields && f !in shape.references ==>
          || (LacksItsFile(t, held) && f == "storedAt")
          || (report && f in {"sentAt", "frozen", "frozenAt"})
          || fields[f] == judged[f])
    && (LacksItsFile(t, held) ==> fields["storedAt"] == Null)
    && (report && {"sentAt", "frozen", "frozenAt"} !! shape.references ==>
          && IsDateOf(shape, t, judged, "sentAt", fields["sentAt"])
          && fields["frozen"] == (if IsTakenOver(shape, t, judged, "frozen") then judged["frozen"] else Null)
          && IsDateOf(shape, t, judged, "frozenAt", fields["frozenAt"]))
  }

  /** The fields as they are read: those taken over, each as it was judged unless it is a reference. */
  ghost predicate IsRead(shape: Shape, t: Tabled, judged: map<string, Value>, read: map<string, Value>)
    requires t.at < |TABLES|
  {
    && (forall f :: f in read <==> IsTakenOver(shape, t, judged, f))
    && forall f :: f in read && f !in shape.references ==> read[f] == judged[f]
  }

  lemma FieldsAreRead(shape: Shape, t: Tabled, judged: map<string, Value>, remap: map<string, string>)
    requires t.at < |TABLES|
    ensures IsRead(shape, t, judged, FieldsOf(shape, TABLES[t.at], judged, remap))
  {
    hide RemappedValue;
  }

  lemma AReportIsLeft(shape: Shape, t: Tabled, held: set<string>, judged: map<string, Value>, read: map<string, Value>)
    requires t.at < |TABLES| && TABLES[t.at] == "reports" && IsRead(shape, t, judged, read)
    ensures IsLeftWith(shape, t, held, judged, Left(t, read, held))
  {
    hide IsTakenOver, MissesItsFile;
  }

  lemma AnotherRowIsLeft(shape: Shape, t: Tabled, held: set<string>, judged: map<string, Value>,
                         read: map<string, Value>)
    requires t.at < |TABLES| && TABLES[t.at] != "reports" && IsRead(shape, t, judged, read)
    ensures IsLeftWith(shape, t, held, judged, Left(t, read, held))
  {
    LackingIsMissing(t, held);
    hide IsTakenOver, MissesItsFile, LacksItsFile, WithLifecycle, LifecycleOf;
  }

  lemma WhatIsLeft(shape: Shape, t: Tabled, held: set<string>, judged: map<string, Value>, remap: map<string, string>)
    requires IsJudged(shape, t, judged)
    ensures IsLeftWith(shape, t, held, judged, Left(t, FieldsOf(shape, TABLES[t.at], judged, remap), held))
  {
    hide IsLeftWith, IsRead, Left, FieldsOf;
    var read := FieldsOf(shape, TABLES[t.at], judged, remap);
    FieldsAreRead(shape, t, judged, remap);
    if TABLES[t.at] == "reports" {
      AReportIsLeft(shape, t, held, judged, read);
    } else {
      AnotherRowIsLeft(shape, t, held, judged, read);
    }
  }

  /**
   * Each row is written under its own minted id, in its own collection, with
   * exactly the fields this install takes over, each as it was judged, but for
   * a file that did not travel, which is undated, and a report's lifecycle,
   * which is kept where it is dates and a document.
   */
  lemma WhatARowIsWritten(shape: Shape, mint: Mint, held: set<string>, record: Record, ceiling: nat, k: nat)
    returns (judged: map<string, Value>)
    requires Fresh(mint) && ImportOf(shape, mint, held, record, ceiling).Imported? && k < |InOrder(record)|
    ensures var r, t := ImportOf(shape, mint, held, record, ceiling), InOrder(record)[k];
            && |r.written| == |InOrder(record)| && IsJudged(shape, t, judged)
            && r.written[k].id == mint(k) && r.written[k].collection == TABLES[t.at]
            && IsLeftWith(shape, t, held, judged, r.written[k].fields)
  {
    hide ImportOf, RowsOfTables, IsLeftWith, FieldsOf, Left, Renaming, MissingAmong;
    AnImportAccountsForTheRecord(shape, mint, held, record, ceiling);
    var rows := InOrder(record);
    judged := Judged(shape, rows[k]).value;
    WhatIsLeft(shape, rows[k], held, judged, Renaming(mint, rows[..k]));
  }

  // --- References -----------------------------------------------------------------

  /** `remap` sends the id of each of the first `n` rows to the id that row was written under, and knows no other. */
  ghost predicate IsRenamingOf(remap: map<string, string>, rows: seq<Tabled>, written: seq<Written>, n: nat)
    requires n <= |rows| == |written|
  {
    && (forall id :: id in remap <==> exists j :: 0 <= j < n && rows[j].row.id == Some(id))
    && forall j :: 0 <= j < n && rows[j].row.id.Some? ==>
         rows[j].row.id.value in remap && remap[rows[j].row.id.value] == written[j].id
  }

  /** A reference under `remap`: a known id renamed, an unknown one null, and a list's known ids where they stood. */
  ghost predicate IsRenamed(value: Value, remap: map<string, string>, written: Value) {
    match value
    case Text(id) => written == if id in remap then Text(remap[id]) else Null
    case List(items) =>
      && written.List? && AllNamed(written.items)
      && StandsFor(items, true, remap, IdsOf(written.items))
    case _ => written == value
  }

  lemma RemappingRenames(value: Value, remap: map<string, string>)
    ensures IsRenamed(value, remap, RemappedValue(value, remap))
  {
    if value.List? { MappedItemsSay(value.items, remap); }
    hide StandsFor;
  }

  lemma ThePrefixRenames(mint: Mint, rows: seq<Tabled>, written: seq<Written>, n: nat)
    requires DistinctIds(rows) && n <= |rows| == |written| && forall j :: 0 <= j < n ==> written[j].id == mint(j)
    ensures IsRenamingOf(Renaming(mint, rows[..n]), rows, written, n)
  {
    hide Renaming;
    var first := rows[..n];
    forall id
      ensures id in Renaming(mint, first) <==> exists j :: 0 <= j < n && rows[j].row.id == Some(id)
      ensures id in Renaming(mint, first) ==> MapsTo(mint, first, id, Renaming(mint, first)[id])
    {
      RenamingSays(mint, first, id);
      if j :| 0 <= j < n && rows[j].row.id == Some(id) { assert first[j].row.id == Some(id); }
    }
    forall j | 0 <= j < n && rows[j].row.id.Some?
      ensures rows[j].row.id.value in Renaming(mint, first)
      ensures Renaming(mint, first)[rows[j].row.id.value] == written[j].id
    {
      var id := rows[j].row.id.value;
      assert first[j].row.id == Some(id);
      var i :| 0 <= i < n && first[i].row.id == Some(id) && Renaming(mint, first)[id] == mint(i);
      assert rows[i].row.id == rows[j].row.id;
    }
  }

  lemma AReferenceIsLeftRenamed(shape: Shape, t: Tabled, held: set<string>, judged: map<string, Value>,
                                remap: map<string, string>, f: string)
    requires IsJudged(shape, t, judged) && IsTakenOver(shape, t, judged, f) && f in shape.references
    requires f !in {"storedAt", "sentAt", "frozen", "frozenAt"}
    ensures Judged(shape, t) == Some(judged)
    ensures var left := Left(t, ReadUnder(shape, t, remap), held); f in left && IsRenamed(judged[f], remap, left[f])
  {
    hide IsRenamed, RemappedValue, MissesItsFile;
    RemappingRenames(judged[f], remap);
  }

  lemma ReferencesAreLeftRenamed(shape: Shape, t: Tabled, held: set<string>, judged: map<string, Value>,
                                 remap: map<string, string>)
    requires IsJudged(shape, t, judged)
    ensures var left := Left(t, ReadUnder(shape, t, remap), held);
            forall f :: f in shape.references && f !in {"storedAt", "sentAt", "frozen", "frozenAt"}
                        && IsTakenOver(shape, t, judged, f) ==>
              f in left && IsRenamed(judged[f], remap, left[f])
  {
    hide IsRenamed, Left, ReadUnder;
    forall f | f in shape.references && f !in {"storedAt", "sentAt", "frozen", "frozenAt"}
               && IsTakenOver(shape, t, judged, f)
      ensures var left := Left(t, ReadUnder(shape, t, remap), held); f in left && IsRenamed(judged[f], remap, left[f])
    {
      AReferenceIsLeftRenamed(shape, t, held, judged, remap, f);
    }
  }

  /**
   * Every reference of an imported row is renamed to the rows written before
   * it: a scalar naming row j is the id row j was written under, one naming no
   * row before is null, and a list holds the ids its known items were written
   * under, each where its item stood among them.
   */
  lemma EveryReferenceIsRenamed(shape: Shape, mint: Mint, held: set<string>, record: Record, ceiling: nat, k: nat)
    returns (judged: map<string, Value>, remap: map<string, string>)
    requires Fresh(mint) && ImportOf(shape, mint, held, record, ceiling).Imported?
    requires DistinctIds(InOrder(record)) && k < |InOrder(record)|
    ensures var r, rows := ImportOf(shape, mint, held, record, ceiling), InOrder(record);
            && |r.written| == |rows| && IsJudged(shape, rows[k], judged) && IsRenamingOf(remap, rows, r.written, k)
            && forall f :: f in shape.references && f !in {"storedAt", "sentAt", "frozen", "frozenAt"}
                           && IsTakenOver(shape, rows[k], judged, f) ==>
                 f in r.written[k].fields && IsRenamed(judged[f], remap, r.written[k].fields[f])
  {
    hide ImportOf, RowsOfTables, Renaming, MissingAmong, DistinctIds, IsRenamed, IsRenamingOf, Left;
    AnImportAccountsForTheRecord(shape, mint, held, record, ceiling);
    var rows, written := InOrder(record), ImportOf(shape, mint, held, record, ceiling).written;
    judged, remap := Judged(shape, rows[k]).value, Renaming(mint, rows[..k]);
    ThePrefixRenames(mint, rows, written, k);
    ReferencesAreLeftRenamed(shape, rows[k], held, judged, remap);
  }

  /** Where rows name only rows of earlier tables, the ids known are those of the whole record. */
  lemma EveryReferenceIsRenamedByTheWhole(
      shape: Shape, mint: Mint, held: set<string>, record: Record, ceiling: nat, k: nat)
    returns (judged: map<string, Value>, remap: map<string, string>)
    requires Fresh(mint) && ImportOf(shape, mint, held, record, ceiling).Imported?
    requires DistinctIds(InOrder(record)) && k < |InOrder(record)|
    ensures var r, rows := ImportOf(shape, mint, held, record, ceiling), InOrder(record);
            && |r.written| == |rows| && IsJudged(shape, rows[k], judged) && IsRenamingOf(remap, rows, r.written, |rows|)
            && (NamesEarlierTables(shape, rows) ==>
                  forall f :: f in shape.references && f !in {"storedAt", "sentAt", "frozen", "frozenAt"}
                              && IsTakenOver(shape, rows[k], judged, f) ==>
                    f in r.written[k].fields && IsRenamed(judged[f], remap, r.written[k].fields[f]))
  {
    hide ImportOf, RowsOfTables, Renaming, MissingAmong, DistinctIds, NamesEarlierTables, AllNames, IsRenamed,
         IsRenamingOf, Left;
    AnImportAccountsForTheRecord(shape, mint, held, record, ceiling);
    var rows, written := InOrder(record), ImportOf(shape, mint, held, record, ceiling).written;
    judged, remap := Judged(shape, rows[k]).value, Renaming(mint, rows);
    assert rows[..|rows|] == rows;
    ThePrefixRenames(mint, rows, written, |rows|);
    ReferencesAreLeftRenamed(shape, rows[k], held, judged, remap);
    if NamesEarlierTables(shape, rows) { AnImportIsARenaming(shape, mint, held, record, ceiling); }
  }

  /** The ids named are those in the references taken over, scalar or listed. */
  lemma WhatIsNamed(shape: Shape, t: Tabled, judged: map<string, Value>, id: string)
    requires IsJudged(shape, t, judged)
    ensures id in Names(shape, t) <==>
              exists f :: f in shape.references && IsTakenOver(shape, t, judged, f)
                          && (judged[f] == Text(id) || (judged[f].List? && Named(id) in judged[f].items))
  {
    assert Judged(shape, t) == Some(judged);
    forall f | f in judged
      ensures id in NamesIn(judged[f]) <==> judged[f] == Text(id) || (judged[f].List? && Named(id) in judged[f].items)
    {}
    hide NamesIn;
    if id in NamedBy(shape, TABLES[t.at], judged) {
      var f :| f in Carried(shape, TABLES[t.at], judged) && f in shape.references && id in NamesIn(judged[f]);
      assert IsTakenOver(shape, t, judged, f);
    }
    if f :| f in shape.references && IsTakenOver(shape, t, judged, f) && id in NamesIn(judged[f]) {
      assert f in Carried(shape, TABLES[t.at], judged);
    }
  }

  // --- Refusals -----------------------------------------------------------------

  /** An absent file's date, or any of a report's lifecycle. */
  ghost predicate IsHeldBack(t: Tabled, held: set<string>, f: string) {
    || (LacksItsFile(t, held) && f == "storedAt")
    || (t.at < |TABLES| && TABLES[t.at] == "reports" && f in {"sentAt", "frozen", "frozenAt"})
  }

  /** What is first offered of the fields read: an absent file undated, and a report with no lifecycle yet. */
  ghost predicate IsOffered(t: Tabled, held: set<string>, read: map<string, Value>, offered: map<string, Value>) {
    && (forall f :: f in offered <==> f in read || IsHeldBack(t, held, f))
    && forall f :: f in offered ==> offered[f] == if IsHeldBack(t, held, f) then Null else read[f]
  }

  lemma WhatIsOffered(t: Tabled, held: set<string>, read: map<string, Value>)
    ensures IsOffered(t, held, read, Settled(t, read, held))
  {
    LackingIsMissing(t, held);
    hide LacksItsFile, MissesItsFile;
  }

  ghost predicate IsTaken(shape: Shape, t: Tabled, held: set<string>, read: map<string, Value>) {
    exists offered :: IsOffered(t, held, read, offered) && shape.accepts(TableOf(t), offered)
  }

  lemma TakenIsAccepted(shape: Shape, t: Tabled, held: set<string>, read: map<string, Value>)
    ensures IsTaken(shape, t, held, read) <==> shape.accepts(TableOf(t), Settled(t, read, held))
  {
    hide Settled, IsHeldBack;
    WhatIsOffered(t, held, read);
    if offered :| IsOffered(t, held, read, offered) && shape.accepts(TableOf(t), offered) {
      assert offered.Keys == Settled(t, read, held).Keys;
      assert offered == Settled(t, read, held);
    }
  }

  ghost predicate RowStands(shape: Shape, mint: Mint, held: set<string>, rows: seq<Tabled>, k: nat)
    requires k < |rows|
  {
    && Judged(shape, rows[k]).Some?
    && IsTaken(shape, rows[k], held, FieldsRead(shape, mint, rows, k))
  }

  lemma ARowStandsAmongFewer(shape: Shape, mint: Mint, held: set<string>, rows: seq<Tabled>, k: nat)
    requires k < |rows| - 1
    ensures RowStands(shape, mint, held, rows[..|rows| - 1], k) <==> RowStands(shape, mint, held, rows, k)
  {
    assert rows[..|rows| - 1][..k] == rows[..k];
  }

  lemma TheLastRowDecides(shape: Shape, mint: Mint, held: set<string>, rows: seq<Tabled>)
    requires rows != [] && LoadRows(shape, mint, held, rows[..|rows| - 1]).Some?
    ensures LoadRows(shape, mint, held, rows).Some? <==> RowStands(shape, mint, held, rows, |rows| - 1)
  {
    var k := |rows| - 1;
    LoadedRowsSay(shape, mint, held, rows[..k]);
    if Judged(shape, rows[k]).Some? { TakenIsAccepted(shape, rows[k], held, FieldsRead(shape, mint, rows, k)); }
    hide FieldsOf, Settled, NamedBy, MissesItsFile, LifecycleOf, IsTaken;
  }

  /** Rows are refused only where one of them is, by its shape or by the store. */
  lemma {:induction false} RowsAreRefusedForCause(shape: Shape, mint: Mint, held: set<string>, rows: seq<Tabled>)
    ensures LoadRows(shape, mint, held, rows).Some? <==>
              forall k :: 0 <= k < |rows| ==> RowStands(shape, mint, held, rows, k)
    decreases rows
  {
    if rows == [] {
    } else {
      hide RowStands, LoadRow;
      RowsAreRefusedForCause(shape, mint, held, rows[..|rows| - 1]);
      forall k | 0 <= k < |rows| - 1
        ensures RowStands(shape, mint, held, rows[..|rows| - 1], k) <==> RowStands(shape, mint, held, rows, k)
      {
        ARowStandsAmongFewer(shape, mint, held, rows, k);
      }
      if LoadRows(shape, mint, held, rows[..|rows| - 1]).Some? {
        TheLastRowDecides(shape, mint, held, rows);
      } else {
        var k :| 0 <= k < |rows| - 1 && !RowStands(shape, mint, held, rows[..|rows| - 1], k);
        assert !RowStands(shape, mint, held, rows, k);
      }
    }
  }

  /** Only reports have lifecycles to restore. */
  lemma {:induction false} LifecyclesAreReports(
      shape: Shape, mint: Mint, held: set<string>, rows: seq<Tabled>, id: string)
    returns (k: nat)
    requires LoadRows(shape, mint, held, rows).Some? && id in LoadRows(shape, mint, held, rows).value.stamps
    ensures k < |rows| && IsReport(rows[k]) && id == mint(k)
    decreases rows
  {
    var last := |rows| - 1;
    if id in LoadRows(shape, mint, held, rows[..last]).value.stamps {
      k := LifecyclesAreReports(shape, mint, held, rows[..last], id);
    } else {
      TheLastRowIsAdded(shape, mint, held, rows);
      k := last;
    }
  }

  /** A report's dates and document, where it has any, are ones a report may be left with. */
  ghost predicate LifecycleStands(shape: Shape, read: map<string, Value>) {
    var life := Lifecycle(
      if "sentAt" in read && read["sentAt"].When? then read["sentAt"] else Null,
      if "frozen" in read then read["frozen"] else Null,
      if "frozenAt" in read && read["frozenAt"].When? then read["frozenAt"] else Null);
    life == Lifecycle(Null, Null, Null) || shape.preserves(life)
  }

  lemma LifecyclesStandTogether(shape: Shape, mint: Mint, held: set<string>, rows: seq<Tabled>)
    requires LoadRows(shape, mint, held, rows).Some? && Fresh(mint)
    requires forall k :: 0 <= k < |rows| ==> Judged(shape, rows[k]).Some?
    ensures LifecyclesStand(shape, LoadRows(shape, mint, held, rows).value.stamps) <==>
              forall k :: 0 <= k < |rows| && TableOf(rows[k]) == "reports" ==>
                LifecycleStands(shape, FieldsRead(shape, mint, rows, k))
  {
    hide LoadRows, FieldsRead, Judged;
    var stamps := LoadRows(shape, mint, held, rows).value.stamps;
    forall k | 0 <= k < |rows| && IsReport(rows[k])
      ensures mint(k) in stamps && stamps[mint(k)] == LifecycleOf(FieldsRead(shape, mint, rows, k))
    {
      LifecyclesAreKept(shape, mint, held, rows, k);
    }
    hide LifecycleOf;
    forall k | 0 <= k < |rows| && IsReport(rows[k])
      ensures LifecycleStands(shape, FieldsRead(shape, mint, rows, k))
         <==> stamps[mint(k)] != UNSENT ==> shape.preserves(stamps[mint(k)])
    {
      ALifecycleRead(shape, FieldsRead(shape, mint, rows, k));
    }
    forall id | id in stamps ensures exists k :: 0 <= k < |rows| && IsReport(rows[k]) && id == mint(k) {
      var k := LifecyclesAreReports(shape, mint, held, rows, id);
    }
    hide LifecycleStands;
  }

  lemma ALifecycleRead(shape: Shape, read: map<string, Value>)
    ensures LifecycleStands(shape, read) <==> (LifecycleOf(read) != UNSENT ==> shape.preserves(LifecycleOf(read)))
  {}

  /**
   * An import is refused for its size exactly past the ceiling, and otherwise
   * only for cause: a row its shape or the store refuses, or a report whose
   * lifecycle may not stand.
   */
  lemma AnImportIsRefusedForCause(shape: Shape, mint: Mint, held: set<string>, record: Record, ceiling: nat)
    requires Fresh(mint)
    ensures var rows := InOrder(record);
            && (ImportOf(shape, mint, held, record, ceiling).TooManyRows? <==> |rows| > ceiling)
            && (ImportOf(shape, mint, held, record, ceiling).Imported? <==>
                  && |rows| <= ceiling
                  && forall k :: 0 <= k < |rows| ==>
                       && RowStands(shape, mint, held, rows, k)
                       && (TableOf(rows[k]) == "reports" ==> LifecycleStands(shape, FieldsRead(shape, mint, rows, k))))
  {
    hide LoadRows, RowsOfTables, RowsInFirst, LifecyclesStand, LifecycleStands, FieldsRead, IsTaken;
    var rows := InOrder(record);
    TablesAreWrittenInOrder(record, |TABLES|);
    RowsAreRefusedForCause(shape, mint, held, rows);
    if LoadRows(shape, mint, held, rows).Some? {
      LoadedRowsSay(shape, mint, held, rows);
      LifecyclesStandTogether(shape, mint, held, rows);
    }
  }
}
