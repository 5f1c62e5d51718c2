/**
 * What an import answers, against the record it read: how many rows, how many
 * without their file, and each row as it is finally left.
 */
module ImportedCase {
  import opened Wrappers
  import opened CaseRecord
  import opened CaseImport
  import opened ImportedReferences

  // --- The rows in table order ----------------------------------------------

  lemma {:induction false} TablesAreWrittenInOrder(record: Record, n: nat)
    requires n <= |TABLES|
    ensures var rows := RowsOfTables(record, n);
            && (forall k :: 0 <= k < |rows| ==> rows[k].at < n)
            && forall j, k :: 0 <= j < k < |rows| ==> rows[j].at <= rows[k].at
    ensures |RowsOfTables(record, n)| == RowsInFirst(record, n)
  {
    hide RowsOf;
    if n > 0 { TablesAreWrittenInOrder(record, n - 1); }
  }

  /** Wherever a row names another of the archive's, that one's table comes before its own in `TABLES`. */
  ghost predicate NamesEarlierTables(shape: Shape, rows: seq<Tabled>) {
    forall j, k :: 0 <= j < |rows| && 0 <= k < |rows|
                   && rows[j].row.id.Some? && rows[j].row.id.value in Names(shape, rows[k])
      ==> rows[j].at < rows[k].at
  }

  /** The order of `TABLES` is enough: references to earlier tables only are references to rows already written. */
  lemma TheTableOrderSuffices(shape: Shape, mint: Mint, record: Record)
    requires NamesEarlierTables(shape, InOrder(record))
    ensures NamesOnlyEarlier(shape, mint, InOrder(record))
  {
    hide Names, Renaming, RowsOfTables;
    var rows := InOrder(record);
    TablesAreWrittenInOrder(record, |TABLES|);
    forall k, id | 0 <= k < |rows| && id in Names(shape, rows[k]) && id in Renaming(mint, rows)
      ensures id in Renaming(mint, rows[..k])
    {
      RenamingSays(mint, rows, id);
      var j :| 0 <= j < |rows| && rows[j].row.id == Some(id);
      assert rows[j].at < rows[k].at;
      assert rows[..k][j].row.id == Some(id);
      RenamingSays(mint, rows[..k], id);
    }
  }

  // --- The rows without their file ------------------------------------------

  function MissingAmong(rows: seq<Tabled>, held: set<string>): set<nat> {
    set k: nat | k < |rows| && MissesItsFile(rows[k], held)
  }

  lemma MissingOneMore(rows: seq<Tabled>, held: set<string>)
    requires rows != []
    ensures |MissingAmong(rows, held)|
         == |MissingAmong(rows[..|rows| - 1], held)| + (if MissesItsFile(rows[|rows| - 1], held) then 1 else 0)
  {
    hide MissesItsFile;
    var last: nat := |rows| - 1;
    var before := MissingAmong(rows[..last], held);
    assert MissingAmong(rows, held) == before + (if MissesItsFile(rows[last], held) then {last} else {});
  }

  lemma {:induction false} MissingFilesAreCounted(shape: Shape, mint: Mint, held: set<string>, rows: seq<Tabled>)
    requires LoadRows(shape, mint, held, rows).Some?
    ensures LoadRows(shape, mint, held, rows).value.missingFiles == |MissingAmong(rows, held)|
    decreases rows
  {
    hide MissesItsFile, FieldsOf, Settled, NamedBy, LifecycleOf, MissingAmong;
    if rows == [] {
      NoneMissing(rows, held);
    } else {
      MissingFilesAreCounted(shape, mint, held, rows[..|rows| - 1]);
      MissingOneMore(rows, held);
    }
  }

  lemma NoneMissing(rows: seq<Tabled>, held: set<string>)
    requires rows == []
    ensures |MissingAmong(rows, held)| == 0
  {
    assert MissingAmong(rows, held) == {};
  }

  // --- Each row as it is left -----------------------------------------------

  /** A report's lifecycle is kept for exactly the rows that are reports, as it was read. */
  lemma {:induction false} LifecyclesAreKept(shape: Shape, mint: Mint, held: set<string>, rows: seq<Tabled>, k: nat)
    requires LoadRows(shape, mint, held, rows).Some? && Fresh(mint) && k < |rows|
    ensures Judged(shape, rows[k]).Some?
    ensures var stamps := LoadRows(shape, mint, held, rows).value.stamps;
            && (mint(k) in stamps <==> IsReport(rows[k]))
            && (IsReport(rows[k]) ==> stamps[mint(k)] == LifecycleOf(FieldsRead(shape, mint, rows, k)))
    decreases |rows|
  {
    hide LoadRows, Renaming, ReadUnder, Judged, IsReport, LifecycleOf, RowUnder;
    TheLastRowIsAdded(shape, mint, held, rows);
    var last := |rows| - 1;
    if k < last {
      assert rows[..last][..k] == rows[..k];
      LifecyclesAreKept(shape, mint, held, rows[..last], k);
    } else {
      NothingKeptAhead(shape, mint, held, rows[..last], last);
    }
  }

  lemma {:induction false} NothingKeptAhead(shape: Shape, mint: Mint, held: set<string>, rows: seq<Tabled>, k: nat)
    requires LoadRows(shape, mint, held, rows).Some? && Fresh(mint) && |rows| <= k
    ensures mint(k) !in LoadRows(shape, mint, held, rows).value.stamps
    decreases |rows|
  {
    if rows != [] {
      hide FieldsRead, RowUnder, IsReport, LifecycleOf;
      TheLastRowIsAdded(shape, mint, held, rows);
      NothingKeptAhead(shape, mint, held, rows[..|rows| - 1], k);
    }
  }

  /** A row as the case finally has it: a report with its own lifecycle, a file not carried undated. */
  function Left(t: Tabled, fields: map<string, Value>, held: set<string>): map<string, Value> {
    if IsReport(t) then WithLifecycle(fields, LifecycleOf(fields))
    else if MissesItsFile(t, held) then fields["storedAt" := Null]
    else fields
  }

  lemma RestoringALifecycle(t: Tabled, fields: map<string, Value>, held: set<string>)
    requires IsReport(t)
    ensures WithLifecycle(Settled(t, fields, held), LifecycleOf(fields)) == Left(t, fields, held)
  {}

  /** Holding a report's lifecycle back until its parts are in leaves every row as it was read. */
  lemma EachRowIsLeftAsRead(shape: Shape, mint: Mint, held: set<string>, rows: seq<Tabled>, k: nat)
    requires LoadRows(shape, mint, held, rows).Some? && Fresh(mint) && k < |rows|
    ensures Judged(shape, rows[k]).Some?
    ensures var s := LoadRows(shape, mint, held, rows).value;
            && k < |s.written|
            && Preserved(s.written, s.stamps)[k]
                 == Written(mint(k), TableOf(rows[k]), Left(rows[k], FieldsRead(shape, mint, rows, k), held))
  {
    hide LoadRows, Renaming, ReadUnder, Judged, WithLifecycle, LifecycleOf, MissesItsFile;
    EachRowIsReadAmongEarlier(shape, mint, held, rows, k);
    LifecyclesAreKept(shape, mint, held, rows, k);
    if IsReport(rows[k]) { RestoringALifecycle(rows[k], FieldsRead(shape, mint, rows, k), held); }
  }

  /**
   * What the answer of an import says: every row of the record restored, the
   * rows without their file counted one by one and left undated, and each row
   * left as it reads among the rows before it.
   */
  lemma AnImportAccountsForTheRecord(shape: Shape, mint: Mint, held: set<string>, record: Record, ceiling: nat)
    requires Fresh(mint)
    ensures var r, rows := ImportOf(shape, mint, held, record, ceiling), InOrder(record);
            r.Imported? ==>
              && r.rows == |r.written| == |rows| == RowsIn(record) <= ceiling
              && r.missingFiles == |MissingAmong(rows, held)|
              && (forall k :: 0 <= k < |rows| ==>
                    && Judged(shape, rows[k]).Some?
                    && r.written[k]
                         == Written(mint(k), TableOf(rows[k]), Left(rows[k], FieldsRead(shape, mint, rows, k), held)))
              && (forall k :: k in MissingAmong(rows, held) ==> Field(r.written[k].fields, "storedAt") == Null)
  {
    if !ImportOf(shape, mint, held, record, ceiling).Imported? { return; }
    hide LoadRows, RowsOfTables, RowsInFirst, FieldsRead, HashOf, Judged, WithLifecycle;
    var rows := InOrder(record);
    LoadedRowsSay(shape, mint, held, rows);
    TablesAreWrittenInOrder(record, |TABLES|);
    MissingFilesAreCounted(shape, mint, held, rows);
    forall k | 0 <= k < |rows|
      ensures var s := LoadRows(shape, mint, held, rows).value;
              Judged(shape, rows[k]).Some?
              && Preserved(s.written, s.stamps)[k]
                   == Written(mint(k), TableOf(rows[k]), Left(rows[k], FieldsRead(shape, mint, rows, k), held))
    {
      EachRowIsLeftAsRead(shape, mint, held, rows, k);
    }
  }

  lemma ARowReadsAsAmongAll(shape: Shape, mint: Mint, rows: seq<Tabled>, k: nat)
    requires DistinctIds(rows) && NamesOnlyEarlier(shape, mint, rows) && k < |rows| && Judged(shape, rows[k]).Some?
    ensures FieldsRead(shape, mint, rows, k) == ReadUnder(shape, rows[k], Renaming(mint, rows))
  {
    hide ReadUnder, Names, Judged, Renaming;
    RenamingGrows(mint, rows, k);
    ARowUnderPart(shape, rows[k], Renaming(mint, rows[..k]), Renaming(mint, rows));
  }

  ghost predicate Injective(renaming: map<string, string>) {
    forall id, id' :: id in renaming && id' in renaming && renaming[id] == renaming[id'] ==> id == id'
  }

  lemma TheRenamingIsInjective(mint: Mint, rows: seq<Tabled>)
    requires Fresh(mint)
    ensures Injective(Renaming(mint, rows))
  {
    hide Renaming;
    var renaming := Renaming(mint, rows);
    forall id, id' | id in renaming && id' in renaming && renaming[id] == renaming[id'] ensures id == id' {
      RenamingIsInjective(mint, rows, id, id');
    }
  }

  /**
   * The archive's graph, renamed: with distinct ids and references to earlier
   * tables only, one injective map over the whole record, of exactly the ids
   * its rows have, renames every row, and what is answered as unresolved is how
   * many ids are named that no row has.
   */
  lemma AnImportIsARenaming(shape: Shape, mint: Mint, held: set<string>, record: Record, ceiling: nat)
    requires Fresh(mint)
    ensures var r, rows, renaming := ImportOf(shape, mint, held, record, ceiling), InOrder(record),
                                     Renaming(mint, InOrder(record));
            r.Imported? && DistinctIds(rows) && NamesEarlierTables(shape, rows) ==>
              && Injective(renaming)
              && (forall id :: id in renaming <==> exists k :: 0 <= k < |rows| && rows[k].row.id == Some(id))
              && r.unresolvedReferences == |AllNames(shape, rows) - renaming.Keys|
              && |r.written| == |rows|
              && forall k :: 0 <= k < |rows| ==>
                   && Judged(shape, rows[k]).Some?
                   && r.written[k]
                        == Written(mint(k), TableOf(rows[k]), Left(rows[k], ReadUnder(shape, rows[k], renaming), held))
  {
    hide LoadRows, RowsOfTables, RowsIn, FieldsRead, ReadUnder, Left, TableOf, Preserved, Judged, Renaming, AllNames,
         NamesEarlierTables, NamesOnlyEarlier, MissingAmong, Field, Injective;
    var rows := InOrder(record);
    if ImportOf(shape, mint, held, record, ceiling).Imported? && DistinctIds(rows) && NamesEarlierTables(shape, rows) {
      TheTableOrderSuffices(shape, mint, record);
      TheRenamingIsInjective(mint, rows);
      forall id ensures id in Renaming(mint, rows) <==> exists k :: 0 <= k < |rows| && rows[k].row.id == Some(id) {
        RenamingSays(mint, rows, id);
      }
      AnImportAccountsForTheRecord(shape, mint, held, record, ceiling);
      UnresolvedAreTheAbsent(shape, mint, held, rows);
      forall k | 0 <= k < |rows|
        ensures Judged(shape, rows[k]).Some?
        ensures FieldsRead(shape, mint, rows, k) == ReadUnder(shape, rows[k], Renaming(mint, rows))
      {
        ARowReadsAsAmongAll(shape, mint, rows, k);
      }
    }
  }
}
