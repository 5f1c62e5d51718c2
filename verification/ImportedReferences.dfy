/**
 * What an import does to a case's references: the one pass renames the graph
 * the archive states exactly where no row names a row written after it.
 */
module ImportedReferences {
  import opened Wrappers
  import opened CaseRecord
  import opened CaseImport

  /** Each row's archive id and the id it was minted, over all the rows. */
  function Renaming(mint: Mint, rows: seq<Tabled>): map<string, string>
    decreases rows
  {
    if rows == [] then map[]
    else
      var last, earlier := rows[|rows| - 1], Renaming(mint, rows[..|rows| - 1]);
      if last.row.id.Some? then earlier[last.row.id.value := mint(|rows| - 1)] else earlier
  }

  ghost predicate DistinctIds(rows: seq<Tabled>) {
    forall i, j :: 0 <= i < j < |rows| && rows[i].row.id.Some? ==> rows[i].row.id != rows[j].row.id
  }

  /** The ids the row's carried references name. */
  function Names(shape: Shape, t: Tabled): set<string> {
    var judged := Judged(shape, t);
    if judged.None? then {} else NamedBy(shape, TABLES[t.at], judged.value)
  }

  function AllNames(shape: Shape, rows: seq<Tabled>): set<string> {
    set i, id | 0 <= i < |rows| && id in Names(shape, rows[i]) :: id
  }

  /** No row names a row of the archive that is written no sooner than itself. */
  ghost predicate NamesOnlyEarlier(shape: Shape, mint: Mint, rows: seq<Tabled>) {
    forall k, id :: 0 <= k < |rows| && id in Names(shape, rows[k]) && id in Renaming(mint, rows)
      ==> id in Renaming(mint, rows[..k])
  }

  // --- The renaming -------------------------------------------------------

  ghost predicate MapsTo(mint: Mint, rows: seq<Tabled>, id: string, to: string) {
    exists k :: 0 <= k < |rows| && rows[k].row.id == Some(id) && to == mint(k)
  }

  lemma {:induction false} RenamingSays(mint: Mint, rows: seq<Tabled>, id: string)
    ensures id in Renaming(mint, rows) ==> MapsTo(mint, rows, id, Renaming(mint, rows)[id])
    ensures (exists k :: 0 <= k < |rows| && rows[k].row.id == Some(id)) ==> id in Renaming(mint, rows)
    decreases rows
  {
    if rows != [] {
      var last := |rows| - 1;
      RenamingSays(mint, rows[..last], id);
      if id in Renaming(mint, rows) {
        if rows[last].row.id == Some(id) {
          assert MapsTo(mint, rows, id, mint(last));
        } else {
          var k :| 0 <= k < last && rows[..last][k].row.id == Some(id) && Renaming(mint, rows[..last])[id] == mint(k);
          assert rows[k].row.id == Some(id);
        }
      }
      if k :| 0 <= k < |rows| && rows[k].row.id == Some(id) {
        assert k < last ==> rows[..last][k].row.id == Some(id);
      }
    }
  }

  /** With distinct archive ids and fresh minted ones, no two rows become one. */
  lemma RenamingIsInjective(mint: Mint, rows: seq<Tabled>, id: string, id': string)
    requires Fresh(mint) && id in Renaming(mint, rows) && id' in Renaming(mint, rows)
    requires Renaming(mint, rows)[id] == Renaming(mint, rows)[id']
    ensures id == id'
  {
    RenamingSays(mint, rows, id);
    RenamingSays(mint, rows, id');
    var k :| 0 <= k < |rows| && rows[k].row.id == Some(id) && Renaming(mint, rows)[id] == mint(k);
    var k' :| 0 <= k' < |rows| && rows[k'].row.id == Some(id') && Renaming(mint, rows)[id'] == mint(k');
  }

  /** With distinct ids, what a prefix maps the whole maps alike. */
  lemma {:induction false} RenamingGrows(mint: Mint, rows: seq<Tabled>, n: nat)
    requires DistinctIds(rows) && n <= |rows|
    ensures forall id :: id in Renaming(mint, rows[..n]) ==>
              id in Renaming(mint, rows) && Renaming(mint, rows)[id] == Renaming(mint, rows[..n])[id]
    decreases |rows|
  {
    if n == |rows| {
      assert rows[..n] == rows;
    } else {
      var shorter := rows[..|rows| - 1];
      assert shorter[..n] == rows[..n];
      RenamingGrows(mint, shorter, n);
      forall id | id in Renaming(mint, shorter) ensures rows[|rows| - 1].row.id != Some(id) {
        RenamingSays(mint, shorter, id);
        var k :| 0 <= k < |shorter| && shorter[k].row.id == Some(id) && Renaming(mint, shorter)[id] == mint(k);
        assert rows[k].row.id == Some(id);
      }
    }
  }

  // --- A value under part of the renaming ---------------------------------

  ghost predicate PartOf(part: map<string, string>, whole: map<string, string>) {
    forall id :: id in part ==> id in whole && whole[id] == part[id]
  }

  lemma {:induction false} MappedItemsUnderPart(items: seq<Item>, part: map<string, string>, whole: map<string, string>)
    requires PartOf(part, whole)
    ensures |MappedItems(items, part)| <= |MappedItems(items, whole)|
    ensures |MappedItems(items, part)| == |MappedItems(items, whole)|
       <==> forall item :: item in items && item.Named? && item.id in whole ==> item.id in part
    ensures |MappedItems(items, part)| == |MappedItems(items, whole)|
        ==> MappedItems(items, part) == MappedItems(items, whole)
    decreases items
  {
    if items != [] {
      var last := |items| - 1;
      MappedItemsUnderPart(items[..last], part, whole);
      assert items == items[..last] + [items[last]];
    }
  }

  /** A value reads the same under part of a renaming exactly when the part holds all of its ids that the whole does. */
  lemma AValueUnderPart(value: Value, part: map<string, string>, whole: map<string, string>)
    requires PartOf(part, whole)
    ensures RemappedValue(value, part) == RemappedValue(value, whole)
       <==> forall id :: id in NamesIn(value) && id in whole ==> id in part
  {
    match value
    case List(items) =>
      MappedItemsUnderPart(items, part, whole);
      assert forall item :: item in items && item.Named? ==> item.id in NamesIn(value);
    case Text(id) =>
    case _ =>
  }

  lemma FieldsUnderPart(shape: Shape, collection: string, judged: map<string, Value>,
                        part: map<string, string>, whole: map<string, string>)
    requires PartOf(part, whole)
    ensures FieldsOf(shape, collection, judged, part) == FieldsOf(shape, collection, judged, whole)
       <==> forall id :: id in NamedBy(shape, collection, judged) && id in whole ==> id in part
  {
    hide RemappedValue, NamesIn;
    var fields, fields' := FieldsOf(shape, collection, judged, part), FieldsOf(shape, collection, judged, whole);
    forall f | f in Carried(shape, collection, judged) && f in shape.references
      ensures fields[f] == fields'[f] <==> forall id :: id in NamesIn(judged[f]) && id in whole ==> id in part
    {
      AValueUnderPart(judged[f], part, whole);
    }
    if fields == fields' {
      forall id | id in NamedBy(shape, collection, judged) && id in whole ensures id in part {
        var f :| f in Carried(shape, collection, judged) && f in shape.references && id in NamesIn(judged[f]);
        assert fields[f] == fields'[f];
      }
    }
  }

  // --- The whole load -----------------------------------------------------

  /** The row as written, were it read under `remap`. */
  function RowUnder(shape: Shape, mint: Mint, held: set<string>, rows: seq<Tabled>, k: nat, remap: map<string, string>)
    : Written
    requires k < |rows| && Judged(shape, rows[k]).Some?
  {
    Written(mint(k), TableOf(rows[k]), Settled(rows[k], ReadUnder(shape, rows[k], remap), held))
  }

  predicate IsReport(t: Tabled) { TableOf(t) == "reports" }

  function ReadUnder(shape: Shape, t: Tabled, remap: map<string, string>): map<string, Value>
    requires Judged(shape, t).Some?
  {
    FieldsOf(shape, TABLES[t.at], Judged(shape, t).value, remap)
  }

  /** The row's fields, read among the rows written before it. */
  function FieldsRead(shape: Shape, mint: Mint, rows: seq<Tabled>, k: nat): map<string, Value>
    requires k < |rows| && Judged(shape, rows[k]).Some?
  {
    ReadUnder(shape, rows[k], Renaming(mint, rows[..k]))
  }

  /** A row reads the same under part of a renaming exactly when the part holds all of its ids that the whole does. */
  lemma ARowUnderPart(shape: Shape, t: Tabled, part: map<string, string>, whole: map<string, string>)
    requires Judged(shape, t).Some? && PartOf(part, whole)
    ensures ReadUnder(shape, t, part) == ReadUnder(shape, t, whole)
       <==> forall id :: id in Names(shape, t) && id in whole ==> id in part
  {
    hide FieldsOf, NamedBy, PartOf;
    FieldsUnderPart(shape, TABLES[t.at], Judged(shape, t).value, part, whole);
  }

  lemma {:induction false} LoadedRowsSay(shape: Shape, mint: Mint, held: set<string>, rows: seq<Tabled>)
    requires LoadRows(shape, mint, held, rows).Some?
    ensures var s := LoadRows(shape, mint, held, rows).value;
            |s.written| == |rows| && s.remap == Renaming(mint, rows)
    ensures forall k :: 0 <= k < |rows| ==> Judged(shape, rows[k]).Some?
    decreases rows
  {
    hide FieldsOf, Settled, NamedBy, MissesItsFile;
    if rows != [] {
      LoadedRowsSay(shape, mint, held, rows[..|rows| - 1]);
      assert forall k :: 0 <= k < |rows| - 1 ==> rows[..|rows| - 1][k] == rows[k];
    }
  }

  /** What the last row adds: itself, read among the rows before it, and its lifecycle where it is a report. */
  predicate AddsTheLast(shape: Shape, mint: Mint, held: set<string>, rows: seq<Tabled>, before: Loading, after: Loading)
    requires rows != [] && Judged(shape, rows[|rows| - 1]).Some?
  {
    var last := |rows| - 1;
    && |before.written| == last
    && after.written == before.written + [RowUnder(shape, mint, held, rows, last, Renaming(mint, rows[..last]))]
    && after.stamps == (if IsReport(rows[last])
                        then before.stamps[mint(last) := LifecycleOf(FieldsRead(shape, mint, rows, last))]
                        else before.stamps)
    && after.unresolved == before.unresolved + (Names(shape, rows[last]) - Renaming(mint, rows[..last]).Keys)
  }

  lemma TheLastRowIsAdded(shape: Shape, mint: Mint, held: set<string>, rows: seq<Tabled>)
    requires LoadRows(shape, mint, held, rows).Some? && rows != []
    ensures LoadRows(shape, mint, held, rows[..|rows| - 1]).Some? && Judged(shape, rows[|rows| - 1]).Some?
    ensures AddsTheLast(shape, mint, held, rows, LoadRows(shape, mint, held, rows[..|rows| - 1]).value,
                        LoadRows(shape, mint, held, rows).value)
  {
    hide FieldsOf, Settled, NamedBy, MissesItsFile, LifecycleOf;
    LoadedRowsSay(shape, mint, held, rows[..|rows| - 1]);
  }

  /** Each row is written as it reads among the rows before it. */
  lemma {:induction false} EachRowIsReadAmongEarlier(
      shape: Shape, mint: Mint, held: set<string>, rows: seq<Tabled>, k: nat)
    requires LoadRows(shape, mint, held, rows).Some? && k < |rows|
    ensures Judged(shape, rows[k]).Some?
    ensures k < |LoadRows(shape, mint, held, rows).value.written|
    ensures LoadRows(shape, mint, held, rows).value.written[k]
         == RowUnder(shape, mint, held, rows, k, Renaming(mint, rows[..k]))
    decreases |rows|
  {
    hide LoadRows, Renaming, Judged, ReadUnder, Settled, IsReport;
    TheLastRowIsAdded(shape, mint, held, rows);
    var last := |rows| - 1;
    if k < last {
      assert rows[..last][..k] == rows[..k];
      EachRowIsReadAmongEarlier(shape, mint, held, rows[..last], k);
    }
  }

  /** Row `k` names the id and no row before it has it. */
  predicate NamesUnseen(shape: Shape, mint: Mint, rows: seq<Tabled>, k: nat, id: string)
    requires k < |rows|
  {
    id in Names(shape, rows[k]) && id !in Renaming(mint, rows[..k])
  }

  lemma {:induction false} AnUnseenNameIsUnresolved(
      shape: Shape, mint: Mint, held: set<string>, rows: seq<Tabled>, k: nat, id: string)
    requires LoadRows(shape, mint, held, rows).Some? && k < |rows| && NamesUnseen(shape, mint, rows, k, id)
    ensures id in LoadRows(shape, mint, held, rows).value.unresolved
    decreases |rows|
  {
    hide LoadRows, Names, Renaming, Judged, RowUnder, FieldsRead, IsReport;
    TheLastRowIsAdded(shape, mint, held, rows);
    if k < |rows| - 1 {
      assert rows[..|rows| - 1][..k] == rows[..k];
      AnUnseenNameIsUnresolved(shape, mint, held, rows[..|rows| - 1], k, id);
    }
  }

  lemma {:induction false} AnUnresolvedNameIsUnseen(
      shape: Shape, mint: Mint, held: set<string>, rows: seq<Tabled>, id: string)
    returns (k: nat)
    requires LoadRows(shape, mint, held, rows).Some? && id in LoadRows(shape, mint, held, rows).value.unresolved
    ensures k < |rows| && NamesUnseen(shape, mint, rows, k, id)
    decreases |rows|
  {
    var last := |rows| - 1;
    hide Names, Renaming, Judged, RowUnder, FieldsRead, IsReport, LoadRow;
    TheLastRowIsAdded(shape, mint, held, rows);
    if id in LoadRows(shape, mint, held, rows[..last]).value.unresolved {
      k := AnUnresolvedNameIsUnseen(shape, mint, held, rows[..last], id);
      assert rows[..last][..k] == rows[..k];
    } else {
      k := last;
    }
  }

  lemma SettlingHidesNoReference(shape: Shape, t: Tabled, held: set<string>,
                                 part: map<string, string>, whole: map<string, string>)
    requires shape.references !! SETTLED && Judged(shape, t).Some?
    ensures Settled(t, ReadUnder(shape, t, part), held) == Settled(t, ReadUnder(shape, t, whole), held)
       <==> ReadUnder(shape, t, part) == ReadUnder(shape, t, whole)
  {
    hide RemappedValue, Carried, MissesItsFile, TableOf, Judged;
    var a, b := ReadUnder(shape, t, part), ReadUnder(shape, t, whole);
    var a', b' := Settled(t, a, held), Settled(t, b, held);
    if a' == b' {
      forall f | f in a ensures a[f] == b[f] {
        if f in shape.references {
          assert f !in SETTLED;
          assert a[f] == a'[f] && b[f] == b'[f];
        }
      }
      assert a.Keys == b.Keys;
    }
  }

  /**
   * With distinct archive ids: every row is written as the archive's own
   * renaming of it, each scalar mapped or nulled and each list mapped in order
   * without its unknown ids, exactly when no row names one written after it.
   */
  lemma ImportRenamesTheGraph(shape: Shape, mint: Mint, held: set<string>, rows: seq<Tabled>)
    requires LoadRows(shape, mint, held, rows).Some? && DistinctIds(rows) && shape.references !! SETTLED
    ensures |LoadRows(shape, mint, held, rows).value.written| == |rows|
    ensures forall k :: 0 <= k < |rows| ==> Judged(shape, rows[k]).Some?
    ensures NamesOnlyEarlier(shape, mint, rows) <==>
              forall k :: 0 <= k < |rows| ==>
                LoadRows(shape, mint, held, rows).value.written[k]
                  == RowUnder(shape, mint, held, rows, k, Renaming(mint, rows))
  {
    hide LoadRows, Settled, ReadUnder, Names, Judged, Renaming;
    LoadedRowsSay(shape, mint, held, rows);
    var written, whole := LoadRows(shape, mint, held, rows).value.written, Renaming(mint, rows);
    forall k | 0 <= k < |rows|
      ensures written[k] == RowUnder(shape, mint, held, rows, k, whole) <==>
                forall id :: id in Names(shape, rows[k]) && id in whole ==> id in Renaming(mint, rows[..k])
    {
      ARowIsRenamedWhenItNamesEarlier(shape, mint, held, rows, k);
    }
  }

  lemma ARowIsRenamedWhenItNamesEarlier(shape: Shape, mint: Mint, held: set<string>, rows: seq<Tabled>, k: nat)
    requires LoadRows(shape, mint, held, rows).Some? && DistinctIds(rows) && shape.references !! SETTLED
    requires k < |rows| && Judged(shape, rows[k]).Some? && k < |LoadRows(shape, mint, held, rows).value.written|
    ensures LoadRows(shape, mint, held, rows).value.written[k]
         == RowUnder(shape, mint, held, rows, k, Renaming(mint, rows))
       <==> forall id :: id in Names(shape, rows[k]) && id in Renaming(mint, rows) ==> id in Renaming(mint, rows[..k])
  {
    hide LoadRows, Settled, ReadUnder, Names, Judged, Renaming;
    var part, whole := Renaming(mint, rows[..k]), Renaming(mint, rows);
    EachRowIsReadAmongEarlier(shape, mint, held, rows, k);
    RenamingGrows(mint, rows, k);
    ARowUnderPart(shape, rows[k], part, whole);
    SettlingHidesNoReference(shape, rows[k], held, part, whole);
  }

  /** The ids left unresolved are exactly those named that no row has, again exactly when none is named too early. */
  lemma UnresolvedAreTheAbsent(shape: Shape, mint: Mint, held: set<string>, rows: seq<Tabled>)
    requires LoadRows(shape, mint, held, rows).Some? && DistinctIds(rows)
    ensures LoadRows(shape, mint, held, rows).value.unresolved == AllNames(shape, rows) - Renaming(mint, rows).Keys
       <==> NamesOnlyEarlier(shape, mint, rows)
  {
    hide LoadRows, Renaming, Names;
    var unresolved, whole := LoadRows(shape, mint, held, rows).value.unresolved, Renaming(mint, rows);
    forall k | 0 <= k < |rows| ensures PartOf(Renaming(mint, rows[..k]), whole) {
      RenamingGrows(mint, rows, k);
    }
    forall id | id in unresolved
      ensures id in AllNames(shape, rows) && (NamesOnlyEarlier(shape, mint, rows) ==> id !in whole)
    {
      var k := AnUnresolvedNameIsUnseen(shape, mint, held, rows, id);
    }
    forall id | id in AllNames(shape, rows) && id !in whole ensures id in unresolved {
      var k: nat :| k < |rows| && id in Names(shape, rows[k]);
      AnUnseenNameIsUnresolved(shape, mint, held, rows, k, id);
    }
    if !NamesOnlyEarlier(shape, mint, rows) {
      var k: nat, id :| k < |rows| && id in Names(shape, rows[k]) && id in whole && id !in Renaming(mint, rows[..k]);
      AnUnseenNameIsUnresolved(shape, mint, held, rows, k, id);
    }
  }
}
