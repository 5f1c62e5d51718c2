/**
 * Reading a case in as a new one: rows written in table order, ids minted as
 * they are written, and every reference looked up among the rows written so
 * far.
 */
module CaseImport {
  import opened Wrappers
  import opened CaseRecord

  /** A row with its table, as the table's place in `TABLES`. */
  datatype Tabled = Tabled(at: nat, row: Row)

  function TableOf(t: Tabled): string { if t.at < |TABLES| then TABLES[t.at] else "" }

  datatype Lifecycle = Lifecycle(sentAt: Value, frozen: Value, frozenAt: Value)

  /**
   * What the install knows of its collections: the judged fields of a row or
   * its refusal, each table's columns, the fields that hold references, what
   * the store takes, and which lifecycles a report may be left with.
   */
  datatype Shape = Shape(
    judge: (string, Row) -> Option<map<string, Value>>,
    columns: string -> set<string>,
    references: set<string>,
    accepts: (string, map<string, Value>) -> bool,
    preserves: Lifecycle -> bool)

  datatype Written = Written(id: string, collection: string, fields: map<string, Value>)

  const NEVER_CARRIED: set<string> := {
    "id", "caseId", "version", "createdAt", "updatedAt", "createdBy", "updatedBy", "source", "provenance", "unreviewed"}

  /** The columns the import writes for itself on some tables. */
  const SETTLED: set<string> := {"storedAt", "sentAt", "frozen", "frozenAt"}

  type Mint = nat -> string

  ghost predicate Fresh(mint: Mint) { forall i, j :: mint(i) == mint(j) ==> i == j }

  // --- One row --------------------------------------------------------------

  /** The ids of a list that are known, each as the row it became. */
  function MappedItems(items: seq<Item>, remap: map<string, string>): seq<Item>
    decreases items
  {
    if items == [] then []
    else
      var last := items[|items| - 1];
      MappedItems(items[..|items| - 1], remap)
      + (if last.Named? && last.id in remap then [Named(remap[last.id])] else [])
  }

  function RemappedValue(value: Value, remap: map<string, string>): Value {
    match value
    case Text(id) => if id in remap then Text(remap[id]) else Null
    case List(items) => List(MappedItems(items, remap))
    case _ => value
  }

  /** The ids a value names. */
  function NamesIn(value: Value): set<string> {
    match value
    case Text(id) => {id}
    case List(items) => set item | item in items && item.Named? :: item.id
    case _ => {}
  }

  /** The ids of a list that are not known, in order, as often as they are named. */
  function UnknownItems(items: seq<Item>, remap: map<string, string>): seq<string>
    decreases items
  {
    if items == [] then []
    else
      var last := items[|items| - 1];
      UnknownItems(items[..|items| - 1], remap) + (if last.Named? && last.id !in remap then [last.id] else [])
  }

  function UnknownIn(value: Value, remap: map<string, string>): seq<string> {
    match value
    case Text(id) => if id in remap then [] else [id]
    case List(items) => UnknownItems(items, remap)
    case _ => []
  }

  /** The items before the `n`-th that name a known id, or one that is not. */
  function NamingBefore(items: seq<Item>, n: nat, known: bool, remap: map<string, string>): set<nat> {
    set i: nat | i < n && i < |items| && items[i].Named? && (items[i].id in remap) == known
  }

  /** `kept` holds an entry for each of those items, in their order, each where its item stands among them. */
  ghost predicate StandsFor(items: seq<Item>, known: bool, remap: map<string, string>, kept: seq<string>) {
    && |kept| == |NamingBefore(items, |items|, known, remap)|
    && forall i :: 0 <= i < |items| && items[i].Named? && (items[i].id in remap) == known ==>
         && |NamingBefore(items, i, known, remap)| < |kept|
         && kept[|NamingBefore(items, i, known, remap)|] == (if known then remap[items[i].id] else items[i].id)
  }

  lemma NamingOneMore(items: seq<Item>, n: nat, known: bool, remap: map<string, string>)
    requires n < |items|
    ensures |NamingBefore(items, n + 1, known, remap)|
         == |NamingBefore(items, n, known, remap)|
            + (if items[n].Named? && (items[n].id in remap) == known then 1 else 0)
  {
    var more := if items[n].Named? && (items[n].id in remap) == known then {n} else {};
    assert NamingBefore(items, n + 1, known, remap) == NamingBefore(items, n, known, remap) + more;
  }

  lemma NamingAmongFewer(items: seq<Item>, n: nat, known: bool, remap: map<string, string>)
    requires n < |items|
    ensures NamingBefore(items[..|items| - 1], n, known, remap) == NamingBefore(items, n, known, remap)
  {}

  /** One item more, standing last if at all. */
  lemma StandsForOneMore(items: seq<Item>, known: bool, remap: map<string, string>, kept: seq<string>)
    requires items != [] && StandsFor(items[..|items| - 1], known, remap, kept)
    ensures var last := items[|items| - 1];
            StandsFor(items, known, remap,
                      kept + if last.Named? && (last.id in remap) == known
                             then [if known then remap[last.id] else last.id] else [])
  {
    var n := |items| - 1;
    NamingOneMore(items, n, known, remap);
    NamingAmongFewer(items, n, known, remap);
    forall i | 0 <= i < n
      ensures NamingBefore(items[..n], i, known, remap) == NamingBefore(items, i, known, remap)
      ensures items[..n][i] == items[i]
    {
      NamingAmongFewer(items, i, known, remap);
    }
    hide NamingBefore;
  }

  predicate AllNamed(items: seq<Item>) { forall i :: 0 <= i < |items| ==> items[i].Named? }

  function IdsOf(items: seq<Item>): seq<string>
    requires AllNamed(items)
  {
    seq(|items|, i requires 0 <= i < |items| => items[i].id)
  }

  lemma MappedOneMore(items: seq<Item>, remap: map<string, string>)
    requires items != []
    requires AllNamed(MappedItems(items[..|items| - 1], remap))
    ensures AllNamed(MappedItems(items, remap))
    ensures var last := items[|items| - 1];
            IdsOf(MappedItems(items, remap))
              == IdsOf(MappedItems(items[..|items| - 1], remap))
                 + if last.Named? && (last.id in remap) == true then [remap[last.id]] else []
  {}

  lemma {:induction false} MappedItemsSay(items: seq<Item>, remap: map<string, string>)
    ensures AllNamed(MappedItems(items, remap))
    ensures StandsFor(items, true, remap, IdsOf(MappedItems(items, remap)))
    ensures StandsFor(items, false, remap, UnknownItems(items, remap))
    decreases items
  {
    if items == [] {
      NothingStands(items, remap);
    } else {
      hide StandsFor, IdsOf;
      MappedItemsSay(items[..|items| - 1], remap);
      MappedOneMore(items, remap);
      StandsForOneMore(items, true, remap, IdsOf(MappedItems(items[..|items| - 1], remap)));
      StandsForOneMore(items, false, remap, UnknownItems(items[..|items| - 1], remap));
    }
  }

  lemma NothingStands(items: seq<Item>, remap: map<string, string>)
    requires items == []
    ensures StandsFor(items, true, remap, []) && StandsFor(items, false, remap, [])
  {
    assert NamingBefore(items, 0, true, remap) == {} && NamingBefore(items, 0, false, remap) == {};
  }

  /** A value's ids mapped to the rows made of them, and the ids nothing has been made of. */
  method Remapped(value: Value, remap: map<string, string>) returns (mapped: Value, dropped: seq<string>)
    ensures mapped == RemappedValue(value, remap)
    ensures value.Text? ==> mapped == if value.text in remap then Text(remap[value.text]) else Null
    ensures value.Text? ==> dropped == if value.text in remap then [] else [value.text]
    ensures value.List? ==>
              && mapped.List? && AllNamed(mapped.items)
              && StandsFor(value.items, true, remap, IdsOf(mapped.items))
              && StandsFor(value.items, false, remap, dropped)
    ensures !value.Text? && !value.List? ==> mapped == value && dropped == []
    ensures dropped == UnknownIn(value, remap)
    ensures (set id | id in dropped) == NamesIn(value) - remap.Keys
  {
    hide StandsFor, IdsOf, AllNamed;
    dropped := [];
    match value {
      case List(items) =>
        var kept: seq<Item> := [];
        for i := 0 to |items|
          invariant kept == MappedItems(items[..i], remap)
          invariant dropped == UnknownItems(items[..i], remap)
          invariant forall id :: id in dropped <==> Named(id) in items[..i] && id !in remap
        {
          assert items[..i + 1] == items[..i] + [items[i]];
          if items[i].Named? {
            if items[i].id in remap {
              kept := kept + [Named(remap[items[i].id])];
            } else {
              dropped := dropped + [items[i].id];
            }
          }
        }
        assert items[..|items|] == items;
        MappedItemsSay(items, remap);
        mapped := List(kept);
      case Text(id) =>
        if id in remap {
          mapped := Text(remap[id]);
        } else {
          mapped, dropped := Null, [id];
        }
      case _ => mapped := value;
    }
  }

  /** The judged fields an import carries into the table. */
  function Carried(shape: Shape, collection: string, judged: map<string, Value>): set<string> {
    set f | f in judged && f in shape.columns(collection) && f !in NEVER_CARRIED
  }

  function FieldsOf(shape: Shape, collection: string, judged: map<string, Value>, remap: map<string, string>)
    : map<string, Value>
  {
    map f | f in Carried(shape, collection, judged) ::
      if f in shape.references then RemappedValue(judged[f], remap) else judged[f]
  }

  /** The ids the row's references name. */
  function NamedBy(shape: Shape, collection: string, judged: map<string, Value>): set<string> {
    set f, id | f in Carried(shape, collection, judged) && f in shape.references && id in NamesIn(judged[f]) :: id
  }

  /** The fields carried among those `done`, and the ids their references name. */
  function FieldsAmong(shape: Shape, collection: string, judged: map<string, Value>, remap: map<string, string>,
                       done: set<string>): map<string, Value>
  {
    map f | f in Carried(shape, collection, judged) && f in done ::
      if f in shape.references then RemappedValue(judged[f], remap) else judged[f]
  }

  function NamedAmong(shape: Shape, collection: string, judged: map<string, Value>, done: set<string>): set<string> {
    set f, id | f in Carried(shape, collection, judged) && f in done && f in shape.references
                && id in NamesIn(judged[f]) :: id
  }

  lemma AllAreAmongAll(shape: Shape, collection: string, judged: map<string, Value>, remap: map<string, string>)
    ensures FieldsAmong(shape, collection, judged, remap, judged.Keys) == FieldsOf(shape, collection, judged, remap)
    ensures NamedAmong(shape, collection, judged, judged.Keys) == NamedBy(shape, collection, judged)
  {}

  lemma OneMoreField(shape: Shape, collection: string, judged: map<string, Value>, remap: map<string, string>,
                     done: set<string>, key: string)
    requires key in judged
    ensures var before := FieldsAmong(shape, collection, judged, remap, done);
            FieldsAmong(shape, collection, judged, remap, done + {key}) ==
              if key !in Carried(shape, collection, judged) then before
              else before[key := if key in shape.references then RemappedValue(judged[key], remap) else judged[key]]
    ensures NamedAmong(shape, collection, judged, done + {key})
         == NamedAmong(shape, collection, judged, done)
            + (if key in Carried(shape, collection, judged) && key in shape.references
               then NamesIn(judged[key]) else {})
  {
    hide RemappedValue, NamesIn;
  }

  /** The row's fields under `remap`, and the ids they name that it does not hold. */
  method CarryFields(shape: Shape, collection: string, judged: map<string, Value>, remap: map<string, string>)
    returns (values: map<string, Value>, dropped: set<string>)
    ensures values == FieldsOf(shape, collection, judged, remap)
    ensures dropped == NamedBy(shape, collection, judged) - remap.Keys
  {
    hide RemappedValue, NamesIn, UnknownIn, FieldsOf, NamedBy, FieldsAmong, NamedAmong;
    values, dropped := map[], {};
    var left := judged.Keys;
    ghost var done: set<string> := {};
    NoFieldYet(shape, collection, judged, remap);
    while left != {}
      invariant done + left == judged.Keys
      invariant values == FieldsAmong(shape, collection, judged, remap, done)
      invariant dropped == NamedAmong(shape, collection, judged, done) - remap.Keys
      decreases left
    {
      var key :| key in left;
      OneMoreField(shape, collection, judged, remap, done, key);
      left, done := left - {key}, done + {key};
      if key in NEVER_CARRIED || key !in shape.columns(collection) { continue; }
      if key !in shape.references {
        values := values[key := judged[key]];
        continue;
      }
      var mapped, lost := Remapped(judged[key], remap);
      values := values[key := mapped];
      dropped := dropped + (set id | id in lost);
    }
    assert done == judged.Keys;
    AllAreAmongAll(shape, collection, judged, remap);
  }

  lemma NoFieldYet(shape: Shape, collection: string, judged: map<string, Value>, remap: map<string, string>)
    ensures FieldsAmong(shape, collection, judged, remap, {}) == map[]
    ensures NamedAmong(shape, collection, judged, {}) == {}
  {}

  /** An evidence row naming a digest the archive did not carry. */
  predicate MissesItsFile(t: Tabled, held: set<string>) {
    TableOf(t) == "evidence" && HashOf(t.row) != "" && HashOf(t.row) !in held
  }

  function Field(fields: map<string, Value>, name: string): Value { if name in fields then fields[name] else Null }

  function Moment(value: Value): Value { if value.When? then value else Null }

  function LifecycleOf(fields: map<string, Value>): Lifecycle {
    Lifecycle(Moment(Field(fields, "sentAt")), Field(fields, "frozen"), Moment(Field(fields, "frozenAt")))
  }

  function WithLifecycle(fields: map<string, Value>, life: Lifecycle): map<string, Value> {
    fields["sentAt" := life.sentAt]["frozen" := life.frozen]["frozenAt" := life.frozenAt]
  }

  const UNSENT := Lifecycle(Null, Null, Null)

  /** The row as it is first written: an absent file's date cleared, a report's lifecycle held back. */
  function Settled(t: Tabled, fields: map<string, Value>, held: set<string>): map<string, Value> {
    var dated := if MissesItsFile(t, held) then fields["storedAt" := Null] else fields;
    if TableOf(t) == "reports" then WithLifecycle(dated, UNSENT) else dated
  }

  // --- Every row ------------------------------------------------------------

  datatype Loading = Loading(remap: map<string, string>, written: seq<Written>, unresolved: set<string>,
                             missingFiles: nat, stamps: map<string, Lifecycle>)

  const EMPTY := Loading(map[], [], {}, 0, map[])

  function Judged(shape: Shape, t: Tabled): Option<map<string, Value>> {
    if t.at < |TABLES| then shape.judge(TABLES[t.at], t.row) else None
  }

  /** One row loaded, or refused by its shape or by the store. */
  function LoadRow(shape: Shape, mint: Mint, held: set<string>, s: Loading, t: Tabled): Option<Loading> {
    var judged := Judged(shape, t);
    if judged.None? then None
    else
      var collection, id := TABLES[t.at], mint(|s.written|);
      var fields := FieldsOf(shape, collection, judged.value, s.remap);
      var settled := Settled(t, fields, held);
      if !shape.accepts(collection, settled) then None
      else
        Some(Loading(
          if t.row.id.Some? then s.remap[t.row.id.value := id] else s.remap,
          s.written + [Written(id, collection, settled)],
          s.unresolved + (NamedBy(shape, collection, judged.value) - s.remap.Keys),
          s.missingFiles + (if MissesItsFile(t, held) then 1 else 0),
          if collection == "reports" then s.stamps[id := LifecycleOf(fields)] else s.stamps))
  }

  function LoadRows(shape: Shape, mint: Mint, held: set<string>, rows: seq<Tabled>): Option<Loading>
    decreases rows
  {
    if rows == [] then Some(EMPTY)
    else
      var s := LoadRows(shape, mint, held, rows[..|rows| - 1]);
      if s.None? then None else LoadRow(shape, mint, held, s.value, rows[|rows| - 1])
  }

  /** The rows of the first `n` tables, in the order they are written. */
  function RowsOfTables(record: Record, n: nat): seq<Tabled>
    requires n <= |TABLES|
  {
    if n == 0 then [] else RowsOfTables(record, n - 1) + Tag(n - 1, RowsOf(record, TABLES[n - 1]))
  }

  function Tag(at: nat, rows: seq<Row>): seq<Tabled>
    ensures |Tag(at, rows)| == |rows| && forall i :: 0 <= i < |rows| ==> Tag(at, rows)[i] == Tabled(at, rows[i])
  {
    seq(|rows|, i requires 0 <= i < |rows| => Tabled(at, rows[i]))
  }

  function InOrder(record: Record): seq<Tabled> { RowsOfTables(record, |TABLES|) }

  /** Each report's lifecycle, written once its parts are in. */
  function Preserved(written: seq<Written>, stamps: map<string, Lifecycle>): seq<Written>
    ensures |Preserved(written, stamps)| == |written|
  {
    seq(|written|, i requires 0 <= i < |written| =>
      if written[i].id in stamps then written[i].(fields := WithLifecycle(written[i].fields, stamps[written[i].id]))
      else written[i])
  }

  predicate LifecyclesStand(shape: Shape, stamps: map<string, Lifecycle>) {
    forall id :: id in stamps && stamps[id] != UNSENT ==> shape.preserves(stamps[id])
  }

  datatype Outcome =
    | Imported(written: seq<Written>, rows: nat, missingFiles: nat, unresolvedReferences: nat)
    | TooManyRows
    | Refused

  function ImportOf(shape: Shape, mint: Mint, held: set<string>, record: Record, ceiling: nat): Outcome {
    if RowsIn(record) > ceiling then TooManyRows
    else
      match LoadRows(shape, mint, held, InOrder(record))
      case None => Refused
      case Some(s) =>
        if !LifecyclesStand(shape, s.stamps) then Refused
        else Imported(Preserved(s.written, s.stamps), |s.written|, s.missingFiles, |s.unresolved|)
  }

  lemma {:induction false} ARefusalIsFinal(shape: Shape, mint: Mint, held: set<string>, rows: seq<Tabled>, n: nat)
    requires n <= |rows| && LoadRows(shape, mint, held, rows[..n]).None?
    ensures LoadRows(shape, mint, held, rows).None?
    decreases |rows|
  {
    hide LoadRow;
    if n == |rows| {
      assert rows[..n] == rows;
    } else {
      assert rows[..|rows| - 1][..n] == rows[..n];
      ARefusalIsFinal(shape, mint, held, rows[..|rows| - 1], n);
    }
  }

  lemma {:induction false} TablesComeInOrder(record: Record, n: nat, m: nat)
    requires n <= m <= |TABLES|
    ensures RowsOfTables(record, n) <= RowsOfTables(record, m)
  {
    if n < m { TablesComeInOrder(record, n, m - 1); }
  }

  lemma OneMoreRow(shape: Shape, mint: Mint, held: set<string>, rows: seq<Tabled>, k: nat)
    requires k < |rows| && LoadRows(shape, mint, held, rows[..k]).Some?
    ensures LoadRows(shape, mint, held, rows[..k + 1])
         == LoadRow(shape, mint, held, LoadRows(shape, mint, held, rows[..k]).value, rows[k])
  {
    hide LoadRow;
    assert rows[..k + 1][..k] == rows[..k];
  }

  /** One table's rows, after the rows of the tables before it. */
  method LoadTable(shape: Shape, mint: Mint, held: set<string>, n: nat, incoming: seq<Row>, before: Loading,
                   ghost rows: seq<Tabled>) returns (s: Option<Loading>)
    requires n < |TABLES| && LoadRows(shape, mint, held, rows) == Some(before)
    ensures s == LoadRows(shape, mint, held, rows + Tag(n, incoming))
  {
    hide LoadRow, LoadRows, Tag;
    ghost var all := rows + Tag(n, incoming);
    var loading := before;
    assert all[..|rows|] == rows;
    for i := 0 to |incoming|
      invariant LoadRows(shape, mint, held, all[..|rows| + i]) == Some(loading)
    {
      OneMoreRow(shape, mint, held, all, |rows| + i);
      var next := LoadOneRow(shape, mint, held, loading, Tabled(n, incoming[i]));
      if next.None? {
        ARefusalIsFinal(shape, mint, held, all, |rows| + i + 1);
        return None;
      }
      loading := next.value;
    }
    assert all[..|all|] == all;
    s := Some(loading);
  }

  /** The row loop, table by table. */
  method LoadEveryRow(shape: Shape, mint: Mint, held: set<string>, record: Record) returns (s: Option<Loading>)
    ensures s == LoadRows(shape, mint, held, InOrder(record))
  {
    hide RowsOf, LoadRow, Tag, LoadRows;
    var loading := EMPTY;
    NothingLoaded(shape, mint, held, record);
    for n := 0 to |TABLES|
      invariant LoadRows(shape, mint, held, RowsOfTables(record, n)) == Some(loading)
    {
      var next := LoadTable(shape, mint, held, n, RowsOf(record, TABLES[n]), loading, RowsOfTables(record, n));
      if next.None? {
        TablesComeInOrder(record, n + 1, |TABLES|);
        ghost var rows := RowsOfTables(record, n + 1);
        assert InOrder(record)[..|rows|] == rows;
        ARefusalIsFinal(shape, mint, held, InOrder(record), |rows|);
        return None;
      }
      loading := next.value;
    }
    s := Some(loading);
  }

  lemma NothingLoaded(shape: Shape, mint: Mint, held: set<string>, record: Record)
    ensures LoadRows(shape, mint, held, RowsOfTables(record, 0)) == Some(EMPTY)
  {}

  method LoadOneRow(shape: Shape, mint: Mint, held: set<string>, s: Loading, t: Tabled) returns (next: Option<Loading>)
    requires t.at < |TABLES|
    ensures next == LoadRow(shape, mint, held, s, t)
  {
    hide FieldsOf, NamedBy;
    var collection := TABLES[t.at];
    var judged := shape.judge(collection, t.row);
    if judged.None? { return None; }
    var values, dropped := CarryFields(shape, collection, judged.value, s.remap);
    var missingFiles, stamps := s.missingFiles, s.stamps;
    var life := LifecycleOf(values);
    if collection == "evidence" && HashOf(t.row) != "" && HashOf(t.row) !in held {
      missingFiles := missingFiles + 1;
      values := values["storedAt" := Null];
    }
    if collection == "reports" { values := WithLifecycle(values, UNSENT); }
    if !shape.accepts(collection, values) { return None; }
    var id := mint(|s.written|);
    var remap := if t.row.id.Some? then s.remap[t.row.id.value := id] else s.remap;
    if collection == "reports" { stamps := stamps[id := life]; }
    next := Some(Loading(remap, s.written + [Written(id, collection, values)], s.unresolved + dropped,
                         missingFiles, stamps));
  }

  /** The whole read: the ceiling before anything, the rows, then every lifecycle. */
  method Load(shape: Shape, mint: Mint, held: set<string>, record: Record, ceiling: nat) returns (r: Outcome)
    ensures r == ImportOf(shape, mint, held, record, ceiling)
  {
    hide LoadRows, InOrder;
    if RowsIn(record) > ceiling { return TooManyRows; }
    var loaded := LoadEveryRow(shape, mint, held, record);
    if loaded.None? { return Refused; }
    var s := loaded.value;
    var left := s.stamps.Keys;
    while left != {}
      invariant left <= s.stamps.Keys
      invariant forall id :: id in s.stamps && id !in left && s.stamps[id] != UNSENT ==> shape.preserves(s.stamps[id])
      decreases left
    {
      var id :| id in left;
      left := left - {id};
      if s.stamps[id] != UNSENT && !shape.preserves(s.stamps[id]) { return Refused; }
    }
    r := Imported(Preserved(s.written, s.stamps), |s.written|, s.missingFiles, |s.unresolved|);
  }
}
