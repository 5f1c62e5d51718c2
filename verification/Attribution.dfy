/**
 * Who last wrote each row of a case: the newest-first scan of the change feed,
 * against a replay of the feed in the order it was written.
 */
module Attribution {
  import opened Wrappers

  datatype Op = Insert | Update | Delete

  /** One line of the feed, with the account joined to it: a name, an address or an id, any of them absent. */
  datatype Change = Change(entity: string, entityId: string, op: Op, version: nat, at: Time,
                           name: Option<string>, email: Option<string>, actorId: Option<string>)

  datatype Stamp = Stamp(table: string, entryId: string, author: string, at: int, version: nat)

  /** The key the scan keeps: the two joined with a colon. */
  function KeyOf(entity: string, entityId: string): string { entity + ":" + entityId }

  predicate Blank(c: char) { c in " \t\n\r" }

  function Trimmed(s: string): string
    decreases |s|
  {
    if s == "" then s
    else if Blank(s[0]) then Trimmed(s[1..])
    else if Blank(s[|s| - 1]) then Trimmed(s[..|s| - 1])
    else s
  }

  predicate Filled(s: Option<string>) { s.Some? && s.value != "" }

  function StampOf(c: Change): Stamp {
    var author := if c.name.Some? && Trimmed(c.name.value) != "" then Trimmed(c.name.value)
              else if Filled(c.email) then c.email.value
              else if c.actorId.Some? then c.actorId.value else "";
    Stamp(c.entity, c.entityId, author, c.at / 1000, c.version)
  }

  type Stamps = map<string, Stamp>

  /** The feed replayed as it was written: a write stamps its row, a delete removes the stamp. */
  function Replay(feed: seq<Change>): Stamps
    decreases feed
  {
    if feed == [] then map[]
    else
      var last := feed[|feed| - 1];
      var before, key := Replay(feed[..|feed| - 1]), KeyOf(last.entity, last.entityId);
      if last.op == Delete then before - {key} else before[key := StampOf(last)]
  }

  /** The feed from its newest line back. */
  function NewestFirst(feed: seq<Change>): seq<Change>
    decreases feed
  {
    if feed == [] then [] else [feed[|feed| - 1]] + NewestFirst(feed[..|feed| - 1])
  }

  function KeysIn(rows: seq<Stamp>): set<string> { set s | s in rows :: KeyOf(s.table, s.entryId) }

  /** The rows as the client holds them, one entry a key. */
  function ByKey(rows: seq<Stamp>): Stamps
    decreases rows
  {
    if rows == [] then map[]
    else
      var last := rows[|rows| - 1];
      ByKey(rows[..|rows| - 1])[KeyOf(last.table, last.entryId) := last]
  }

  ghost predicate OneEach(rows: seq<Stamp>) {
    forall i, j :: 0 <= i < j < |rows| ==>
      KeyOf(rows[i].table, rows[i].entryId) != KeyOf(rows[j].table, rows[j].entryId)
  }

  /** What the lines not yet scanned would still add: their replay, less the rows already settled. */
  function Unsettled(feed: seq<Change>, seen: set<string>): Stamps { Replay(feed) - seen }

  lemma ByKeyOfOneMore(rows: seq<Stamp>, stamp: Stamp)
    ensures ByKey(rows + [stamp]) == ByKey(rows)[KeyOf(stamp.table, stamp.entryId) := stamp]
    ensures ByKey(rows).Keys == KeysIn(rows)
    decreases rows
  {
    assert (rows + [stamp])[..|rows|] == rows;
    if rows != [] {
      ByKeyOfOneMore(rows[..|rows| - 1], rows[|rows| - 1]);
      assert rows[..|rows| - 1] + [rows[|rows| - 1]] == rows;
    }
  }

  /** The newest unscanned line settles its row: whatever came earlier for it no longer matters. */
  lemma TheNewestLineSettlesItsRow(feed: seq<Change>, seen: set<string>)
    requires feed != []
    ensures var last := feed[|feed| - 1];
            var before, key := feed[..|feed| - 1], KeyOf(last.entity, last.entityId);
            Unsettled(feed, seen) ==
              if key in seen then Unsettled(before, seen)
              else if last.op == Delete then Unsettled(before, seen + {key})
              else Unsettled(before, seen + {key})[key := StampOf(last)]
  {}

  /**
   * The scan: newest first, passing over rows already seen. It builds what the
   * replay builds, and every row once.
   */
  method StampsOf(newest: seq<Change>, ghost feed: seq<Change>) returns (rows: seq<Stamp>)
    requires newest == NewestFirst(feed)
    ensures ByKey(rows) == Replay(feed)
    ensures OneEach(rows)
  {
    hide Replay, NewestFirst, ByKey, StampOf, Unsettled;
    var seen: set<string> := {};
    rows := [];
    NothingSettledYet(feed);
    ghost var left := feed;
    for n := 0 to |newest|
      invariant newest[n..] == NewestFirst(left)
      invariant KeysIn(rows) <= seen && OneEach(rows)
      invariant ByKey(rows) + Unsettled(left, seen) == Replay(feed)
    {
      var row := newest[n];
      TheNewestIsNext(newest, n, left);
      var key := KeyOf(row.entity, row.entityId);
      TheNewestLineSettlesItsRow(left, seen);
      AStampIsForItsRow(row);
      ByKeyOfOneMore(rows, StampOf(row));
      left := left[..|left| - 1];
      if key in seen { continue; }
      seen := seen + {key};
      if row.op == Delete { continue; }
      SettledRowsAreGone(left, seen, key);
      AddingANewKey(ByKey(rows), Unsettled(left, seen), key, StampOf(row));
      rows := rows + [StampOf(row)];
    }
    assert newest[|newest|..] == [];
    NothingLeft(left, seen);
  }

  lemma NothingSettledYet(feed: seq<Change>)
    ensures ByKey([]) + Unsettled(feed, {}) == Replay(feed)
  {}

  lemma NothingLeft(left: seq<Change>, seen: set<string>)
    requires NewestFirst(left) == []
    ensures left == [] && Unsettled(left, seen) == map[]
  {}

  lemma AStampIsForItsRow(row: Change)
    ensures KeyOf(StampOf(row).table, StampOf(row).entryId) == KeyOf(row.entity, row.entityId)
  {}

  lemma SettledRowsAreGone(left: seq<Change>, seen: set<string>, key: string)
    requires key in seen
    ensures key !in Unsettled(left, seen)
  {}

  lemma TheNewestIsNext(newest: seq<Change>, n: nat, left: seq<Change>)
    requires n < |newest| && newest[n..] == NewestFirst(left)
    ensures left != [] && newest[n] == left[|left| - 1] && newest[n + 1..] == NewestFirst(left[..|left| - 1])
  {
    assert newest[n..] == [left[|left| - 1]] + NewestFirst(left[..|left| - 1]);
    assert newest[n..][1..] == newest[n + 1..];
  }

  lemma AddingANewKey(done: Stamps, rest: Stamps, key: string, stamp: Stamp)
    requires key !in done && key !in rest
    ensures done + rest[key := stamp] == done[key := stamp] + rest
  {}

  lemma TheFirstColonEndsTheTable(entity: string, id: string)
    requires ':' !in entity
    ensures var key := KeyOf(entity, id);
            |entity| < |key| && key[|entity|] == ':' && forall k :: 0 <= k < |entity| ==> key[k] != ':'
  {}

  /** With no colon in a table's name, the key tells every row from every other. */
  lemma {:induction false} KeysTellRowsApart(entity: string, id: string, entity': string, id': string)
    requires ':' !in entity && ':' !in entity' && KeyOf(entity, id) == KeyOf(entity', id')
    ensures entity == entity' && id == id'
  {
    var key := KeyOf(entity, id);
    TheFirstColonEndsTheTable(entity, id);
    TheFirstColonEndsTheTable(entity', id');
    assert key[..|entity|] == entity && key[|entity| + 1..] == id;
    assert key[..|entity'|] == entity' && key[|entity'| + 1..] == id';
  }

  /** A row is stamped exactly when its last line in the feed is not a delete, and then with that line. */
  lemma {:induction false} ReplayKeepsTheLastWrite(feed: seq<Change>, key: string, n: nat)
    requires n < |feed| && KeyOf(feed[n].entity, feed[n].entityId) == key
    requires forall m :: n < m < |feed| ==> KeyOf(feed[m].entity, feed[m].entityId) != key
    ensures key in Replay(feed) <==> feed[n].op != Delete
    ensures key in Replay(feed) ==> Replay(feed)[key] == StampOf(feed[n])
    decreases feed
  {
    hide StampOf;
    if n < |feed| - 1 { ReplayKeepsTheLastWrite(feed[..|feed| - 1], key, n); }
  }

  // --- The stamps, line by line -------------------------------------------------

  lemma {:induction false} NewestFirstIsBackwards(feed: seq<Change>)
    ensures |NewestFirst(feed)| == |feed|
    ensures forall i :: 0 <= i < |feed| ==> NewestFirst(feed)[i] == feed[|feed| - 1 - i]
    decreases feed
  {
    if feed != [] { NewestFirstIsBackwards(feed[..|feed| - 1]); }
  }

  ghost predicate AllBlank(s: string) {
    forall i :: 0 <= i < |s| ==> s[i] == ' ' || s[i] == '\t' || s[i] == '\n' || s[i] == '\r'
  }

  /** From `i` to `j` is what is left of `s` without the blanks at its ends. */
  ghost predicate IsWithoutBlanks(s: string, i: nat, j: nat) {
    && i <= j <= |s| && AllBlank(s[..i]) && AllBlank(s[j..])
    && (i < j ==> !Blank(s[i]) && !Blank(s[j - 1]))
  }

  lemma ABlankInFront(s: string, i: nat, j: nat)
    requires s != "" && Blank(s[0]) && IsWithoutBlanks(s[1..], i, j)
    ensures IsWithoutBlanks(s, i + 1, j + 1) && s[1..][i..j] == s[i + 1..j + 1]
  {
    assert s[1..][j..] == s[j + 1..];
    assert s[..i + 1] == [s[0]] + s[1..][..i];
  }

  lemma ABlankBehind(s: string, i: nat, j: nat)
    requires s != "" && Blank(s[|s| - 1]) && IsWithoutBlanks(s[..|s| - 1], i, j)
    ensures IsWithoutBlanks(s, i, j) && s[..|s| - 1][i..j] == s[i..j]
  {
    var last := |s| - 1;
    assert s[..last][..i] == s[..i];
    assert s[j..] == s[..last][j..] + [s[last]];
  }

  /** What is trimmed is blank, all of it, and what is left neither starts nor ends so. */
  lemma {:induction false} TrimmingTakesTheBlanks(s: string) returns (i: nat, j: nat)
    ensures IsWithoutBlanks(s, i, j) && Trimmed(s) == s[i..j]
    decreases s
  {
    if s == "" {
      i, j := 0, 0;
    } else if Blank(s[0]) {
      i, j := TrimmingTakesTheBlanks(s[1..]);
      ABlankInFront(s, i, j);
      i, j := i + 1, j + 1;
    } else if Blank(s[|s| - 1]) {
      i, j := TrimmingTakesTheBlanks(s[..|s| - 1]);
      ABlankBehind(s, i, j);
    } else {
      i, j := 0, |s|;
      assert s[0..|s|] == s;
    }
  }

  lemma OnlyBlanksTrimToNothing(s: string)
    ensures Trimmed(s) == "" <==> AllBlank(s)
  {
    var i, j := TrimmingTakesTheBlanks(s);
    if i == j { assert s == s[..i] + s[j..]; }
  }

  /**
   * A stamp is its line's row and version, the second the line was written in,
   * and the account's name trimmed, or where that is blank its address, or
   * where there is none its id, or nothing.
   */
  ghost predicate IsStampOf(c: Change, s: Stamp) {
    && s.table == c.entity && s.entryId == c.entityId && s.version == c.version
    && 1000 * s.at <= c.at < 1000 * s.at + 1000
    && s.author ==
         if c.name.Some? && !AllBlank(c.name.value) then Trimmed(c.name.value)
         else if c.email.Some? && c.email.value != "" then c.email.value
         else if c.actorId.Some? then c.actorId.value
         else ""
  }

  lemma StampsAreOfTheirLines(c: Change, s: Stamp)
    ensures IsStampOf(c, s) <==> s == StampOf(c)
  {
    hide Trimmed, AllBlank;
    if c.name.Some? { OnlyBlanksTrimToNothing(c.name.value); }
  }

  /** The last line of its row in the feed. */
  ghost predicate IsLast(feed: seq<Change>, n: nat) {
    n < |feed| && forall m :: n < m < |feed| ==>
      KeyOf(feed[m].entity, feed[m].entityId) != KeyOf(feed[n].entity, feed[n].entityId)
  }

  lemma {:induction false} EveryStampHasALine(feed: seq<Change>, key: string) returns (n: nat)
    requires key in Replay(feed)
    ensures IsLast(feed, n) && KeyOf(feed[n].entity, feed[n].entityId) == key && feed[n].op != Delete
    decreases feed
  {
    hide StampOf, KeyOf;
    var last := |feed| - 1;
    if KeyOf(feed[last].entity, feed[last].entityId) == key {
      n := last;
    } else {
      n := EveryStampHasALine(feed[..last], key);
    }
  }

  lemma {:induction false} HeldUnderItsKey(rows: seq<Stamp>, k: nat)
    requires OneEach(rows) && k < |rows|
    ensures var key := KeyOf(rows[k].table, rows[k].entryId); key in ByKey(rows) && ByKey(rows)[key] == rows[k]
    decreases rows
  {
    hide KeyOf;
    if k < |rows| - 1 { HeldUnderItsKey(rows[..|rows| - 1], k); }
  }

  lemma {:induction false} EveryKeyIsARow(rows: seq<Stamp>, key: string) returns (k: nat)
    requires key in ByKey(rows)
    ensures k < |rows| && rows[k] == ByKey(rows)[key]
    decreases rows
  {
    hide KeyOf;
    var last := |rows| - 1;
    if KeyOf(rows[last].table, rows[last].entryId) == key {
      k := last;
    } else {
      k := EveryKeyIsARow(rows[..last], key);
    }
  }

  /** The answer holds the stamp of each row's last line that is no delete, and nothing else. */
  lemma TheAnswerIsTheLastWrites(feed: seq<Change>, rows: seq<Stamp>, stamp: Stamp)
    requires ByKey(rows) == Replay(feed) && OneEach(rows)
    ensures stamp in rows <==>
              exists n :: 0 <= n < |feed| && IsLast(feed, n) && feed[n].op != Delete && IsStampOf(feed[n], stamp)
  {
    hide Replay, ByKey, StampOf, IsStampOf, KeyOf;
    if stamp in rows {
      var k :| 0 <= k < |rows| && rows[k] == stamp;
      HeldUnderItsKey(rows, k);
      var key := KeyOf(stamp.table, stamp.entryId);
      var n := EveryStampHasALine(feed, key);
      ReplayKeepsTheLastWrite(feed, key, n);
      StampsAreOfTheirLines(feed[n], stamp);
    }
    if n :| 0 <= n < |feed| && IsLast(feed, n) && feed[n].op != Delete && IsStampOf(feed[n], stamp) {
      var key := KeyOf(feed[n].entity, feed[n].entityId);
      ReplayKeepsTheLastWrite(feed, key, n);
      StampsAreOfTheirLines(feed[n], stamp);
      var k := EveryKeyIsARow(rows, key);
    }
  }
}
