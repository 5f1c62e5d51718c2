/** Which artefacts an export carries, and which it names as lost. */
module CaseExport {
  import opened ArchiveFormat
  import opened CaseRecord

  type Store = map<Digest, Bytes>

  const EVIDENCE_PREFIX := "evidence/"
  const CASE_NAME := "case.json"
  const PROSE_PREFIX := "prose/"

  /** The members that are not artefacts: the record, and each document that reads as something. */
  predicate IsRecordMember(name: string) { name == CASE_NAME || PROSE_PREFIX <= name }

  function MemberName(hash: Digest): string { EVIDENCE_PREFIX + hash }

  function Carried(hash: Digest, bytes: Bytes): Member { Member(MemberName(hash), bytes) }

  /** The digests the rows name and say are held. */
  function Recorded(evidence: seq<Row>): set<Digest> {
    set row | row in evidence && SaysStored(row) && HashOf(row) != "" :: HashOf(row)
  }

  /** The first row of each digest that is recorded and not in the store. */
  function Lost(evidence: seq<Row>, store: Store): seq<Row>
    decreases evidence
  {
    if evidence == [] then []
    else
      var earlier, row := evidence[..|evidence| - 1], evidence[|evidence| - 1];
      Lost(earlier, store)
      + (if SaysStored(row) && HashOf(row) != "" && HashOf(row) !in Recorded(earlier) && HashOf(row) !in store
         then [row] else [])
  }

  /** What the answer calls it: the row's name, or its digest. */
  function Called(row: Row): string { if NameOf(row) != "" then NameOf(row) else HashOf(row) }

  function CalledAll(rows: seq<Row>): seq<string>
    ensures |CalledAll(rows)| == |rows|
  {
    seq(|rows|, i requires 0 <= i < |rows| => Called(rows[i]))
  }

  ghost predicate IsArtefact(member: Member, hashes: set<Digest>, store: Store) {
    exists h :: h in hashes && h in store && member == Carried(h, store[h])
  }

  /** The artefacts among the members: each once, with the store's bytes. */
  ghost predicate Artefacts(members: seq<Member>, hashes: set<Digest>, store: Store) {
    && (forall i :: 0 <= i < |members| ==> IsArtefact(members[i], hashes, store))
    && (forall h :: h in hashes && h in store ==> Carried(h, store[h]) in members)
    && (forall i, j :: 0 <= i < j < |members| ==> members[i].name != members[j].name)
  }

  lemma OneMoreArtefact(members: seq<Member>, hashes: set<Digest>, store: Store, h: Digest)
    requires Artefacts(members, hashes, store) && h !in hashes
    ensures h in store ==> Artefacts(members + [Carried(h, store[h])], hashes + {h}, store)
    ensures h !in store ==> Artefacts(members, hashes + {h}, store)
  {
    forall i | 0 <= i < |members|
      ensures IsArtefact(members[i], hashes + {h}, store) && members[i].name != MemberName(h)
    {
      assert IsArtefact(members[i], hashes, store);
      var g :| g in hashes && g in store && members[i] == Carried(g, store[g]);
      assert g in hashes + {h};
      MemberNamesDiffer(g, h);
    }
    if h in store {
      assert IsArtefact(Carried(h, store[h]), hashes + {h}, store);
      assert (members + [Carried(h, store[h])])[|members|] == Carried(h, store[h]);
    }
  }

  lemma MemberNamesDiffer(g: Digest, h: Digest)
    ensures MemberName(g) == MemberName(h) ==> g == h
  {
    assert MemberName(g)[|EVIDENCE_PREFIX|..] == g && MemberName(h)[|EVIDENCE_PREFIX|..] == h;
  }

  lemma RecordedOneMore(evidence: seq<Row>, n: nat)
    requires n < |evidence|
    ensures Recorded(evidence[..n + 1])
         == Recorded(evidence[..n])
            + (if SaysStored(evidence[n]) && HashOf(evidence[n]) != "" then {HashOf(evidence[n])} else {})
  {
    assert evidence[..n + 1] == evidence[..n] + [evidence[n]];
  }

  function FigureHashes(figures: seq<Digest>): set<Digest> { set h | h in figures }

  lemma FiguresOneMore(figures: seq<Digest>, n: nat)
    requires n < |figures|
    ensures FigureHashes(figures[..n + 1]) == FigureHashes(figures[..n]) + {figures[n]}
  {
    assert figures[..n + 1] == figures[..n] + [figures[n]];
  }

  lemma LostOneMore(evidence: seq<Row>, n: nat, store: Store)
    requires n < |evidence|
    ensures var row := evidence[n];
            CalledAll(Lost(evidence[..n + 1], store)) == CalledAll(Lost(evidence[..n], store))
              + (if SaysStored(row) && HashOf(row) != "" && HashOf(row) !in Recorded(evidence[..n])
                    && HashOf(row) !in store
                 then [Called(row)] else [])
  {
    hide SaysStored, HashOf, Recorded, Called;
    assert evidence[..n + 1][..n] == evidence[..n];
  }

  /** The evidence loop: what each digest is carried as, and what each loss is called. */
  method EvidenceArtefacts(evidence: seq<Row>, store: Store)
    returns (members: seq<Member>, omitted: seq<string>, seen: set<Digest>)
    ensures seen == Recorded(evidence) && Artefacts(members, seen, store)
    ensures omitted == CalledAll(Lost(evidence, store))
  {
    hide Artefacts, SaysStored, HashOf, Called, CalledAll, Lost, Recorded, Carried;
    NothingYet(evidence, store);
    members, omitted, seen := [], [], {};
    for n := 0 to |evidence|
      invariant seen == Recorded(evidence[..n])
      invariant Artefacts(members, seen, store)
      invariant omitted == CalledAll(Lost(evidence[..n], store))
    {
      var row := evidence[n];
      RecordedOneMore(evidence, n);
      LostOneMore(evidence, n, store);
      var hash := HashOf(row);
      if !SaysStored(row) || hash == "" || hash in seen { continue; }
      OneMoreArtefact(members, seen, store, hash);
      seen := seen + {hash};
      if hash !in store {
        omitted := omitted + [Called(row)];
        continue;
      }
      members := members + [Carried(hash, store[hash])];
    }
    assert evidence[..|evidence|] == evidence;
  }

  /** The figure loop, after the evidence; it names nothing lost. */
  method FigureArtefacts(figures: seq<Digest>, store: Store, carried: seq<Member>, before: set<Digest>)
    returns (members: seq<Member>)
    requires Artefacts(carried, before, store)
    ensures Artefacts(members, before + FigureHashes(figures), store)
  {
    hide Artefacts, FigureHashes, Carried;
    NoFigureYet(figures);
    members := carried;
    var seen := before;
    for n := 0 to |figures|
      invariant seen == before + FigureHashes(figures[..n])
      invariant Artefacts(members, seen, store)
    {
      var hash := figures[n];
      FiguresOneMore(figures, n);
      if hash in seen { continue; }
      OneMoreArtefact(members, seen, store, hash);
      seen := seen + {hash};
      if hash in store { members := members + [Carried(hash, store[hash])]; }
    }
    assert figures[..|figures|] == figures;
  }

  /**
   * What an export carries and names. Every digest a row says is held is
   * carried once or, where the store has not got it, named once; a figure's
   * artefact is carried where it is held. Without the files nothing is carried
   * or named.
   */
  method ArtefactsOf(evidence: seq<Row>, figures: seq<Digest>, includeFiles: bool, store: Store)
    returns (members: seq<Member>, omitted: seq<string>)
    ensures includeFiles ==> Artefacts(members, Recorded(evidence) + FigureHashes(figures), store)
    ensures includeFiles ==> omitted == CalledAll(Lost(evidence, store))
    ensures !includeFiles ==> members == [] && omitted == []
  {
    members, omitted := [], [];
    if includeFiles {
      hide Artefacts, CalledAll, Lost, Recorded, FigureHashes;
      var seen: set<Digest>;
      members, omitted, seen := EvidenceArtefacts(evidence, store);
      members := FigureArtefacts(figures, store, members, seen);
    }
  }

  lemma NoFigureYet(figures: seq<Digest>)
    ensures FigureHashes(figures[..0]) == {}
  {}

  lemma NothingYet(evidence: seq<Row>, store: Store)
    ensures Artefacts([], {}, store) && Recorded(evidence[..0]) == {}
    ensures CalledAll(Lost(evidence[..0], store)) == []
  {}

  function HashesOf(rows: seq<Row>): set<Digest> { set row | row in rows :: HashOf(row) }

  ghost predicate OnceEach(rows: seq<Row>) {
    forall i, j :: 0 <= i < j < |rows| ==> HashOf(rows[i]) != HashOf(rows[j])
  }

  lemma {:induction false} LossesAreTheUnheld(evidence: seq<Row>, store: Store)
    ensures HashesOf(Lost(evidence, store)) == Recorded(evidence) - store.Keys
    ensures OnceEach(Lost(evidence, store))
    decreases evidence
  {
    hide SaysStored, HashOf, Recorded;
    if evidence == [] {
      assert Recorded([]) == {} by { NothingRecorded(); }
    } else {
      var last := |evidence| - 1;
      LossesAreTheUnheld(evidence[..last], store);
      assert evidence[..last + 1] == evidence;
      RecordedOneMore(evidence, last);
      ANewLossIsNew(Lost(evidence[..last], store), evidence[last]);
    }
  }

  lemma NothingRecorded()
    ensures Recorded([]) == {}
  {}

  lemma ANewLossIsNew(rows: seq<Row>, row: Row)
    ensures HashesOf(rows + [row]) == HashesOf(rows) + {HashOf(row)}
    ensures OnceEach(rows) && HashOf(row) !in HashesOf(rows) ==> OnceEach(rows + [row])
    ensures HashesOf(rows + []) == HashesOf(rows) && rows + [] == rows
  {
    hide HashOf;
    var more := rows + [row];
    assert forall r :: r in more <==> r in rows || r == row;
  }

  lemma {:induction false} OnceEachCountsTheHashes(rows: seq<Row>)
    requires OnceEach(rows)
    ensures |HashesOf(rows)| == |rows|
    decreases rows
  {
    hide HashOf;
    if rows != [] {
      var last := |rows| - 1;
      OnceEachCountsTheHashes(rows[..last]);
      assert rows == rows[..last] + [rows[last]];
      ANewLossIsNew(rows[..last], rows[last]);
    }
  }

  /** A digest is named lost once, and exactly where it is recorded and not in the store. */
  lemma EachLossIsNamedOnce(evidence: seq<Row>, store: Store)
    ensures OnceEach(Lost(evidence, store))
    ensures HashesOf(Lost(evidence, store)) == Recorded(evidence) - store.Keys
    ensures |Lost(evidence, store)| == |Recorded(evidence) - store.Keys|
  {
    LossesAreTheUnheld(evidence, store);
    OnceEachCountsTheHashes(Lost(evidence, store));
  }

  // --- Each digest, on the rows themselves --------------------------------------

  /** The row says its bytes are held, and names this digest. */
  ghost predicate Records(row: Row, h: Digest) {
    && "storedAt" in row.fields
    && (row.fields["storedAt"].When? || (row.fields["storedAt"].Text? && row.fields["storedAt"].text != ""))
    && "hash" in row.fields && row.fields["hash"] == Text(h) && h != ""
  }

  /** What the row goes by: its name, or its digest where it has none. */
  ghost predicate GoesBy(row: Row, h: Digest, name: string) {
    if "name" in row.fields && row.fields["name"].Text? && row.fields["name"].text != ""
    then name == row.fields["name"].text else name == h
  }

  /** The `i`-th row is the first to record its digest, and the store has not got it. */
  ghost predicate IsLoss(evidence: seq<Row>, store: Store, i: nat, h: Digest)
    requires i < |evidence|
  {
    Records(evidence[i], h) && h !in store && forall j :: 0 <= j < i ==> !Records(evidence[j], h)
  }

  lemma RecordedAreRecords(evidence: seq<Row>, h: Digest)
    ensures h in Recorded(evidence) <==> exists i :: 0 <= i < |evidence| && Records(evidence[i], h)
  {
    if i :| 0 <= i < |evidence| && Records(evidence[i], h) {
      assert SaysStored(evidence[i]) && HashOf(evidence[i]) == h;
    }
    if h in Recorded(evidence) {
      var i :| 0 <= i < |evidence| && SaysStored(evidence[i]) && HashOf(evidence[i]) == h && h != "";
      assert Records(evidence[i], h);
    }
  }

  lemma CalledGoesBy(row: Row, h: Digest)
    requires Records(row, h)
    ensures HashOf(row) == h && SaysStored(row) && GoesBy(row, h, Called(row))
  {}

  lemma StoredAndNamedRecords(row: Row)
    requires SaysStored(row) && HashOf(row) != ""
    ensures Records(row, HashOf(row))
  {}

  ghost predicate IsALoss(evidence: seq<Row>, store: Store, row: Row) {
    exists i, h :: 0 <= i < |evidence| && IsLoss(evidence, store, i, h) && row == evidence[i]
  }

  ghost predicate NamesALoss(evidence: seq<Row>, store: Store, name: string) {
    exists i, h :: 0 <= i < |evidence| && IsLoss(evidence, store, i, h) && GoesBy(evidence[i], h, name)
  }

  /** Every loss is listed under its first row's name, and the list holds nothing else. */
  lemma {:induction false} LossesAreListed(evidence: seq<Row>, store: Store)
    ensures forall i, h :: 0 <= i < |evidence| && IsLoss(evidence, store, i, h) ==> evidence[i] in Lost(evidence, store)
    ensures forall k :: 0 <= k < |Lost(evidence, store)| ==> IsALoss(evidence, store, Lost(evidence, store)[k])
    decreases evidence
  {
    if evidence != [] {
      hide SaysStored, HashOf, Recorded, Records;
      var last := |evidence| - 1;
      var earlier, row := evidence[..last], evidence[last];
      LossesAreListed(earlier, store);
      forall i, h | 0 <= i < last ensures IsLoss(earlier, store, i, h) <==> IsLoss(evidence, store, i, h) {
        assert forall j :: 0 <= j < i ==> earlier[j] == evidence[j];
      }
      TheLastLoss(evidence, store);
      forall i, h | 0 <= i < |evidence| && IsLoss(evidence, store, i, h) ensures evidence[i] in Lost(evidence, store) {
        if i < last { assert earlier[i] == evidence[i] && earlier[i] in Lost(earlier, store); }
      }
      forall k | 0 <= k < |Lost(evidence, store)| ensures IsALoss(evidence, store, Lost(evidence, store)[k]) {
        if k < |Lost(earlier, store)| {
          assert IsALoss(earlier, store, Lost(earlier, store)[k]);
          var i, h :| 0 <= i < last && IsLoss(earlier, store, i, h) && Lost(earlier, store)[k] == earlier[i];
          assert IsLoss(evidence, store, i, h) && Lost(evidence, store)[k] == evidence[i];
        } else {
          assert Lost(evidence, store)[k] == evidence[last] && IsLoss(evidence, store, last, HashOf(row));
        }
      }
    }
  }

  lemma TheLastLoss(evidence: seq<Row>, store: Store)
    requires evidence != []
    ensures var last := |evidence| - 1;
            var row, earlier := evidence[last], evidence[..last];
            var h := HashOf(row);
            var lost := SaysStored(row) && h != "" && h !in Recorded(earlier) && h !in store;
            && (lost ==> IsLoss(evidence, store, last, h))
            && forall d :: IsLoss(evidence, store, last, d) ==> lost
  {
    var last := |evidence| - 1;
    var row, earlier := evidence[last], evidence[..last];
    if SaysStored(row) && HashOf(row) != "" { StoredAndNamedRecords(row); }
    RecordedAreRecords(earlier, HashOf(row));
    forall j | 0 <= j < last ensures earlier[j] == evidence[j] {}
    forall h | Records(row, h) ensures h == HashOf(row) && SaysStored(row) { CalledGoesBy(row, h); }
    hide SaysStored, HashOf, Records, Recorded;
    if j :| 0 <= j < last && Records(evidence[j], HashOf(row)) { assert Records(earlier[j], HashOf(row)); }
    if j :| 0 <= j < last && Records(earlier[j], HashOf(row)) { assert Records(evidence[j], HashOf(row)); }
  }

  /**
   * Every digest a row records is carried under its name with the store's
   * bytes, or its first row's name is listed; a figure's is carried where the
   * store has it; and nothing else is carried or listed.
   */
  lemma EveryDigestIsAccountedFor(evidence: seq<Row>, figures: seq<Digest>, store: Store,
                                  members: seq<Member>, omitted: seq<string>)
    requires Artefacts(members, Recorded(evidence) + FigureHashes(figures), store)
    requires omitted == CalledAll(Lost(evidence, store))
    ensures forall i, h :: 0 <= i < |evidence| && Records(evidence[i], h) && h in store ==>
              Member("evidence/" + h, store[h]) in members
    ensures forall h :: h in figures && h in store ==> Member("evidence/" + h, store[h]) in members
    ensures forall i, h :: 0 <= i < |evidence| && IsLoss(evidence, store, i, h) ==>
              exists name :: name in omitted && GoesBy(evidence[i], h, name)
    ensures forall m :: m in members ==>
              exists h :: h in store && m == Member("evidence/" + h, store[h])
                          && (h in figures || exists i :: 0 <= i < |evidence| && Records(evidence[i], h))
    ensures forall k :: 0 <= k < |omitted| ==> NamesALoss(evidence, store, omitted[k])
    ensures forall i, j :: 0 <= i < j < |members| ==> members[i].name != members[j].name
  {
    hide SaysStored, HashOf, Recorded, Records, Called, GoesBy, Lost, NameOf;
    var hashes := Recorded(evidence) + FigureHashes(figures);
    assert forall h :: MemberName(h) == "evidence/" + h;
    forall h ensures h in Recorded(evidence) <==> exists i :: 0 <= i < |evidence| && Records(evidence[i], h) {
      RecordedAreRecords(evidence, h);
    }
    LossesAreListed(evidence, store);
    forall i, h | 0 <= i < |evidence| && IsLoss(evidence, store, i, h)
      ensures GoesBy(evidence[i], h, Called(evidence[i]))
    {
      CalledGoesBy(evidence[i], h);
    }
    var lost := Lost(evidence, store);
    forall i, h | 0 <= i < |evidence| && IsLoss(evidence, store, i, h)
      ensures exists name :: name in omitted && GoesBy(evidence[i], h, name)
    {
      var k :| 0 <= k < |lost| && lost[k] == evidence[i];
      assert omitted[k] == Called(evidence[i]);
    }
    forall m | m in members
      ensures exists h :: h in store && m == Member("evidence/" + h, store[h])
                          && (h in figures || exists i :: 0 <= i < |evidence| && Records(evidence[i], h))
    {
      var k :| 0 <= k < |members| && members[k] == m;
      assert IsArtefact(members[k], hashes, store);
    }
    forall k | 0 <= k < |omitted| ensures NamesALoss(evidence, store, omitted[k]) {
      assert IsALoss(evidence, store, lost[k]) && omitted[k] == Called(lost[k]);
      var i, h :| 0 <= i < |evidence| && IsLoss(evidence, store, i, h) && lost[k] == evidence[i];
      assert GoesBy(evidence[i], h, omitted[k]);
    }
  }
}
