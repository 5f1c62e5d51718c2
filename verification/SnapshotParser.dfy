/**
 * Reading the controls out of an ARIA snapshot: one pass over the lines with a
 * stack, against the tree the indents describe.
 */
module SnapshotParser {
  import opened Wrappers

  /**
   * A line the pattern reads: its indent, its role's two properties, its role
   * and name, and the label it gives what is under it.
   */
  datatype Line = Line(indent: nat, interactive: bool, landmark: bool, role: string, name: string, title: string)

  /** A line as read: one that does not match is skipped. */
  datatype Reading = Skipped | Read(line: Line)

  datatype Node = Node(role: string, name: string, container: string, ordinal: nat)

  function Matching(readings: seq<Reading>): seq<Line>
    decreases readings
  {
    if readings == [] then []
    else
      var last := readings[|readings| - 1];
      Matching(readings[..|readings| - 1]) + (if last.Read? then [last.line] else [])
  }

  // --- The tree the indents describe --------------------------------------

  /** Line `j` is above line `i` in the tree: everything after `j` up to `i` is indented further. */
  predicate Above(lines: seq<Line>, j: int, i: int) {
    0 <= j < i < |lines| && forall k :: j < k <= i ==> lines[j].indent < lines[k].indent
  }

  /** The nearest landmark above line `i`, looking no further down than `below`. */
  function LandmarkBelow(lines: seq<Line>, i: nat, below: nat): (j: Option<nat>)
    requires i < |lines|
    ensures j.Some? ==> j.value < below && Above(lines, j.value, i)
  {
    if below == 0 then None
    else if Above(lines, below - 1, i) && lines[below - 1].landmark then Some(below - 1)
    else LandmarkBelow(lines, i, below - 1)
  }

  /** The landmark instance a line sits in, or none. */
  function Landmark(lines: seq<Line>, i: nat): Option<nat>
    requires i < |lines|
  {
    LandmarkBelow(lines, i, i)
  }

  /** It is above the line, a landmark, and no landmark above the line is nearer. */
  lemma {:induction false} LandmarkIsTheNearest(lines: seq<Line>, i: nat, below: nat)
    requires i < |lines|
    ensures match LandmarkBelow(lines, i, below)
            case Some(j) => j < below && Above(lines, j, i) && lines[j].landmark
                            && forall k: nat :: j < k < below && Above(lines, k, i) ==> !lines[k].landmark
            case None => forall k: nat :: k < below && Above(lines, k, i) ==> !lines[k].landmark
  {
    if below > 0 { LandmarkIsTheNearest(lines, i, below - 1); }
  }

  /** How many controls before line `upTo` sit in this landmark instance. */
  function ControlsIn(lines: seq<Line>, holder: Option<nat>, upTo: nat): nat
    requires upTo <= |lines|
  {
    if upTo == 0 then 0
    else ControlsIn(lines, holder, upTo - 1)
         + (if lines[upTo - 1].interactive && Landmark(lines, upTo - 1) == holder then 1 else 0)
  }

  function ContainerOf(lines: seq<Line>, i: nat): string
    requires i < |lines|
  {
    match Landmark(lines, i) case Some(j) => lines[j].title case None => ""
  }

  /** What the tree says of a control: its landmark's label, and the controls before it there. */
  function NodeAt(lines: seq<Line>, i: nat): Node
    requires i < |lines|
  {
    Node(lines[i].role, lines[i].name, ContainerOf(lines, i), ControlsIn(lines, Landmark(lines, i), i))
  }

  function NodesUpTo(lines: seq<Line>, upTo: nat): seq<Node>
    requires upTo <= |lines|
  {
    if upTo == 0 then []
    else NodesUpTo(lines, upTo - 1) + (if lines[upTo - 1].interactive then [NodeAt(lines, upTo - 1)] else [])
  }

  /** The ordinals of one landmark instance's controls, in line order. */
  function OrdinalsIn(lines: seq<Line>, holder: Option<nat>, upTo: nat): seq<nat>
    requires upTo <= |lines|
  {
    if upTo == 0 then []
    else OrdinalsIn(lines, holder, upTo - 1)
         + (if lines[upTo - 1].interactive && Landmark(lines, upTo - 1) == holder
            then [NodeAt(lines, upTo - 1).ordinal] else [])
  }

  /** Each landmark instance numbers its own controls 0, 1, 2 and so on, whatever else is between them. */
  lemma {:induction false} OrdinalsCountUp(lines: seq<Line>, holder: Option<nat>, upTo: nat)
    requires upTo <= |lines|
    ensures OrdinalsIn(lines, holder, upTo) == seq(ControlsIn(lines, holder, upTo), k => k)
  {
    if upTo > 0 {
      hide Landmark;
      OrdinalsCountUp(lines, holder, upTo - 1);
    }
  }

  // --- What the tree says, line by line ---------------------------------------

  /** The landmark line `i` sits in: everything after it up to `i` is indented further, and no such one is nearer. */
  ghost predicate SitsIn(lines: seq<Line>, i: nat, j: nat) {
    && j < i < |lines| && lines[j].landmark
    && (forall k :: j < k <= i ==> lines[j].indent < lines[k].indent)
    && forall m :: j < m < i && lines[m].landmark ==> exists k :: m < k <= i && lines[k].indent <= lines[m].indent
  }

  lemma LandmarkIsWhereItSits(lines: seq<Line>, i: nat, j: nat)
    requires i < |lines|
    ensures SitsIn(lines, i, j) <==> Landmark(lines, i) == Some(j)
  {
    LandmarkIsTheNearest(lines, i, i);
    if SitsIn(lines, i, j) {
      assert Above(lines, j, i);
    }
    if Landmark(lines, i) == Some(j) {
      forall m: nat | j < m < i && lines[m].landmark
        ensures exists k :: m < k <= i && lines[k].indent <= lines[m].indent
      {
        assert !Above(lines, m, i);
      }
    }
  }

  /** The controls before line `upTo` that sit in this landmark, or in none. */
  function Before(lines: seq<Line>, holder: Option<nat>, upTo: nat): set<nat> {
    set i: nat | i < upTo && i < |lines| && lines[i].interactive && Landmark(lines, i) == holder
  }

  lemma BeforeOneMore(lines: seq<Line>, holder: Option<nat>, n: nat)
    requires n < |lines|
    ensures |Before(lines, holder, n + 1)|
         == |Before(lines, holder, n)| + (if lines[n].interactive && Landmark(lines, n) == holder then 1 else 0)
  {
    hide Landmark;
    var more := if lines[n].interactive && Landmark(lines, n) == holder then {n} else {};
    assert Before(lines, holder, n + 1) == Before(lines, holder, n) + more;
  }

  lemma {:induction false} ControlsAreCounted(lines: seq<Line>, holder: Option<nat>, upTo: nat)
    requires upTo <= |lines|
    ensures ControlsIn(lines, holder, upTo) == |Before(lines, holder, upTo)|
    decreases upTo
  {
    hide Landmark, Before;
    if upTo == 0 {
      NothingBefore(lines, holder);
    } else {
      ControlsAreCounted(lines, holder, upTo - 1);
      BeforeOneMore(lines, holder, upTo - 1);
    }
  }

  lemma NothingBefore(lines: seq<Line>, holder: Option<nat>)
    ensures |Before(lines, holder, 0)| == 0
  {
    assert Before(lines, holder, 0) == {};
  }

  /** The controls before line `upTo`, whatever they sit in. */
  function ControlsBefore(lines: seq<Line>, upTo: nat): set<nat> {
    set i: nat | i < upTo && i < |lines| && lines[i].interactive
  }

  /** A control's node: its own role and name, its landmark's title, and how many of that landmark's are before it. */
  ghost predicate IsNodeOf(lines: seq<Line>, i: nat, node: Node) {
    && i < |lines| && node.role == lines[i].role && node.name == lines[i].name
    && (forall j: nat :: SitsIn(lines, i, j) ==>
          node.container == lines[j].title && node.ordinal == |Before(lines, Some(j), i)|)
    && ((forall j: nat :: !SitsIn(lines, i, j)) ==> node.container == "" && node.ordinal == |Before(lines, None, i)|)
  }

  lemma ANodeIsOfItsLine(lines: seq<Line>, i: nat)
    requires i < |lines|
    ensures IsNodeOf(lines, i, NodeAt(lines, i))
  {
    hide Landmark, SitsIn, ControlsIn, Before;
    forall j: nat ensures SitsIn(lines, i, j) <==> Landmark(lines, i) == Some(j) {
      LandmarkIsWhereItSits(lines, i, j);
    }
    ControlsAreCounted(lines, Landmark(lines, i), i);
  }

  lemma ControlsBeforeOneMore(lines: seq<Line>, upTo: nat)
    requires upTo < |lines|
    ensures |ControlsBefore(lines, upTo + 1)|
         == |ControlsBefore(lines, upTo)| + (if lines[upTo].interactive then 1 else 0)
  {
    var more := if lines[upTo].interactive then {upTo} else {};
    assert ControlsBefore(lines, upTo + 1) == ControlsBefore(lines, upTo) + more;
  }

  /** The answer holds a node for each control and no other, each where its line comes among the controls. */
  lemma {:induction false} TheAnswerIsTheControls(lines: seq<Line>, upTo: nat)
    requires upTo <= |lines|
    ensures |NodesUpTo(lines, upTo)| == |ControlsBefore(lines, upTo)|
    ensures forall i :: 0 <= i < upTo && lines[i].interactive ==>
              && |ControlsBefore(lines, i)| < |NodesUpTo(lines, upTo)|
              && IsNodeOf(lines, i, NodesUpTo(lines, upTo)[|ControlsBefore(lines, i)|])
    decreases upTo
  {
    hide IsNodeOf, NodeAt, ControlsBefore;
    if upTo == 0 {
      NoControlsYet(lines);
    } else {
      TheAnswerIsTheControls(lines, upTo - 1);
      ControlsBeforeOneMore(lines, upTo - 1);
      ANodeIsOfItsLine(lines, upTo - 1);
    }
  }

  lemma NoControlsYet(lines: seq<Line>)
    ensures |ControlsBefore(lines, 0)| == 0
  {
    assert ControlsBefore(lines, 0) == {};
  }

  /** The lines read are those that match, in order: what is read of one part and then of another. */
  lemma {:induction false} MatchingAddsUp(readings: seq<Reading>, more: seq<Reading>, line: Line)
    ensures Matching([Skipped]) == [] && Matching([Read(line)]) == [line]
    ensures Matching(readings + more) == Matching(readings) + Matching(more)
    decreases more
  {
    assert [Skipped][..0] == [] && [Read(line)][..0] == [];
    if more == [] {
      assert readings + more == readings;
    } else {
      MatchingAddsUp(readings, more[..|more| - 1], line);
      assert (readings + more)[..|readings + more| - 1] == readings + more[..|more| - 1];
    }
  }

  // --- The stack ----------------------------------------------------------

  datatype Entry = Entry(indent: nat, title: string, landmark: bool, count: nat)

  /** Lines still open after the first `n`: nothing since is indented no further. */
  ghost predicate Open(lines: seq<Line>, j: nat, n: nat)
    requires n <= |lines|
  {
    j < n && forall k :: j < k < n ==> lines[j].indent < lines[k].indent
  }

  /** `at` are the lines on the stack, from the bottom: every open one, in order. */
  ghost predicate OnStack(lines: seq<Line>, n: nat, at: seq<nat>)
    requires n <= |lines|
  {
    && (forall s :: 0 <= s < |at| ==> Open(lines, at[s], n))
    && (forall s, t :: 0 <= s < t < |at| ==> at[s] < at[t] && lines[at[s]].indent < lines[at[t]].indent)
    && (forall j: nat :: Open(lines, j, n) ==> j in at)
  }

  ghost predicate EntryFits(lines: seq<Line>, n: nat, j: nat, e: Entry)
    requires n <= |lines| && j < |lines|
  {
    e.indent == lines[j].indent && e.title == lines[j].title && e.landmark == lines[j].landmark
    && (e.landmark ==> e.count == ControlsIn(lines, Some(j), n))
  }

  /** The stack once line `n` has popped it: exactly the lines above line `n`. */
  ghost predicate PoppedTo(lines: seq<Line>, n: nat, at: seq<nat>)
    requires n < |lines|
  {
    && (forall s :: 0 <= s < |at| ==> Above(lines, at[s], n))
    && (forall s, t :: 0 <= s < t < |at| ==> at[s] < at[t] && lines[at[s]].indent < lines[at[t]].indent)
    && (forall j: nat :: Above(lines, j, n) ==> j in at)
  }

  lemma PoppingLeavesTheAncestors(lines: seq<Line>, n: nat, at: seq<nat>, kept: nat)
    requires n < |lines| && OnStack(lines, n, at) && kept <= |at|
    requires forall s :: kept <= s < |at| ==> lines[at[s]].indent >= lines[n].indent
    requires kept > 0 ==> lines[at[kept - 1]].indent < lines[n].indent
    ensures PoppedTo(lines, n, at[..kept])
  {
    forall j: nat | Above(lines, j, n) ensures j in at[..kept] {
      assert Open(lines, j, n);
      var s :| 0 <= s < |at| && at[s] == j;
      assert s < kept;
      assert at[..kept][s] == j;
    }
  }

  lemma PushingOpensTheLine(lines: seq<Line>, n: nat, at: seq<nat>)
    requires n < |lines| && PoppedTo(lines, n, at)
    ensures OnStack(lines, n + 1, at + [n])
  {
    forall j: nat | Open(lines, j, n + 1) ensures j in at + [n] {
      if j < n { assert Above(lines, j, n) && j in at; } else { assert (at + [n])[|at|] == j; }
    }
  }

  /** The search down the stack finds the nearest landmark above the line. */
  lemma TheTopmostLandmarkIsTheNearest(lines: seq<Line>, n: nat, at: seq<nat>, found: int)
    requires n < |lines| && PoppedTo(lines, n, at) && -1 <= found < |at|
    requires forall s :: found < s < |at| ==> !lines[at[s]].landmark
    requires found >= 0 ==> lines[at[found]].landmark
    ensures Landmark(lines, n) == if found < 0 then None else Some(at[found])
  {
    LandmarkIsTheNearest(lines, n, n);
    assert forall s :: 0 <= s < |at| ==> Above(lines, at[s], n);
    if Landmark(lines, n).Some? {
      var s :| 0 <= s < |at| && at[s] == Landmark(lines, n).value;
      assert s <= found;
    }
  }

  /** A line that is not yet written holds no controls. */
  lemma {:induction false} ANewLandmarkIsEmpty(lines: seq<Line>, n: nat, upTo: nat)
    requires upTo <= n + 1 && n < |lines|
    ensures ControlsIn(lines, Some(n), upTo) == 0
  {
    if upTo > 0 {
      ANewLandmarkIsEmpty(lines, n, upTo - 1);
      LandmarkIsTheNearest(lines, upTo - 1, upTo - 1);
    }
  }

  ghost predicate EntriesFit(lines: seq<Line>, n: nat, at: seq<nat>, stack: seq<Entry>)
    requires n <= |lines|
  {
    |stack| == |at| && forall s :: 0 <= s < |at| ==> at[s] < |lines| && EntryFits(lines, n, at[s], stack[s])
  }

  /** Counting line `n` in its landmark's entry keeps every entry's count. */
  lemma CountingKeepsTheEntries(
      lines: seq<Line>, n: nat, at: seq<nat>, before: seq<Entry>, after: seq<Entry>, found: int)
    requires n < |lines| && PoppedTo(lines, n, at) && EntriesFit(lines, n, at, before) && -1 <= found < |at|
    requires lines[n].interactive ==> Landmark(lines, n) == if found < 0 then None else Some(at[found])
    requires after == if lines[n].interactive && found >= 0
                      then before[found := before[found].(count := before[found].count + 1)] else before
    ensures EntriesFit(lines, n + 1, at, after)
  {
    forall s | 0 <= s < |at| ensures EntryFits(lines, n + 1, at[s], after[s]) {
      assert EntryFits(lines, n, at[s], before[s]);
      assert found >= 0 && s != found ==> at[s] != at[found];
    }
  }

  lemma PushingKeepsTheEntries(lines: seq<Line>, n: nat, at: seq<nat>, stack: seq<Entry>)
    requires n < |lines| && EntriesFit(lines, n + 1, at, stack)
    ensures var line := lines[n];
            EntriesFit(lines, n + 1, at + [n], stack + [Entry(line.indent, line.title, line.landmark, 0)])
  {
    ANewLandmarkIsEmpty(lines, n, n + 1);
  }

  lemma EntriesSay(lines: seq<Line>, n: nat, at: seq<nat>, stack: seq<Entry>)
    requires n <= |lines| && EntriesFit(lines, n, at, stack)
    ensures |stack| == |at|
    ensures forall s :: 0 <= s < |at| ==> at[s] < |lines| && stack[s].indent == lines[at[s]].indent
    ensures forall s :: 0 <= s < |at| ==> stack[s].title == lines[at[s]].title
    ensures forall s :: 0 <= s < |at| ==> stack[s].landmark == lines[at[s]].landmark
    ensures forall s :: 0 <= s < |at| && stack[s].landmark ==> stack[s].count == ControlsIn(lines, Some(at[s]), n)
  {}

  lemma FewerEntriesFit(lines: seq<Line>, n: nat, at: seq<nat>, stack: seq<Entry>, kept: nat)
    requires n <= |lines| && EntriesFit(lines, n, at, stack) && kept <= |at|
    ensures EntriesFit(lines, n, at[..kept], stack[..kept])
  {}

  /** The matching lines so far are the first so many of them all. */
  lemma {:induction false} MatchingSoFar(readings: seq<Reading>, r: nat)
    requires r <= |readings|
    ensures |Matching(readings[..r])| <= |Matching(readings)|
    ensures Matching(readings[..r]) == Matching(readings)[..|Matching(readings[..r])|]
    decreases |readings|
  {
    if r == |readings| {
      assert readings[..r] == readings;
    } else {
      var shorter := readings[..|readings| - 1];
      MatchingSoFar(shorter, r);
      assert shorter[..r] == readings[..r];
    }
  }

  lemma MatchingOneMore(readings: seq<Reading>, r: nat)
    requires r < |readings|
    ensures var n, lines := |Matching(readings[..r])|, Matching(readings);
            match readings[r]
            case Read(line) => n < |lines| && lines[n] == line && |Matching(readings[..r + 1])| == n + 1
            case Skipped => |Matching(readings[..r + 1])| == n
  {
    MatchingSoFar(readings, r + 1);
    assert readings[..r + 1][..r] == readings[..r];
  }

  lemma MatchingNothing(readings: seq<Reading>)
    ensures Matching(readings[..0]) == []
  {}

  lemma NothingReadYet(lines: seq<Line>)
    ensures HasRead(lines, 0, [], [], 0, [])
  {}

  lemma OneMoreLine(lines: seq<Line>, n: nat)
    requires n < |lines|
    ensures ControlsIn(lines, None, n + 1)
         == ControlsIn(lines, None, n) + (if lines[n].interactive && Landmark(lines, n) == None then 1 else 0)
    ensures NodesUpTo(lines, n + 1) == NodesUpTo(lines, n) + (if lines[n].interactive then [NodeAt(lines, n)] else [])
  {}

  lemma TheFoundEntryIsTheLandmarks(lines: seq<Line>, n: nat, at: seq<nat>, stack: seq<Entry>, found: int)
    requires n < |lines| && PoppedTo(lines, n, at) && EntriesFit(lines, n, at, stack) && -1 <= found < |stack|
    requires forall s :: found < s < |stack| ==> !stack[s].landmark
    requires found >= 0 ==> stack[found].landmark
    ensures Landmark(lines, n) == if found < 0 then None else Some(at[found])
    ensures found >= 0 ==> ContainerOf(lines, n) == stack[found].title
    ensures found >= 0 ==> ControlsIn(lines, Landmark(lines, n), n) == stack[found].count
    ensures found < 0 ==> ContainerOf(lines, n) == ""
  {
    hide Landmark, PoppedTo, EntriesFit;
    EntriesSay(lines, n, at, stack);
    TheTopmostLandmarkIsTheNearest(lines, n, at, found);
  }

  /** What the pass holds once the first `n` lines are read; `at` are the lines its stack stands for. */
  ghost predicate HasRead(lines: seq<Line>, n: nat, at: seq<nat>, stack: seq<Entry>, loose: nat, out: seq<Node>) {
    && n <= |lines|
    && OnStack(lines, n, at) && EntriesFit(lines, n, at, stack)
    && loose == ControlsIn(lines, None, n)
    && out == NodesUpTo(lines, n)
  }

  /** Where the search down the popped stack ends: at its topmost landmark, or below it all. */
  ghost predicate IsTopmost(popped: seq<Entry>, found: int) {
    && -1 <= found < |popped|
    && (forall s :: found < s < |popped| ==> !popped[s].landmark)
    && (found >= 0 ==> popped[found].landmark)
  }

  /** The stack once a line has popped it: nothing popped is indented less, and nothing kept as much. */
  ghost predicate IsPopped(all: seq<Entry>, popped: seq<Entry>, indent: nat) {
    && |popped| <= |all| && popped == all[..|popped|]
    && (forall s :: |popped| <= s < |all| ==> all[s].indent >= indent)
    && (popped != [] ==> popped[|popped| - 1].indent < indent)
  }

  /** The controls found by one line: itself under its landmark's entry, or loose. */
  function Found(line: Line, popped: seq<Entry>, found: int, loose: nat): seq<Node>
    requires -1 <= found < |popped|
  {
    if !line.interactive then []
    else if found >= 0 then [Node(line.role, line.name, popped[found].title, popped[found].count)]
    else [Node(line.role, line.name, "", loose)]
  }

  function Counted(line: Line, popped: seq<Entry>, found: int): seq<Entry>
    requires -1 <= found < |popped|
  {
    if line.interactive && found >= 0 then popped[found := popped[found].(count := popped[found].count + 1)] else popped
  }

  function Pushed(line: Line, stack: seq<Entry>): seq<Entry> {
    stack + [Entry(line.indent, line.title, line.landmark, 0)]
  }

  lemma PoppedEntriesFit(lines: seq<Line>, n: nat, at: seq<nat>, all: seq<Entry>, popped: seq<Entry>)
    requires n < |lines| && OnStack(lines, n, at) && EntriesFit(lines, n, at, all)
    requires IsPopped(all, popped, lines[n].indent)
    ensures |popped| <= |at| && PoppedTo(lines, n, at[..|popped|]) && EntriesFit(lines, n, at[..|popped|], popped)
  {
    hide OnStack, PoppedTo, EntriesFit;
    EntriesSay(lines, n, at, all);
    PoppingLeavesTheAncestors(lines, n, at, |popped|);
    FewerEntriesFit(lines, n, at, all, |popped|);
  }

  /** What a line finds is what the tree says of it, and so is what is counted loose. */
  lemma ALineIsFound(lines: seq<Line>, n: nat, at: seq<nat>, popped: seq<Entry>, found: int, loose: nat)
    requires n < |lines| && PoppedTo(lines, n, at) && EntriesFit(lines, n, at, popped)
    requires IsTopmost(popped, found) && loose == ControlsIn(lines, None, n)
    ensures |at| == |popped| && Landmark(lines, n) == if found < 0 then None else Some(at[found])
    ensures NodesUpTo(lines, n + 1) == NodesUpTo(lines, n) + Found(lines[n], popped, found, loose)
    ensures ControlsIn(lines, None, n + 1) == loose + (if lines[n].interactive && found < 0 then 1 else 0)
  {
    hide PoppedTo, EntriesFit, Landmark, ControlsIn, NodesUpTo, ContainerOf;
    EntriesSay(lines, n, at, popped);
    TheFoundEntryIsTheLandmarks(lines, n, at, popped, found);
    OneMoreLine(lines, n);
  }

  /** A line read: popped, found, counted and pushed. */
  lemma ALineIsRead(lines: seq<Line>, n: nat, at: seq<nat>, all: seq<Entry>, popped: seq<Entry>, found: int,
                    loose: nat, out: seq<Node>)
    requires n < |lines| && HasRead(lines, n, at, all, loose, out)
    requires IsPopped(all, popped, lines[n].indent) && |popped| <= |at|
    requires -1 <= found < |popped| && (lines[n].interactive ==> IsTopmost(popped, found))
    ensures HasRead(lines, n + 1, at[..|popped|] + [n], Pushed(lines[n], Counted(lines[n], popped, found)),
                    loose + (if lines[n].interactive && found < 0 then 1 else 0),
                    out + Found(lines[n], popped, found, loose))
  {
    hide OnStack, PoppedTo, EntriesFit, Landmark, ControlsIn, NodesUpTo, IsPopped, IsTopmost, ContainerOf;
    var kept := at[..|popped|];
    PoppedEntriesFit(lines, n, at, all, popped);
    if lines[n].interactive {
      ALineIsFound(lines, n, kept, popped, found, loose);
    } else {
      OneMoreLine(lines, n);
    }
    CountingKeepsTheEntries(lines, n, kept, popped, Counted(lines[n], popped, found), found);
    PushingKeepsTheEntries(lines, n, kept, Counted(lines[n], popped, found));
    PushingOpensTheLine(lines, n, kept);
  }

  lemma AnEntryALine(lines: seq<Line>, n: nat, at: seq<nat>, stack: seq<Entry>, loose: nat, out: seq<Node>)
    requires HasRead(lines, n, at, stack, loose, out)
    ensures n <= |lines| && |at| == |stack| && out == NodesUpTo(lines, n)
  {
    hide OnStack, ControlsIn, NodesUpTo;
  }

  /** The parser: one pass that pops, counts in place and pushes, and reads what the tree says. */
  method ParseSnapshot(readings: seq<Reading>) returns (out: seq<Node>)
    ensures out == NodesUpTo(Matching(readings), |Matching(readings)|)
  {
    hide HasRead, Matching, NodesUpTo;
    ghost var lines := Matching(readings);
    ghost var n, at := 0, [];
    NothingReadYet(lines);
    MatchingNothing(readings);
    out := [];
    var stack: seq<Entry>, loose := [], 0;
    for r := 0 to |readings|
      invariant n == |Matching(readings[..r])|
      invariant HasRead(lines, n, at, stack, loose, out)
    {
      MatchingOneMore(readings, r);
      if readings[r].Skipped? { continue; }
      var line := readings[r].line;
      ghost var all, outBefore, looseBefore := stack, out, loose;
      while stack != [] && stack[|stack| - 1].indent >= line.indent
        invariant |stack| <= |all| && stack == all[..|stack|]
        invariant forall s :: |stack| <= s < |all| ==> all[s].indent >= line.indent
      {
        stack := stack[..|stack| - 1];
      }
      ghost var popped := stack;
      var found := |stack| - 1;
      if line.interactive {
        while found >= 0 && !stack[found].landmark
          invariant -1 <= found < |stack|
          invariant forall s :: found < s < |stack| ==> !stack[s].landmark
        {
          found := found - 1;
        }
        if found >= 0 {
          out := out + [Node(line.role, line.name, stack[found].title, stack[found].count)];
          stack := stack[found := stack[found].(count := stack[found].count + 1)];
        } else {
          out := out + [Node(line.role, line.name, "", loose)];
          loose := loose + 1;
        }
      }
      stack := stack + [Entry(line.indent, line.title, line.landmark, 0)];
      AnEntryALine(lines, n, at, all, looseBefore, outBefore);
      assert !line.interactive ==> out == outBefore + [];
      ALineIsRead(lines, n, at, all, popped, found, looseBefore, outBefore);
      n, at := n + 1, at[..|popped|] + [n];
    }
    assert readings[..|readings|] == readings;
    AnEntryALine(lines, n, at, stack, loose, out);
  }
}
