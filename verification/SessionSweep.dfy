/**
 * Ending every session: the order the accounts are taken in, and what stands
 * wherever the sweep stops.
 */
module SessionSweep {
  import opened Wrappers

  type Id = string

  /** The holders who are the caller, or who are not. */
  function Which(holders: seq<Id>, caller: Id, theCaller: bool): seq<Id>
    decreases holders
  {
    if holders == [] then []
    else (if (holders[0] == caller) == theCaller then [holders[0]] else []) + Which(holders[1..], caller, theCaller)
  }

  /** Everybody else, then the caller. */
  function CallerLast(holders: seq<Id>, caller: Id): seq<Id> {
    Which(holders, caller, false) + Which(holders, caller, true)
  }

  lemma {:induction false} FilteringSplits(holders: seq<Id>, caller: Id)
    ensures multiset(Which(holders, caller, false)) + multiset(Which(holders, caller, true)) == multiset(holders)
    decreases holders
  {
    if holders != [] {
      FilteringSplits(holders[1..], caller);
      assert holders == [holders[0]] + holders[1..];
    }
  }

  lemma {:induction false} FilteringKeeps(holders: seq<Id>, caller: Id, theCaller: bool)
    ensures forall i :: 0 <= i < |Which(holders, caller, theCaller)| ==>
              (Which(holders, caller, theCaller)[i] == caller) == theCaller
    decreases holders
  {
    if holders != [] { FilteringKeeps(holders[1..], caller, theCaller); }
  }

  /** The order takes exactly the holders, and nobody after the caller but the caller. */
  lemma CallerLastIsAPermutation(holders: seq<Id>, caller: Id)
    ensures multiset(CallerLast(holders, caller)) == multiset(holders)
    ensures var order := CallerLast(holders, caller);
            forall i, j :: 0 <= i < j < |order| && order[i] == caller ==> order[j] == caller
  {
    FilteringSplits(holders, caller);
    FilteringKeeps(holders, caller, false);
    FilteringKeeps(holders, caller, true);
  }

  /** With each holder once, the caller is only ever the last. */
  lemma OnlyTheLastIsTheCaller(holders: seq<Id>, caller: Id)
    requires forall i, j :: 0 <= i < j < |holders| ==> holders[i] != holders[j]
    ensures var order := CallerLast(holders, caller);
            forall i :: 0 <= i < |order| - 1 ==> order[i] != caller
  {
    CallerLastIsAPermutation(holders, caller);
    var order := CallerLast(holders, caller);
    forall i | 0 <= i < |order| - 1 ensures order[i] != caller {
      if order[i] == caller {
        TwicePresent(order, i, i + 1);
        OnceEachOnceCounted(holders, caller);
        assert false;
      }
    }
  }

  lemma {:induction false} OnceEachOnceCounted(ids: seq<Id>, id: Id)
    requires forall i, j :: 0 <= i < j < |ids| ==> ids[i] != ids[j]
    ensures multiset(ids)[id] <= 1
    decreases ids
  {
    if ids != [] {
      OnceEachOnceCounted(ids[1..], id);
      assert ids == [ids[0]] + ids[1..];
      if ids[0] == id { assert id !in ids[1..]; }
    }
  }

  datatype Line = SessionsEnded(who: Id) | EverySessionEnded(count: nat)

  function LinesFor(ids: seq<Id>): seq<Line>
    ensures |LinesFor(ids)| == |ids|
    ensures forall i :: 0 <= i < |ids| ==> LinesFor(ids)[i] == SessionsEnded(ids[i])
  {
    seq(|ids|, i requires 0 <= i < |ids| => SessionsEnded(ids[i]))
  }

  /** How a sweep ended: all of it, or stopped by a line that did not land or a revocation refused. */
  datatype Result = Swept | Unrecorded | Unauthorised

  /** The accounts holding an open session, and the audit. */
  class Sessions {
    var open: set<Id>
    var lines: seq<Line>

    constructor (open: set<Id>)
      ensures this.open == open && lines == []
    {
      this.open, lines := open, [];
    }

    /** The revocation, refused once the caller has no session left. */
    method Revoke(caller: Id, who: Id) returns (authorised: bool)
      modifies this`open
      ensures authorised == (caller in old(open))
      ensures open == if authorised then old(open) - {who} else old(open)
    {
      authorised := caller in open;
      if authorised { open := open - {who}; }
    }

    /** The line first, then the sessions; a line that does not land ends nothing. */
    method EndOneAccountsSessions(caller: Id, who: Id, landed: bool) returns (result: Result)
      modifies this
      ensures result == if !landed then Unrecorded else if caller in old(open) then Swept else Unauthorised
      ensures lines == if landed then old(lines) + [SessionsEnded(who)] else old(lines)
      ensures open == if result == Swept then old(open) - {who} else old(open)
    {
      if !landed { return Unrecorded; }
      lines := lines + [SessionsEnded(who)];
      var authorised := Revoke(caller, who);
      return if authorised then Swept else Unauthorised;
    }

    /**
     * `landed(i)` is whether the i-th line lands. The sweep is never refused for
     * want of the caller's session: it ends the accounts in order, each with its
     * line, and stops with every later account still signed in at the first line
     * that does not land.
     */
    method EndEverySession(caller: Id, holders: seq<Id>, landed: nat -> bool) returns (ended: nat, result: Result)
      requires caller in open
      requires forall i, j :: 0 <= i < j < |holders| ==> holders[i] != holders[j]
      modifies this
      ensures var order := CallerLast(holders, caller);
              && ended <= |order|
              && (forall who :: who in open <==> who in old(open) && who !in order[..ended])
              && lines == old(lines) + LinesFor(order[..ended])
                          + (if result == Swept then [EverySessionEnded(ended)] else [])
              && (forall i :: 0 <= i < ended ==> landed(i))
              && result != Unauthorised
              && (result == Swept <==> ended == |order|)
              && (result == Unrecorded <==> ended < |order| && !landed(ended))
    {
      var order := CallerLast(holders, caller);
      OnlyTheLastIsTheCaller(holders, caller);
      ended := 0;
      while ended < |order|
        invariant ended <= |order|
        invariant forall who :: who in open <==> who in old(open) && who !in order[..ended]
        invariant lines == old(lines) + LinesFor(order[..ended])
        invariant forall i :: 0 <= i < ended ==> landed(i)
      {
        assert caller in open;
        result := EndOneAccountsSessions(caller, order[ended], landed(ended));
        if result != Swept { return; }
        assert order[..ended + 1] == order[..ended] + [order[ended]];
        ended := ended + 1;
      }
      lines := lines + [EverySessionEnded(ended)];
      result := Swept;
    }
  }
}
