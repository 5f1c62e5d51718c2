/**
 * Who reaches which customer through groups, the four writes that change it,
 * and the announcements that follow each. A group's write is followed by a
 * later read of its members; between them any other call may run.
 */
module ReachGrants {
  type Group = string
  type User = string
  type Customer = string

  datatype Level = Read | Write | Delete

  /** Weakest first, as the levels rank. */
  function Rank(level: Level): nat {
    match level case Read => 1 case Write => 2 case Delete => 3
  }

  datatype Member = Member(group: Group, user: User)

  datatype Grants = Grants(members: map<Member, Level>, holds: set<(Group, Customer)>)

  ghost predicate HasLevel(g: Grants, user: User, customer: Customer, level: Level) {
    exists group :: Member(group, user) in g.members && g.members[Member(group, user)] == level
                    && (group, customer) in g.holds
  }

  /** The strongest level the analyst's groups give over the customer; 0 is none. */
  ghost function Strongest(g: Grants, user: User, customer: Customer): nat {
    if HasLevel(g, user, customer, Delete) then Rank(Delete)
    else if HasLevel(g, user, customer, Write) then Rank(Write)
    else if HasLevel(g, user, customer, Read) then Rank(Read)
    else 0
  }

  /** It is a level some group gives, and none gives more. */
  lemma StrongestIsTheMostPermissive(g: Grants, user: User, customer: Customer, group: Group)
    ensures Strongest(g, user, customer) > 0 ==>
              exists level :: HasLevel(g, user, customer, level) && Rank(level) == Strongest(g, user, customer)
    ensures Member(group, user) in g.members && (group, customer) in g.holds ==>
              Rank(g.members[Member(group, user)]) <= Strongest(g, user, customer)
    ensures 0 < Rank(Read) < Rank(Write) < Rank(Delete)
  {
    if Member(group, user) in g.members && (group, customer) in g.holds {
      assert HasLevel(g, user, customer, g.members[Member(group, user)]);
    }
  }

  datatype Request =
    | Grant(group: Group, user: User, level: Level)
    | Revoke(group: Group, user: User)
    | Hold(group: Group, customer: Customer)
    | Release(group: Group, customer: Customer)

  /** Whether the statement returns a row: whether it changes anything. */
  predicate Changes(g: Grants, request: Request) {
    match request
    case Grant(group, user, level) =>
      Member(group, user) !in g.members || g.members[Member(group, user)] != level
    case Revoke(group, user) => Member(group, user) in g.members
    case Hold(group, customer) => (group, customer) !in g.holds
    case Release(group, customer) => (group, customer) in g.holds
  }

  function Written(g: Grants, request: Request): Grants {
    match request
    case Grant(group, user, level) => g.(members := g.members[Member(group, user) := level])
    case Revoke(group, user) => g.(members := g.members - {Member(group, user)})
    case Hold(group, customer) => g.(holds := g.holds + {(group, customer)})
    case Release(group, customer) => g.(holds := g.holds - {(group, customer)})
  }

  function MembersOf(g: Grants, group: Group): set<User> {
    set m | m in g.members && m.group == group :: m.user
  }

  /** Whom the write is announced to when nothing runs between it and its read. */
  function AnnouncedAtOnce(g: Grants, request: Request): set<User> {
    if !Changes(g, request) then {}
    else if request.Grant? || request.Revoke? then {request.user}
    else MembersOf(Written(g, request), request.group)
  }

  /** Every membership but this one is as it was. */
  ghost predicate OthersStand(before: map<Member, Level>, after: map<Member, Level>, except: Member) {
    forall m :: m != except ==> (m in after <==> m in before) && (m in after ==> after[m] == before[m])
  }

  /** A write leaves what it asks for, leaves the rest, and returns a row exactly where it changes something. */
  lemma WhatAWriteDoes(g: Grants, request: Request)
    ensures var t := Written(g, request);
            && (Changes(g, request) <==> t != g)
            && match request
               case Grant(group, user, level) =>
                 && Member(group, user) in t.members && t.members[Member(group, user)] == level
                 && OthersStand(g.members, t.members, Member(group, user)) && t.holds == g.holds
               case Revoke(group, user) =>
                 && Member(group, user) !in t.members
                 && OthersStand(g.members, t.members, Member(group, user)) && t.holds == g.holds
               case Hold(group, customer) =>
                 && t.members == g.members && (group, customer) in t.holds
                 && forall pair :: pair != (group, customer) ==> (pair in t.holds <==> pair in g.holds)
               case Release(group, customer) =>
                 && t.members == g.members && (group, customer) !in t.holds
                 && forall pair :: pair != (group, customer) ==> (pair in t.holds <==> pair in g.holds)
  {}

  /** The tables, and whom each call has announced. */
  class GroupTables {
    var grants: Grants
    var announced: set<User>

    constructor ()
      ensures grants == Grants(map[], {}) && announced == {}
    {
      grants, announced := Grants(map[], {}), {};
    }

    method GrantMembership(group: Group, user: User, level: Level) returns (changed: bool)
      modifies this
      ensures Member(group, user) in grants.members && grants.members[Member(group, user)] == level
      ensures OthersStand(old(grants).members, grants.members, Member(group, user)) && grants.holds == old(grants).holds
      ensures changed <==>
                Member(group, user) !in old(grants).members || old(grants).members[Member(group, user)] != level
      ensures announced == old(announced) + (if changed then {user} else {})
      ensures changed == Changes(old(grants), Grant(group, user, level))
      ensures grants == Written(old(grants), Grant(group, user, level))
      ensures announced == old(announced) + AnnouncedAtOnce(old(grants), Grant(group, user, level))
    {
      var m := Member(group, user);
      changed := m !in grants.members || grants.members[m] != level;
      if changed {
        grants := grants.(members := grants.members[m := level]);
        announced := announced + {user};
      }
    }

    method RevokeMembership(group: Group, user: User) returns (changed: bool)
      modifies this
      ensures Member(group, user) !in grants.members
      ensures OthersStand(old(grants).members, grants.members, Member(group, user)) && grants.holds == old(grants).holds
      ensures changed <==> Member(group, user) in old(grants).members
      ensures announced == old(announced) + (if changed then {user} else {})
      ensures changed == Changes(old(grants), Revoke(group, user))
      ensures grants == Written(old(grants), Revoke(group, user))
      ensures announced == old(announced) + AnnouncedAtOnce(old(grants), Revoke(group, user))
    {
      var m := Member(group, user);
      changed := m in grants.members;
      grants := grants.(members := grants.members - {m});
      if changed { announced := announced + {user}; }
    }

    method HoldCustomer(group: Group, customer: Customer) returns (changed: bool)
      modifies this
      ensures (group, customer) in grants.holds && grants.members == old(grants).members
      ensures forall pair :: pair != (group, customer) ==> (pair in grants.holds <==> pair in old(grants).holds)
      ensures changed <==> (group, customer) !in old(grants).holds
      ensures forall user :: user in announced <==>
                user in old(announced) || (changed && Member(group, user) in old(grants).members)
      ensures changed == Changes(old(grants), Hold(group, customer))
      ensures grants == Written(old(grants), Hold(group, customer))
      ensures announced == old(announced) + AnnouncedAtOnce(old(grants), Hold(group, customer))
    {
      changed := (group, customer) !in grants.holds;
      grants := grants.(holds := grants.holds + {(group, customer)});
      if changed { AnnounceEveryMember(group); }
    }

    method ReleaseCustomer(group: Group, customer: Customer) returns (changed: bool)
      modifies this
      ensures (group, customer) !in grants.holds && grants.members == old(grants).members
      ensures forall pair :: pair != (group, customer) ==> (pair in grants.holds <==> pair in old(grants).holds)
      ensures changed <==> (group, customer) in old(grants).holds
      ensures forall user :: user in announced <==>
                user in old(announced) || (changed && Member(group, user) in old(grants).members)
      ensures changed == Changes(old(grants), Release(group, customer))
      ensures grants == Written(old(grants), Release(group, customer))
      ensures announced == old(announced) + AnnouncedAtOnce(old(grants), Release(group, customer))
    {
      changed := (group, customer) in grants.holds;
      grants := grants.(holds := grants.holds - {(group, customer)});
      if changed { AnnounceEveryMember(group); }
    }

    /** The read, then one announcement a member. */
    method AnnounceEveryMember(group: Group)
      modifies this`announced
      ensures forall user :: user in announced <==> user in old(announced) || Member(group, user) in grants.members
      ensures announced == old(announced) + MembersOf(grants, group)
    {
      var left := MembersOf(grants, group);
      while left != {}
        invariant left <= MembersOf(grants, group)
        invariant announced + left == old(announced) + MembersOf(grants, group)
        decreases left
      {
        var user :| user in left;
        announced := announced + {user};
        left := left - {user};
      }
    }
  }

  // --- Calls at once --------------------------------------------------------

  datatype Stage =
    | Asked
    | Reading(group: Group)
    | Announcing(users: set<User>)
    | Done

  datatype Call = Call(request: Request, stage: Stage)

  datatype Race = Race(grants: Grants, calls: map<nat, Call>)

  /** `Say` is one announcement; `Advance` is any other statement of the call. */
  datatype Step = Ask(id: nat, request: Request) | Advance(id: nat) | Say(id: nat, user: User)

  function StageAfterWrite(g: Grants, request: Request): Stage {
    if !Changes(g, request) then Done
    else if request.Grant? || request.Revoke? then Announcing({request.user})
    else Reading(request.group)
  }

  function Next(r: Race, step: Step): Race {
    match step
    case Ask(id, request) => if id in r.calls then r else r.(calls := r.calls[id := Call(request, Asked)])
    case Advance(id) =>
      if id !in r.calls then r
      else
        var call := r.calls[id];
        (match call.stage
         case Asked =>
           Race(Written(r.grants, call.request),
                r.calls[id := call.(stage := StageAfterWrite(r.grants, call.request))])
         case Reading(group) => r.(calls := r.calls[id := call.(stage := Announcing(MembersOf(r.grants, group)))])
         case Announcing(users) => if users == {} then r.(calls := r.calls[id := call.(stage := Done)]) else r
         case Done => r)
    case Say(id, user) =>
      if id in r.calls && r.calls[id].stage.Announcing? && user in r.calls[id].stage.users then
        r.(calls := r.calls[id := r.calls[id].(stage := Announcing(r.calls[id].stage.users - {user}))])
      else r
  }

  /** Whether the step announces the analyst. */
  predicate Announces(r: Race, step: Step, user: User) {
    step.Say? && step.user == user && step.id in r.calls
    && r.calls[step.id].stage.Announcing? && user in r.calls[step.id].stage.users
  }

  function Reach(r: Race, steps: seq<Step>): Race
    decreases steps
  {
    if steps == [] then r else Next(Reach(r, steps[..|steps| - 1]), steps[|steps| - 1])
  }

  /** This call has yet to announce the analyst: named already, or a member when it reads. */
  predicate OwedBy(g: Grants, call: Call, user: User) {
    match call.stage
    case Announcing(users) => user in users
    case Reading(group) => Member(group, user) in g.members
    case _ => false
  }

  ghost predicate Owed(r: Race, user: User) {
    exists id :: id in r.calls && OwedBy(r.grants, r.calls[id], user)
  }

  predicate Finished(r: Race) { forall id :: id in r.calls ==> r.calls[id].stage == Done }

  /** The step changes the strongest level the analyst holds over the customer. */
  ghost predicate Alters(r: Race, step: Step, user: User, customer: Customer) {
    Strongest(r.grants, user, customer) != Strongest(Next(r, step).grants, user, customer)
  }

  lemma SameGroupsSameLevel(g: Grants, h: Grants, user: User, customer: Customer)
    requires forall group :: Member(group, user) in g.members <==> Member(group, user) in h.members
    requires forall group :: Member(group, user) in g.members ==>
               g.members[Member(group, user)] == h.members[Member(group, user)]
               && ((group, customer) in g.holds <==> (group, customer) in h.holds)
    ensures Strongest(g, user, customer) == Strongest(h, user, customer)
  {
    forall level: Level
      ensures HasLevel(g, user, customer, level) == HasLevel(h, user, customer, level)
    {
      if HasLevel(g, user, customer, level) {
        var group :| Member(group, user) in g.members && g.members[Member(group, user)] == level
                     && (group, customer) in g.holds;
        assert Member(group, user) in h.members && (group, customer) in h.holds;
      }
      if HasLevel(h, user, customer, level) {
        var group :| Member(group, user) in h.members && h.members[Member(group, user)] == level
                     && (group, customer) in h.holds;
        assert Member(group, user) in g.members && (group, customer) in g.holds;
      }
    }
  }

  /** A write that alters somebody's reach leaves its call owing them an announcement. */
  lemma AnAlterationIsOwed(r: Race, step: Step, user: User, customer: Customer)
    requires Alters(r, step, user, customer)
    ensures Owed(Next(r, step), user)
  {
    hide Strongest, HasLevel;
    assert step.Advance? && step.id in r.calls && r.calls[step.id].stage.Asked?;
    var request := r.calls[step.id].request;
    var g, h := r.grants, Written(r.grants, request);
    if request.Hold? || request.Release? {
      if Member(request.group, user) !in g.members || !Changes(g, request) {
        SameGroupsSameLevel(g, h, user, customer);
        assert false;
      }
    } else if request.user != user || !Changes(g, request) {
      SameGroupsSameLevel(g, h, user, customer);
      assert false;
    }
    assert OwedBy(h, Next(r, step).calls[step.id], user);
  }

  /**
   * What is owed stays owed until it is said: an analyst taken out of the group
   * before its members are read is owed by the call that took them out.
   */
  lemma ADebtLastsUntilSaid(r: Race, step: Step, user: User)
    requires Owed(r, user) && !Announces(r, step, user)
    ensures Owed(Next(r, step), user)
  {
    var id :| id in r.calls && OwedBy(r.grants, r.calls[id], user);
    var t := Next(r, step);
    if OwedBy(t.grants, t.calls[id], user) {
    } else {
      assert step.Advance? && step.id in r.calls;
      assert OwedBy(t.grants, t.calls[step.id], user);
    }
  }

  lemma {:induction false} SilenceLeavesTheDebt(r: Race, steps: seq<Step>, k: nat, user: User)
    requires k <= |steps| && Owed(Reach(r, steps[..k]), user)
    requires forall j :: k <= j < |steps| ==> !Announces(Reach(r, steps[..j]), steps[j], user)
    ensures Owed(Reach(r, steps), user)
    decreases |steps|
  {
    hide Next, Owed, Announces;
    var last := |steps| - 1;
    if k == |steps| {
      assert steps[..k] == steps;
    } else {
      forall j | k <= j < last ensures !Announces(Reach(r, steps[..last][..j]), steps[..last][j], user) {
        assert steps[..last][..j] == steps[..j];
      }
      assert steps[..last][..k] == steps[..k];
      SilenceLeavesTheDebt(r, steps[..last], k, user);
      ADebtLastsUntilSaid(Reach(r, steps[..last]), steps[last], user);
    }
  }

  /**
   * In every interleaving, each write that changes an analyst's strongest level
   * over some customer is followed, by the time every call has finished, by an
   * announcement to that analyst.
   */
  lemma NoReachChangeGoesUnannounced(r: Race, steps: seq<Step>, k: nat, user: User, customer: Customer)
    requires k < |steps| && Alters(Reach(r, steps[..k]), steps[k], user, customer)
    requires Finished(Reach(r, steps))
    ensures exists j :: k < j < |steps| && Announces(Reach(r, steps[..j]), steps[j], user)
  {
    hide Next, Alters, Announces;
    AnAlterationIsOwed(Reach(r, steps[..k]), steps[k], user, customer);
    assert steps[..k + 1][..k] == steps[..k];
    assert Owed(Reach(r, steps[..k + 1]), user);
    if forall j :: k < j < |steps| ==> !Announces(Reach(r, steps[..j]), steps[j], user) {
      SilenceLeavesTheDebt(r, steps, k + 1, user);
    }
  }

  // --- Nobody is told without cause ------------------------------------------

  /** At this step the call's write changes something. */
  ghost predicate Alerts(r: Race, step: Step, id: nat) {
    step == Advance(id) && id in r.calls && r.calls[id].stage == Asked && Changes(r.grants, r.calls[id].request)
  }

  /** At this step the call reads its group, and the analyst is of it. */
  ghost predicate ReadsAsMember(r: Race, step: Step, id: nat, user: User) {
    && step == Advance(id) && id in r.calls && r.calls[id].stage.Reading?
    && Member(r.calls[id].stage.group, user) in r.grants.members
  }

  /** What a call still to announce or to read has behind it. */
  ghost predicate HasCause(r: Race, steps: seq<Step>, id: nat, user: User)
  {
    var t := Reach(r, steps);
    && id in t.calls
    && (exists k :: 0 <= k < |steps| && Alerts(Reach(r, steps[..k]), steps[k], id))
    && match t.calls[id].request {
         case Grant(_, whom, _) => user == whom
         case Revoke(_, whom) => user == whom
         case _ => exists k :: 0 <= k < |steps| && ReadsAsMember(Reach(r, steps[..k]), steps[k], id, user)
       }
  }

  ghost predicate StageFits(call: Call) {
    match call.stage
    case Reading(group) => (call.request.Hold? || call.request.Release?) && group == call.request.group
    case _ => true
  }

  lemma {:induction false} StagesFit(r: Race, steps: seq<Step>, id: nat)
    requires r.calls == map[] && id in Reach(r, steps).calls
    ensures StageFits(Reach(r, steps).calls[id])
    decreases steps
  {
    var before := Reach(r, steps[..|steps| - 1]);
    if id in before.calls { StagesFit(r, steps[..|steps| - 1], id); }
  }

  /** A call past its write got there by a write that changed something. */
  lemma {:induction false} ACallPastItsWriteChangedSomething(r: Race, steps: seq<Step>, id: nat)
    requires r.calls == map[] && id in Reach(r, steps).calls
    requires Reach(r, steps).calls[id].stage.Reading? || Reach(r, steps).calls[id].stage.Announcing?
    ensures exists k :: 0 <= k < |steps| && Alerts(Reach(r, steps[..k]), steps[k], id)
    decreases steps
  {
    var last := |steps| - 1;
    var before := Reach(r, steps[..last]);
    if Alerts(before, steps[last], id) {
    } else {
      AStageComesFromItsWrite(before, steps[last], id);
      ACallPastItsWriteChangedSomething(r, steps[..last], id);
      var k :| 0 <= k < last && Alerts(Reach(r, steps[..last][..k]), steps[..last][k], id);
      assert steps[..last][..k] == steps[..k];
    }
  }

  lemma AStageComesFromItsWrite(r: Race, step: Step, id: nat)
    requires id in Next(r, step).calls && !Alerts(r, step, id)
    requires Next(r, step).calls[id].stage.Reading? || Next(r, step).calls[id].stage.Announcing?
    ensures id in r.calls && (r.calls[id].stage.Reading? || r.calls[id].stage.Announcing?)
  {}

  lemma AnAnnouncementComesFrom(r: Race, step: Step, id: nat, user: User)
    requires id in Next(r, step).calls && Next(r, step).calls[id].stage.Announcing?
    requires user in Next(r, step).calls[id].stage.users
    requires id in r.calls ==> StageFits(r.calls[id])
    ensures id in r.calls && r.calls[id].request == Next(r, step).calls[id].request
    ensures || (r.calls[id].stage.Announcing? && user in r.calls[id].stage.users)
            || ReadsAsMember(r, step, id, user)
            || (Alerts(r, step, id) && (r.calls[id].request.Grant? || r.calls[id].request.Revoke?)
                && user == r.calls[id].request.user)
    ensures ReadsAsMember(r, step, id, user) ==> r.calls[id].request.Hold? || r.calls[id].request.Release?
  {}

  /**
   * In every interleaving, whoever is to be told is told for cause: the call
   * changed something, and the analyst is the one whose membership it was, or
   * was of the group when the call read its members.
   */
  lemma {:induction false} NobodyIsToldWithoutCause(r: Race, steps: seq<Step>, id: nat, user: User)
    requires r.calls == map[] && id in Reach(r, steps).calls
    requires Reach(r, steps).calls[id].stage.Announcing? && user in Reach(r, steps).calls[id].stage.users
    ensures HasCause(r, steps, id, user)
    decreases steps
  {
    hide Next, Alerts, ReadsAsMember, StageFits;
    var last := |steps| - 1;
    var before := Reach(r, steps[..last]);
    if id in before.calls { StagesFit(r, steps[..last], id); }
    ACallPastItsWriteChangedSomething(r, steps, id);
    AnAnnouncementComesFrom(before, steps[last], id, user);
    if before.calls[id].stage.Announcing? && user in before.calls[id].stage.users {
      NobodyIsToldWithoutCause(r, steps[..last], id, user);
      if k :| 0 <= k < last && ReadsAsMember(Reach(r, steps[..last][..k]), steps[..last][k], id, user) {
        assert steps[..last][..k] == steps[..k];
      }
    }
  }
}
