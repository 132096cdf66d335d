/** Team proposal creation (proposeTeam): an ordered chain of checks, then a
    new PENDING proposal. Any failed check returns a `Failure` and leaves the
    state as it was. */
module Proposals {
  import opened Domain
  import opened Seqs
  import opened Responses

  datatype TeamRequest = TeamRequest(
    course: CourseName,
    teamName: string,
    memberIds: seq<StudentId>,
    creator: Username)

  /** The proposals the (team name, course) finder matches. */
  function SameName(st: State, c: CourseName, teamName: string): set<ProposalId> {
    set id | id in st.proposals && st.proposals[id].course == c && st.proposals[id].teamName == teamName
  }

  /** A proposal with this (team name, course) is pending or accepted. */
  predicate NameInUse(st: State, c: CourseName, teamName: string) {
    exists id | id in st.proposals ::
      st.proposals[id].course == c && st.proposals[id].teamName == teamName
      && st.proposals[id].status != Rejected
  }

  predicate CreatorHasPending(st: State, c: CourseName, me: StudentId) {
    exists id | id in st.proposals ::
      st.proposals[id].course == c && st.proposals[id].creatorId == me
      && st.proposals[id].status == Pending
  }

  predicate TeamedUpIn(st: State, sid: StudentId, c: CourseName) {
    exists tid | tid in st.teams :: st.teams[tid].course == c && sid in st.teams[tid].members
  }

  /** The roster-size guard exactly as the service writes it: a conjunction,
      which holds only when `max < size < min`. */
  predicate CardinalityGuard(size: int, min: int, max: int) {
    size < min && size > max
  }

  /** The first of the four per-member checks that fails, if any. */
  function MemberFault(st: State, c: CourseName, m: StudentId): Option<Error> {
    if m !in st.students then Some(StudentNotFound(m))
    else if !EnrolledIn(st, m, c) then Some(StudentNotEnrolled(m))
    else if TeamedUpIn(st, m, c) then Some(AlreadyTeamedUp(m))
    else if HasAccepted(st, m, c) then Some(ProposalAlreadyAccepted(m))
    else None
  }

  /** The members are checked in turn; the first fault stops the request. */
  function CheckMembers(st: State, c: CourseName, ms: seq<StudentId>): (r: Option<Error>)
    ensures r.None? <==> forall i | 0 <= i < |ms| :: MemberFault(st, c, ms[i]).None?
  {
    if |ms| == 0 then None
    else match MemberFault(st, c, ms[0])
      case Some(e) => Some(e)
      case None =>
        var r := CheckMembers(st, c, ms[1..]);
        assert forall i | 1 <= i < |ms| :: ms[i] == ms[1..][i - 1];
        r
  }

  /** The checks made before the members, in the service's order; the first
      that fails is reported. */
  function RequestFault(st: State, caller: Caller, req: TeamRequest): Option<Error> {
    if req.course !in st.courses then Some(CourseNotFound(req.course))
    else if req.course !in caller.courses then Some(NotAuthorized)
    else if |SameName(st, req.course, req.teamName)| > 1 then Some(NonUniqueResult)
    else if NameInUse(st, req.course, req.teamName) then Some(TeamAlreadyProposed(req.teamName))
    else if !st.courses[req.course].enabled then Some(CourseNotEnabled(req.course))
    else match LookupStudent(st, req.creator)
      case None => Some(StudentNotFound(req.creator))
      case Some(me) =>
        if CreatorHasPending(st, req.course, me) then Some(ProposalAlreadyCreated(me))
        else if CardinalityGuard(|Dedup(req.memberIds)|, st.courses[req.course].minTeamSize,
                                 st.courses[req.course].maxTeamSize)
        then Some(ConstraintsNotSatisfied(req.teamName))
        else None
  }

  /** Every check of proposeTeam, in order: the request checks, then each
      distinct member in turn. */
  function Validate(st: State, caller: Caller, req: TeamRequest): Option<Error> {
    match RequestFault(st, caller, req)
    case Some(e) => Some(e)
    case None => CheckMembers(st, req.course, Dedup(req.memberIds))
  }

  /** proposeTeam. `now` is the clock reading and `dispatch` what the
      notification service did with the invitations: the tokens it issued, or
      None when sending failed. */
  function ProposeTeam(st: State, caller: Caller, req: TeamRequest, now: Time,
                       dispatch: Option<map<Token, StudentId>>): (r: Result<Step<ProposalId>>)
    // exactly one new proposal, pending, with the requested name, course,
    // distinct members, creator, expiry and issued tokens; nothing else changes
    ensures r.Success? ==> r.value.out == st.nextProposalId
    ensures r.Success? ==> r.value.state.proposals.Keys == st.proposals.Keys + {r.value.out}
    ensures r.Success? ==> forall id | id in st.proposals && id != r.value.out ::
      r.value.state.proposals[id] == st.proposals[id]
    ensures r.Success? ==>
      var p := r.value.state.proposals[r.value.out];
      && p.status == Pending
      && p.course == req.course
      && p.teamName == req.teamName
      && p.members == (set m | m in req.memberIds)
      && Some(p.creatorId) == LookupStudent(st, req.creator)
      && p.expiry == now + ProposalExpirationDays * SecondsPerDay
      && Some(p.tokens) == dispatch
    ensures r.Success? ==>
      r.value.state.(proposals := st.proposals, nextProposalId := st.nextProposalId) == st
    ensures r.Success? && Wf(st) ==> r.value.out !in st.proposals && Wf(r.value.state)
    // every check passed but the invitations could not be sent
    ensures Validate(st, caller, req).None? && dispatch.None? ==> r == Failure(DispatchFailure)
  {
    match Validate(st, caller, req)
    case Some(e) => Failure(e)
    case None =>
      match dispatch
      case None => Failure(DispatchFailure)
      case Some(tokens) =>
        var id := st.nextProposalId;
        var me := LookupStudent(st, req.creator).value;
        var members := set m | m in Dedup(req.memberIds);
        var p := Proposal(req.course, req.teamName, Pending, me, members,
                          now + ProposalExpirationDays * SecondsPerDay, tokens);
        Success(Step(st.(proposals := st.proposals[id := p], nextProposalId := id + 1), id))
  }

  // ---------------------------------------------------------------------
  // The order of the checks, stated independently of the if-chain: every
  // rule the request breaks has a priority, and the error reported is the
  // one of the broken rule with the smallest priority.

  datatype Rule =
    | CourseExists
    | CallerAuthorized
    | NameLookupUnique
    | NameAvailable
    | CourseEnabled
    | CreatorKnown
    | CreatorIdle
    | SizeGuard
    | MemberKnown(i: nat)
    | MemberEnrolled(i: nat)
    | MemberUnteamed(i: nat)
    | MemberUncommitted(i: nat)

  function Priority(rule: Rule): nat {
    match rule
    case CourseExists => 0
    case CallerAuthorized => 1
    case NameLookupUnique => 2
    case NameAvailable => 3
    case CourseEnabled => 4
    case CreatorKnown => 5
    case CreatorIdle => 6
    case SizeGuard => 7
    case MemberKnown(i) => 8 + 4 * i
    case MemberEnrolled(i) => 9 + 4 * i
    case MemberUnteamed(i) => 10 + 4 * i
    case MemberUncommitted(i) => 11 + 4 * i
  }

  /** Whether the request breaks `rule`, each rule judged on its own. */
  ghost predicate IsBroken(st: State, caller: Caller, req: TeamRequest, rule: Rule) {
    var d := Dedup(req.memberIds);
    var c := req.course;
    match rule
    case CourseExists => c !in st.courses
    case CallerAuthorized => c !in caller.courses
    case NameLookupUnique => |SameName(st, c, req.teamName)| > 1
    case NameAvailable => NameInUse(st, c, req.teamName)
    case CourseEnabled => c in st.courses && !st.courses[c].enabled
    case CreatorKnown => LookupStudent(st, req.creator).None?
    case CreatorIdle =>
      LookupStudent(st, req.creator).Some? && CreatorHasPending(st, c, LookupStudent(st, req.creator).value)
    case SizeGuard =>
      c in st.courses && CardinalityGuard(|d|, st.courses[c].minTeamSize, st.courses[c].maxTeamSize)
    case MemberKnown(i) => i < |d| && d[i] !in st.students
    case MemberEnrolled(i) => i < |d| && !EnrolledIn(st, d[i], c)
    case MemberUnteamed(i) => i < |d| && TeamedUpIn(st, d[i], c)
    case MemberUncommitted(i) => i < |d| && HasAccepted(st, d[i], c)
  }

  /** The error a broken rule is reported with. Only broken rules are ever
      blamed, and a broken member rule has its index inside the distinct
      member list and a broken `CreatorIdle` a known creator, so the fallback
      values (`NotAuthorized`, the empty id) are never reported. */
  function Blame(st: State, req: TeamRequest, rule: Rule): Error {
    var d := Dedup(req.memberIds);
    match rule
    case CourseExists => CourseNotFound(req.course)
    case CallerAuthorized => NotAuthorized
    case NameLookupUnique => NonUniqueResult
    case NameAvailable => TeamAlreadyProposed(req.teamName)
    case CourseEnabled => CourseNotEnabled(req.course)
    case CreatorKnown => StudentNotFound(req.creator)
    case CreatorIdle =>
      ProposalAlreadyCreated(if LookupStudent(st, req.creator).Some? then LookupStudent(st, req.creator).value else "")
    case SizeGuard => ConstraintsNotSatisfied(req.teamName)
    case MemberKnown(i) => if i < |d| then StudentNotFound(d[i]) else NotAuthorized
    case MemberEnrolled(i) => if i < |d| then StudentNotEnrolled(d[i]) else NotAuthorized
    case MemberUnteamed(i) => if i < |d| then AlreadyTeamedUp(d[i]) else NotAuthorized
    case MemberUncommitted(i) => if i < |d| then ProposalAlreadyAccepted(d[i]) else NotAuthorized
  }

  /** `rule` is broken and no broken rule comes before it. */
  ghost predicate FirstBroken(st: State, caller: Caller, req: TeamRequest, rule: Rule) {
    && IsBroken(st, caller, req, rule)
    && forall other | IsBroken(st, caller, req, other) :: Priority(rule) <= Priority(other)
  }

  /** Checking members in turn reports the fault of the first faulty member. */
  lemma {:induction false} CheckMembersReportsFirst(st: State, c: CourseName, ms: seq<StudentId>, i: nat)
    requires i < |ms|
    requires forall j | 0 <= j < i :: MemberFault(st, c, ms[j]).None?
    requires MemberFault(st, c, ms[i]).Some?
    ensures CheckMembers(st, c, ms) == MemberFault(st, c, ms[i])
  {
    if i > 0 {
      assert MemberFault(st, c, ms[0]).None?;
      assert forall j | 0 <= j < i - 1 :: ms[1..][j] == ms[j + 1];
      CheckMembersReportsFirst(st, c, ms[1..], i - 1);
    }
  }

  /** A member passes all four checks exactly when it breaks none of its rules. */
  lemma MemberFaultIffBroken(st: State, caller: Caller, req: TeamRequest, i: nat)
    requires i < |Dedup(req.memberIds)|
    ensures MemberFault(st, req.course, Dedup(req.memberIds)[i]).None? <==>
      && !IsBroken(st, caller, req, MemberKnown(i))
      && !IsBroken(st, caller, req, MemberEnrolled(i))
      && !IsBroken(st, caller, req, MemberUnteamed(i))
      && !IsBroken(st, caller, req, MemberUncommitted(i))
  {
  }

  /** The request checks pass exactly when none of the request rules is broken. */
  lemma RequestFaultIffBroken(st: State, caller: Caller, req: TeamRequest)
    ensures RequestFault(st, caller, req).None? <==>
      && !IsBroken(st, caller, req, CourseExists)
      && !IsBroken(st, caller, req, CallerAuthorized)
      && !IsBroken(st, caller, req, NameLookupUnique)
      && !IsBroken(st, caller, req, NameAvailable)
      && !IsBroken(st, caller, req, CourseEnabled)
      && !IsBroken(st, caller, req, CreatorKnown)
      && !IsBroken(st, caller, req, CreatorIdle)
      && !IsBroken(st, caller, req, SizeGuard)
  {
  }

  /** proposeTeam succeeds exactly when it breaks no rule and the
      invitations were sent; when it breaks no rule but sending failed, the
      sending failure is what it reports. */
  lemma ProposeTeamSucceedsIff(st: State, caller: Caller, req: TeamRequest, now: Time,
                               dispatch: Option<map<Token, StudentId>>)
    ensures ProposeTeam(st, caller, req, now, dispatch).Success? <==>
      (forall rule :: !IsBroken(st, caller, req, rule)) && dispatch.Some?
    ensures (forall rule :: !IsBroken(st, caller, req, rule)) && dispatch.None? ==>
      ProposeTeam(st, caller, req, now, dispatch) == Failure(DispatchFailure)
  {
    var d := Dedup(req.memberIds);
    RequestFaultIffBroken(st, caller, req);
    if forall rule :: !IsBroken(st, caller, req, rule) {
      forall i | 0 <= i < |d| ensures MemberFault(st, req.course, d[i]).None? {
        MemberFaultIffBroken(st, caller, req, i);
      }
      assert Validate(st, caller, req).None?;
    }
    if ProposeTeam(st, caller, req, now, dispatch).Success? {
      assert RequestFault(st, caller, req).None?;
      assert CheckMembers(st, req.course, d).None?;
      forall rule ensures !IsBroken(st, caller, req, rule) {
        if rule.MemberKnown? || rule.MemberEnrolled? || rule.MemberUnteamed? || rule.MemberUncommitted? {
          if rule.i < |d| {
            MemberFaultIffBroken(st, caller, req, rule.i);
          }
        }
      }
    }
  }

  /** When the first broken rule is a request rule, the request checks report it. */
  lemma RequestFaultReportsFirst(st: State, caller: Caller, req: TeamRequest, rule: Rule)
    requires FirstBroken(st, caller, req, rule)
    requires Priority(rule) < 8
    ensures RequestFault(st, caller, req) == Some(Blame(st, req, rule))
  {
    if Priority(rule) > 0 { assert !IsBroken(st, caller, req, CourseExists); }
    if Priority(rule) > 1 { assert !IsBroken(st, caller, req, CallerAuthorized); }
    if Priority(rule) > 2 { assert !IsBroken(st, caller, req, NameLookupUnique); }
    if Priority(rule) > 3 { assert !IsBroken(st, caller, req, NameAvailable); }
    if Priority(rule) > 4 { assert !IsBroken(st, caller, req, CourseEnabled); }
    if Priority(rule) > 5 { assert !IsBroken(st, caller, req, CreatorKnown); }
    if Priority(rule) > 6 { assert !IsBroken(st, caller, req, CreatorIdle); }
  }

  /** A member rule can only come first when every request rule holds. */
  lemma RequestPassesBeforeMembers(st: State, caller: Caller, req: TeamRequest, rule: Rule)
    requires FirstBroken(st, caller, req, rule)
    requires Priority(rule) >= 8
    ensures RequestFault(st, caller, req).None?
  {
    assert !IsBroken(st, caller, req, CourseExists);
    assert !IsBroken(st, caller, req, CallerAuthorized);
    assert !IsBroken(st, caller, req, NameLookupUnique);
    assert !IsBroken(st, caller, req, NameAvailable);
    assert !IsBroken(st, caller, req, CourseEnabled);
    assert !IsBroken(st, caller, req, CreatorKnown);
    assert !IsBroken(st, caller, req, CreatorIdle);
    assert !IsBroken(st, caller, req, SizeGuard);
    RequestFaultIffBroken(st, caller, req);
  }

  /** The members before the one a first broken member rule names pass all
      their checks, and that member fails with the rule's error. */
  lemma MembersBeforeFirstPass(st: State, caller: Caller, req: TeamRequest, rule: Rule)
    requires FirstBroken(st, caller, req, rule)
    requires Priority(rule) >= 8
    ensures rule.i < |Dedup(req.memberIds)|
    ensures forall j | 0 <= j < rule.i :: MemberFault(st, req.course, Dedup(req.memberIds)[j]).None?
    ensures MemberFault(st, req.course, Dedup(req.memberIds)[rule.i]) == Some(Blame(st, req, rule))
  {
    EarlierMembersPass(st, caller, req, rule);
    FirstMemberFault(st, caller, req, rule);
  }

  /** Every member before the one a first broken member rule names passes. */
  lemma EarlierMembersPass(st: State, caller: Caller, req: TeamRequest, rule: Rule)
    requires FirstBroken(st, caller, req, rule)
    requires Priority(rule) >= 8
    ensures forall j | 0 <= j < rule.i :: MemberFault(st, req.course, Dedup(req.memberIds)[j]).None?
  {
    var d := Dedup(req.memberIds);
    forall j | 0 <= j < rule.i ensures MemberFault(st, req.course, d[j]).None? {
      assert Priority(MemberUncommitted(j)) < Priority(rule);
      assert !IsBroken(st, caller, req, MemberKnown(j));
      assert !IsBroken(st, caller, req, MemberEnrolled(j));
      assert !IsBroken(st, caller, req, MemberUnteamed(j));
      assert !IsBroken(st, caller, req, MemberUncommitted(j));
      MemberFaultIffBroken(st, caller, req, j);
    }
  }

  /** The member a first broken member rule names fails with the rule's error:
      its earlier checks pass, since their rules come first. */
  lemma FirstMemberFault(st: State, caller: Caller, req: TeamRequest, rule: Rule)
    requires FirstBroken(st, caller, req, rule)
    requires Priority(rule) >= 8
    ensures rule.i < |Dedup(req.memberIds)|
    ensures MemberFault(st, req.course, Dedup(req.memberIds)[rule.i]) == Some(Blame(st, req, rule))
  {
    var i := rule.i;
    if !rule.MemberKnown? {
      assert !IsBroken(st, caller, req, MemberKnown(i));
    }
    if rule.MemberUnteamed? || rule.MemberUncommitted? {
      assert !IsBroken(st, caller, req, MemberEnrolled(i));
    }
    if rule.MemberUncommitted? {
      assert !IsBroken(st, caller, req, MemberUnteamed(i));
    }
  }

  /** The error reported is that of the first broken rule, so the checks fail
      in a fixed order: course, authorization, name lookup, name in use,
      enabled, creator, creator's own pending proposal, size guard, then per
      member in turn: unknown, not enrolled, already teamed, already accepted. */
  lemma ProposeTeamReportsFirstBrokenRule(st: State, caller: Caller, req: TeamRequest, now: Time,
                                          dispatch: Option<map<Token, StudentId>>, rule: Rule)
    requires FirstBroken(st, caller, req, rule)
    ensures ProposeTeam(st, caller, req, now, dispatch) == Failure(Blame(st, req, rule))
  {
    if Priority(rule) < 8 {
      RequestFaultReportsFirst(st, caller, req, rule);
    } else {
      RequestPassesBeforeMembers(st, caller, req, rule);
      MembersBeforeFirstPass(st, caller, req, rule);
      CheckMembersReportsFirst(st, req.course, Dedup(req.memberIds), rule.i);
    }
  }

  // ---------------------------------------------------------------------
  // The roster-size guard.

  /** With `min <= max` the conjunctive guard can never hold. */
  lemma CardinalityGuardVacuous(size: int, min: int, max: int)
    requires min <= max
    ensures !CardinalityGuard(size, min, max)
  {
  }

  /** Under the course-bounds invariant proposeTeam never rejects a request
      for its roster size, however few or many distinct members it names. */
  lemma ProposeTeamIgnoresRosterSize(st: State, caller: Caller, req: TeamRequest, now: Time,
                                     dispatch: Option<map<Token, StudentId>>)
    requires Wf(st)
    ensures !IsBroken(st, caller, req, SizeGuard)
    ensures ProposeTeam(st, caller, req, now, dispatch) != Failure(ConstraintsNotSatisfied(req.teamName))
  {
    if req.course in st.courses {
      var course := st.courses[req.course];
      CardinalityGuardVacuous(|Dedup(req.memberIds)|, course.minTeamSize, course.maxTeamSize);
    }
    var d := Dedup(req.memberIds);
    if RequestFault(st, caller, req).None? {
      assert CheckMembers(st, req.course, d) != Some(ConstraintsNotSatisfied(req.teamName)) by {
        CheckMembersNeverBlamesSize(st, req.course, d, req.teamName);
      }
    }
  }

  /** Member checks never report a roster-size violation. */
  lemma {:induction false} CheckMembersNeverBlamesSize(st: State, c: CourseName, ms: seq<StudentId>, teamName: string)
    ensures CheckMembers(st, c, ms) != Some(ConstraintsNotSatisfied(teamName))
  {
    if |ms| > 0 {
      CheckMembersNeverBlamesSize(st, c, ms[1..], teamName);
    }
  }

  /** The guard sees the number of distinct member ids. */
  lemma GuardCountsDistinctMembers(req: TeamRequest)
    ensures |Dedup(req.memberIds)| == |set m | m in req.memberIds|
  {
    DedupCardinality(req.memberIds);
  }

  /** A name whose only earlier proposal in the course was rejected may be
      proposed again; afterwards the single-result (team name, course) finder
      matches two proposals, so every later proposal of that name in the
      course, by any caller allowed to act on the course, fails with
      `NonUniqueResult`. */
  lemma ReproposedNameJamsLookup(st: State, caller: Caller, req: TeamRequest, now: Time,
                                 dispatch: Option<map<Token, StudentId>>, earlier: ProposalId,
                                 caller': Caller, req': TeamRequest, now': Time,
                                 dispatch': Option<map<Token, StudentId>>)
    requires Wf(st)
    requires earlier in st.proposals
    requires st.proposals[earlier].course == req.course && st.proposals[earlier].teamName == req.teamName
    requires ProposeTeam(st, caller, req, now, dispatch).Success?
    requires req'.course == req.course && req'.teamName == req.teamName && req.course in caller'.courses
    ensures st.proposals[earlier].status == Rejected
    ensures ProposeTeam(ProposeTeam(st, caller, req, now, dispatch).value.state, caller', req', now', dispatch')
            == Failure(NonUniqueResult)
  {
    var step := ProposeTeam(st, caller, req, now, dispatch).value;
    var st' := step.state;
    assert RequestFault(st, caller, req).None?;
    assert earlier in st'.proposals && step.out in st'.proposals;
    assert earlier != step.out;
    var same := SameName(st', req.course, req.teamName);
    assert {earlier, step.out} <= same;
    assert |{earlier, step.out}| == 2;
    assert |same| > 1 by {
      SubsetCardinality({earlier, step.out}, same);
    }
    assert RequestFault(st', caller', req') == Some(NonUniqueResult);
  }

  /** A subset is no larger than its superset. */
  lemma SubsetCardinality<T>(a: set<T>, b: set<T>)
    requires a <= b
    ensures |a| <= |b|
  {
    assert b == a + (b - a);
  }
}
