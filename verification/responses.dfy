/** Queries over the consent tokens of pending proposals: which pending
    proposals of a course list a student, whether a student has answered
    every one of them, and whether a student has answered one proposal.

    The tokens themselves are issued and consumed by the notification
    service; here they are only read, through each proposal's `tokens` map
    (token to student). */
module Responses {
  import opened Domain

  /** `p` is a pending proposal of course `c` that invites `sid`. */
  predicate PendingFor(p: Proposal, c: CourseName, sid: StudentId) {
    p.course == c && p.status == Pending && sid in p.members
  }

  /** `sid` still holds an unconsumed token of `p`, i.e. has not answered it. */
  predicate HoldsToken(p: Proposal, sid: StudentId) {
    exists t | t in p.tokens :: p.tokens[t] == sid
  }

  /** `sid` is invited to at least one pending proposal of `c` and has
      answered every such proposal. */
  predicate HasAccepted(st: State, sid: StudentId, c: CourseName) {
    && (exists id | id in st.proposals :: PendingFor(st.proposals[id], c, sid))
    && (forall id | id in st.proposals && PendingFor(st.proposals[id], c, sid) ::
          !HoldsToken(st.proposals[id], sid))
  }

  /** The ids of the pending proposals of course `c` whose members include
      `sid`, collected by one pass over the proposal store. */
  method PendingTeamProposalIdsForStudent(st: State, c: CourseName, sid: StudentId)
    returns (ids: set<ProposalId>)
    ensures ids <= st.proposals.Keys
    ensures forall id | id in st.proposals :: id in ids <==> PendingFor(st.proposals[id], c, sid)
  {
    ids := {};
    var rest := st.proposals.Keys;
    while rest != {}
      invariant rest <= st.proposals.Keys
      invariant ids <= st.proposals.Keys - rest
      invariant forall id | id in st.proposals && id !in rest ::
        id in ids <==> PendingFor(st.proposals[id], c, sid)
      decreases rest
    {
      var id :| id in rest;
      if PendingFor(st.proposals[id], c, sid) {
        ids := ids + {id};
      }
      rest := rest - {id};
    }
  }

  /** hasAcceptedProposals: fails when the student or the course is unknown or
      the caller may not act on the course; otherwise false as soon as the
      student still holds a token of one of its pending proposals, and false
      when it has none. */
  method HasAcceptedProposals(st: State, caller: Caller, sid: StudentId, c: CourseName)
    returns (r: Result<bool>)
    ensures sid !in st.students ==> r == Failure(StudentNotFound(sid))
    ensures sid in st.students && c !in st.courses ==> r == Failure(CourseNotFound(c))
    ensures sid in st.students && c in st.courses && c !in caller.courses ==> r == Failure(NotAuthorized)
    ensures sid in st.students && c in st.courses && c in caller.courses ==>
      r == Success(HasAccepted(st, sid, c))
  {
    if sid !in st.students {
      return Failure(StudentNotFound(sid));
    }
    if c !in st.courses {
      return Failure(CourseNotFound(c));
    }
    if c !in caller.courses {
      return Failure(NotAuthorized);
    }
    var ids := PendingTeamProposalIdsForStudent(st, c, sid);
    if ids == {} {
      return Success(false);
    }
    var rest := ids;
    while rest != {}
      invariant rest <= ids
      invariant forall id | id in ids && id !in rest :: !HoldsToken(st.proposals[id], sid)
      decreases rest
    {
      var id :| id in rest;
      if HoldsToken(st.proposals[id], sid) {
        return Success(false);
      }
      rest := rest - {id};
    }
    return Success(true);
  }

  /** checkProposalResponse: whether `sid` has already answered proposal
      `pid`, that is, no remaining token of the proposal belongs to it. */
  function CheckProposalResponse(st: State, caller: Caller, sid: StudentId, pid: ProposalId): (r: Result<bool>)
    ensures sid !in st.students ==> r == Failure(StudentNotFound(sid))
    ensures sid in st.students && pid !in st.proposals ==> r == Failure(ProposalNotFound(pid))
    ensures sid in st.students && pid in st.proposals && sid !in caller.proposalMembers ==>
      r == Failure(NotAuthorized)
    ensures r.Success? <==> sid in st.students && pid in st.proposals && sid in caller.proposalMembers
    ensures r.Success? ==>
      (r.value <==> forall t | t in st.proposals[pid].tokens :: st.proposals[pid].tokens[t] != sid)
  {
    if sid !in st.students then Failure(StudentNotFound(sid))
    else if pid !in st.proposals then Failure(ProposalNotFound(pid))
    else if sid !in caller.proposalMembers then Failure(NotAuthorized)
    else Success(!HoldsToken(st.proposals[pid], sid))
  }

  /** The two token queries agree: a student has accepted its proposals in a
      course exactly when it is invited to some pending proposal of the course
      and `checkProposalResponse` reports every such proposal as answered. */
  lemma HasAcceptedIffAllAnswered(st: State, caller: Caller, sid: StudentId, c: CourseName)
    requires sid in st.students && sid in caller.proposalMembers
    ensures HasAccepted(st, sid, c) <==>
      && (exists id | id in st.proposals :: PendingFor(st.proposals[id], c, sid))
      && (forall id | id in st.proposals && PendingFor(st.proposals[id], c, sid) ::
            CheckProposalResponse(st, caller, sid, id) == Success(true))
  {
  }
}
