/** The abstract state behind the team service: courses, students, professors,
    finalised teams and team proposals, held as immutable maps and sets instead
    of repository tables and bidirectional entity links.

    Each association is stored once: enrolment in `Course.students`, team
    membership in `Team.members`, proposal membership in `Proposal.members`.
    A student's list of courses or teams is derived from these sets. */
module Domain {

  type CourseName = string
  type StudentId = string
  type ProfessorId = string
  type Username = string
  type Token = string
  type ProposalId = nat
  type TeamId = nat

  /** Local date-time, in seconds. A local date-time has no zone, so adding a
      day always adds exactly 86400 seconds. */
  type Time = int

  const SecondsPerDay: int := 86400
  /** A new proposal expires this many days after its creation. */
  const ProposalExpirationDays: int := 3
  /** A proposal whose expiry lies more than this many days in the past is purged. */
  const TeamProposalExpiryDays: int := 30
  /** Bounds every course's team sizes must respect. */
  const MinSizeForGroup: int := 2
  const MaxSizeForGroup: int := 10

  datatype Option<+T> = None | Some(value: T)

  datatype Course = Course(
    enabled: bool,
    minTeamSize: int,
    maxTeamSize: int,
    students: set<StudentId>,
    professors: set<ProfessorId>)

  datatype Student = Student(registered: bool)

  datatype Team = Team(course: CourseName, name: string, members: set<StudentId>)

  datatype Status = Pending | Accepted | Rejected

  /** A team proposal. `tokens` holds the consent tokens not yet consumed,
      each mapped to the student it was sent to. */
  datatype Proposal = Proposal(
    course: CourseName,
    teamName: string,
    status: Status,
    creatorId: StudentId,
    members: set<StudentId>,
    expiry: Time,
    tokens: map<Token, StudentId>)

  datatype State = State(
    courses: map<CourseName, Course>,
    students: map<StudentId, Student>,
    studentLogins: map<Username, StudentId>,
    professors: set<ProfessorId>,
    professorLogins: map<Username, ProfessorId>,
    teams: map<TeamId, Team>,
    proposals: map<ProposalId, Proposal>,
    nextProposalId: ProposalId)

  /** What the authorization collaborator lets the current caller do: the
      courses it may act on, the students whose details it may read and the
      students whose proposal responses it may inspect. */
  datatype Caller = Caller(
    courses: set<CourseName>,
    studentInfo: set<StudentId>,
    proposalMembers: set<StudentId>)

  /** The exceptions the service throws, one constructor per kind. */
  datatype Error =
    | CourseNotFound(course: CourseName)
    | StudentNotFound(who: string)
    | ProfessorNotFound(who: string)
    | ProposalNotFound(id: ProposalId)
    | NotAuthorized
    | CourseNotEnabled(course: CourseName)
    | TeamAlreadyProposed(teamName: string)
    | ProposalAlreadyCreated(student: StudentId)
    | ConstraintsNotSatisfied(teamName: string)
    | StudentNotEnrolled(student: StudentId)
    | AlreadyTeamedUp(student: StudentId)
    | ProposalAlreadyAccepted(student: StudentId)
    | DispatchFailure
    | NonUniqueResult

  datatype Result<+T> = Success(value: T) | Failure(error: Error)

  /** The outcome of a state-changing operation: the new state and what the
      operation returns to its caller. A failed operation carries no state:
      the caller's state is left as it was. */
  datatype Step<+T> = Step(state: State, out: T)

  /** The student a login name belongs to, if that student exists. */
  function LookupStudent(st: State, username: Username): (r: Option<StudentId>)
    ensures r.Some? ==> r.value in st.students && username in st.studentLogins
  {
    if username in st.studentLogins && st.studentLogins[username] in st.students
    then Some(st.studentLogins[username])
    else None
  }

  /** The professor a login name belongs to, if that professor exists. */
  function LookupProfessor(st: State, username: Username): (r: Option<ProfessorId>)
    ensures r.Some? ==> r.value in st.professors && username in st.professorLogins
  {
    if username in st.professorLogins && st.professorLogins[username] in st.professors
    then Some(st.professorLogins[username])
    else None
  }

  predicate EnrolledIn(st: State, sid: StudentId, c: CourseName) {
    c in st.courses && sid in st.courses[c].students
  }

  /** The teams of course `c` that list `sid` as a member. */
  function TeamsOf(st: State, sid: StudentId, c: CourseName): set<TeamId> {
    set tid | tid in st.teams && st.teams[tid].course == c && sid in st.teams[tid].members
  }

  predicate BoundsOk(min: int, max: int) {
    MinSizeForGroup <= min <= max <= MaxSizeForGroup
  }

  /** A student belongs to at most one team per course. */
  predicate OneTeamPerCourse(teams: map<TeamId, Team>) {
    forall t1, t2, s | t1 in teams && t2 in teams && teams[t1].course == teams[t2].course
      && s in teams[t1].members && s in teams[t2].members :: t1 == t2
  }

  /** The invariant every operation keeps. */
  predicate Wf(st: State) {
    && (forall c | c in st.courses :: BoundsOk(st.courses[c].minTeamSize, st.courses[c].maxTeamSize))
    && OneTeamPerCourse(st.teams)
    && (forall id | id in st.proposals :: id < st.nextProposalId)
  }

  /** Under the invariant the team lookup by (student, course) finds at most one team. */
  lemma AtMostOneTeam(st: State, sid: StudentId, c: CourseName)
    requires Wf(st)
    ensures |TeamsOf(st, sid, c)| <= 1
  {
    var ts := TeamsOf(st, sid, c);
    if ts != {} {
      var t :| t in ts;
      assert ts == {t};
    }
  }
}
