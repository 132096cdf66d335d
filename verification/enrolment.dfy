/** Course rosters: adding one student or professor to a course, enrolling a
    list of students, and classifying the rows of a roster file. */
module Enrolment {
  import opened Domain
  import opened Seqs
  import Proposals

  /** Only course `c` may differ between `st` and `st'`, and only in its rosters. */
  predicate OnlyRostersChanged(st: State, st': State, c: CourseName) {
    && st'.(courses := st.courses) == st
    && st'.courses.Keys == st.courses.Keys
    && (forall k | k in st.courses && k != c :: st'.courses[k] == st.courses[k])
    && (c in st.courses ==>
          st'.courses[c] == st.courses[c].(students := st'.courses[c].students,
                                            professors := st'.courses[c].professors))
  }

  /** The students enrolled in `c`, none if the course does not exist. */
  function Roster(st: State, c: CourseName): set<StudentId> {
    if c in st.courses then st.courses[c].students else {}
  }

  /** addStudentToCourse: fails when the course or the student is unknown or
      the caller may not act on the course; returns false when the student is
      already enrolled, otherwise enrols exactly that student. */
  function AddStudentToCourse(st: State, caller: Caller, sid: StudentId, c: CourseName): (r: Result<Step<bool>>)
    ensures c !in st.courses ==> r == Failure(CourseNotFound(c))
    ensures c in st.courses && sid !in st.students ==> r == Failure(StudentNotFound(sid))
    ensures c in st.courses && sid in st.students && c !in caller.courses ==> r == Failure(NotAuthorized)
    ensures r.Success? <==> c in st.courses && sid in st.students && c in caller.courses
    ensures r.Success? ==> (r.value.out <==> !EnrolledIn(st, sid, c))
    ensures r.Success? && !r.value.out ==> r.value.state == st
    ensures r.Success? ==> OnlyRostersChanged(st, r.value.state, c)
    ensures r.Success? ==> r.value.state.courses[c].students == st.courses[c].students + {sid}
    ensures r.Success? ==> r.value.state.courses[c].professors == st.courses[c].professors
    ensures r.Success? && Wf(st) ==> Wf(r.value.state)
  {
    if c !in st.courses then Failure(CourseNotFound(c))
    else if sid !in st.students then Failure(StudentNotFound(sid))
    else if c !in caller.courses then Failure(NotAuthorized)
    else if sid in st.courses[c].students then Success(Step(st, false))
    else
      var course := st.courses[c].(students := st.courses[c].students + {sid});
      Success(Step(st.(courses := st.courses[c := course]), true))
  }

  /** Adding a student a second time reports false and changes nothing. */
  lemma AddStudentTwiceIsNoop(st: State, caller: Caller, sid: StudentId, c: CourseName)
    requires AddStudentToCourse(st, caller, sid, c).Success?
    ensures var st' := AddStudentToCourse(st, caller, sid, c).value.state;
      AddStudentToCourse(st', caller, sid, c) == Success(Step(st', false))
  {
  }

  /** addProfessorToCourse: fails when the course or the professor is unknown
      or the caller may not act on the course; returns false when the
      professor already teaches the course, otherwise adds exactly that
      professor. */
  function AddProfessorToCourse(st: State, caller: Caller, pid: ProfessorId, c: CourseName): (r: Result<Step<bool>>)
    ensures c !in st.courses ==> r == Failure(CourseNotFound(c))
    ensures c in st.courses && pid !in st.professors ==> r == Failure(ProfessorNotFound(pid))
    ensures c in st.courses && pid in st.professors && c !in caller.courses ==> r == Failure(NotAuthorized)
    ensures r.Success? <==> c in st.courses && pid in st.professors && c in caller.courses
    ensures r.Success? ==> (r.value.out <==> pid !in st.courses[c].professors)
    ensures r.Success? && !r.value.out ==> r.value.state == st
    ensures r.Success? ==> OnlyRostersChanged(st, r.value.state, c)
    ensures r.Success? ==> r.value.state.courses[c].professors == st.courses[c].professors + {pid}
    ensures r.Success? ==> r.value.state.courses[c].students == st.courses[c].students
    ensures r.Success? && Wf(st) ==> Wf(r.value.state)
  {
    if c !in st.courses then Failure(CourseNotFound(c))
    else if pid !in st.professors then Failure(ProfessorNotFound(pid))
    else if c !in caller.courses then Failure(NotAuthorized)
    else if pid in st.courses[c].professors then Success(Step(st, false))
    else
      var course := st.courses[c].(professors := st.courses[c].professors + {pid});
      Success(Step(st.(courses := st.courses[c := course]), true))
  }

  /** Adding a professor a second time reports false and changes nothing. */
  lemma AddProfessorTwiceIsNoop(st: State, caller: Caller, pid: ProfessorId, c: CourseName)
    requires AddProfessorToCourse(st, caller, pid, c).Success?
    ensures var st' := AddProfessorToCourse(st, caller, pid, c).value.state;
      AddProfessorToCourse(st', caller, pid, c) == Success(Step(st', false))
  {
  }

  /** A student that exists and has completed registration. */
  predicate Eligible(st: State, sid: StudentId) {
    sid in st.students && st.students[sid].registered
  }

  /** The eligible ids of `ids` not in `roster`, each at its first occurrence:
      the students a bulk enrolment newly adds, in the order it adds them. */
  function Newcomers(st: State, roster: set<StudentId>, ids: seq<StudentId>): (r: seq<StudentId>)
    ensures NoDuplicates(r)
    ensures forall x :: x in r <==> x in ids && Eligible(st, x) && x !in roster
    ensures InOrder(ids, r)
  {
    if |ids| == 0 then []
    else
      var prev := Newcomers(st, roster, ids[..|ids| - 1]);
      var x := ids[|ids| - 1];
      assert forall y :: y in ids <==> y in ids[..|ids| - 1] || y == x by {
        assert ids == ids[..|ids| - 1] + [x];
      }
      InOrderExtend(ids, prev);
      if Eligible(st, x) && x !in roster && x !in prev then prev + [x] else prev
  }

  /** What enrollAllStudents returns: the students it enrolled, in order, and
      whether some id was unknown or unregistered (the service appends an
      empty student record to its answer in that case). */
  datatype EnrolmentReport = EnrolmentReport(added: seq<StudentId>, warning: bool)

  /** `st` with the students `xs` added to the roster of the existing course `c`. */
  function WithStudents(st: State, c: CourseName, xs: set<StudentId>): State
    requires c in st.courses
  {
    st.(courses := st.courses[c := st.courses[c].(students := st.courses[c].students + xs)])
  }

  lemma WithNoStudents(st: State, c: CourseName)
    requires c in st.courses
    ensures WithStudents(st, c, {}) == st
  {
    assert st.courses[c].(students := st.courses[c].students + {}) == st.courses[c];
  }

  /** One more id scanned by a bulk enrolment. */
  lemma NewcomersStep(st: State, roster: set<StudentId>, ids: seq<StudentId>, i: nat)
    requires i < |ids|
    ensures Newcomers(st, roster, ids[..i + 1]) ==
      var prev := Newcomers(st, roster, ids[..i]);
      if Eligible(st, ids[i]) && ids[i] !in roster && ids[i] !in prev then prev + [ids[i]] else prev
  {
    assert ids[..i + 1][..i] == ids[..i];
  }

  /** Enrolling an eligible student in a course whose roster has grown by `xs`. */
  lemma EnrolStep(st: State, caller: Caller, c: CourseName, xs: set<StudentId>, id: StudentId)
    requires c in st.courses && c in caller.courses && Eligible(st, id)
    ensures AddStudentToCourse(WithStudents(st, c, xs), caller, id, c) ==
      Success(Step(WithStudents(st, c, xs + {id}), id !in st.courses[c].students + xs))
  {
    var before := WithStudents(st, c, xs);
    assert before.courses[c].students == st.courses[c].students + xs;
    if id in st.courses[c].students + xs {
      assert st.courses[c].students + (xs + {id}) == st.courses[c].students + xs;
      assert WithStudents(st, c, xs + {id}) == before;
    } else {
      var course := before.courses[c].(students := before.courses[c].students + {id});
      assert course == st.courses[c].(students := st.courses[c].students + (xs + {id}));
      assert before.(courses := before.courses[c := course]) == WithStudents(st, c, xs + {id});
    }
  }

  /** The state after enrolling the newcomers among `ids` in course `c`. */
  function BulkEnrolled(st: State, c: CourseName, ids: seq<StudentId>): State {
    if c in st.courses then WithStudents(st, c, set x | x in Newcomers(st, Roster(st, c), ids)) else st
  }

  /** A bulk enrolment adds every registered student of the list to the
      roster, changes nothing but that roster, and keeps the invariant. */
  lemma BulkEnrolmentRoster(st: State, c: CourseName, ids: seq<StudentId>)
    requires c in st.courses
    ensures OnlyRostersChanged(st, BulkEnrolled(st, c, ids), c)
    ensures BulkEnrolled(st, c, ids).courses[c].students ==
      st.courses[c].students + (set x | x in ids && Eligible(st, x))
    ensures BulkEnrolled(st, c, ids).courses[c].professors == st.courses[c].professors
    ensures Wf(st) ==> Wf(BulkEnrolled(st, c, ids))
  {
  }

  /** Scanning one more id of a bulk enrolment: an eligible id is handed to
      addStudentToCourse on the state reached so far, which enrols it exactly
      when it is a newcomer; any other id leaves the state alone. */
  lemma BulkStep(st: State, caller: Caller, c: CourseName, ids: seq<StudentId>, i: nat)
    requires c in st.courses && c in caller.courses && i < |ids|
    ensures !Eligible(st, ids[i]) ==> BulkEnrolled(st, c, ids[..i + 1]) == BulkEnrolled(st, c, ids[..i])
    ensures Eligible(st, ids[i]) ==>
      AddStudentToCourse(BulkEnrolled(st, c, ids[..i]), caller, ids[i], c) ==
      Success(Step(BulkEnrolled(st, c, ids[..i + 1]),
                   ids[i] !in Roster(st, c) && ids[i] !in Newcomers(st, Roster(st, c), ids[..i])))
  {
    NewcomersStep(st, Roster(st, c), ids, i);
    if Eligible(st, ids[i]) {
      BulkEnrolOne(st, caller, c, Newcomers(st, Roster(st, c), ids[..i]), ids[i]);
    }
  }

  /** Enrolling an eligible id after the newcomers `prev`: the roster grows
      by `prev + [id]` when `id` is new, and stays as it was otherwise. */
  lemma BulkEnrolOne(st: State, caller: Caller, c: CourseName, prev: seq<StudentId>, id: StudentId)
    requires c in st.courses && c in caller.courses && Eligible(st, id)
    ensures var next := if id !in Roster(st, c) && id !in prev then prev + [id] else prev;
      AddStudentToCourse(WithStudents(st, c, set x | x in prev), caller, id, c) ==
      Success(Step(WithStudents(st, c, set x | x in next), id !in Roster(st, c) && id !in prev))
  {
    var xs := set x | x in prev;
    EnrolStep(st, caller, c, xs, id);
    if id !in Roster(st, c) && id !in prev {
      assert (set x | x in prev + [id]) == xs + {id};
    } else {
      assert st.courses[c].students + (xs + {id}) == st.courses[c].students + xs;
    }
  }

  /** enrollAllStudents: after the authorization check, every id that names a
      registered student is enrolled in turn; the others only raise the
      warning. A course that does not exist is noticed only when the first
      eligible id is enrolled, and reading back an enrolled student's record
      needs the caller's permission for that student. */
  method EnrollAllStudents(st: State, caller: Caller, ids: seq<StudentId>, c: CourseName)
    returns (r: Result<Step<EnrolmentReport>>)
    ensures c !in caller.courses ==> r == Failure(NotAuthorized)
    ensures c in caller.courses && c !in st.courses ==>
      r == if exists i | 0 <= i < |ids| :: Eligible(st, ids[i]) then Failure(CourseNotFound(c))
           else Success(Step(st, EnrolmentReport([], |ids| > 0)))
    ensures c in caller.courses && c in st.courses ==>
      r == if forall x | x in Newcomers(st, Roster(st, c), ids) :: x in caller.studentInfo
           then Success(Step(BulkEnrolled(st, c, ids),
                             EnrolmentReport(Newcomers(st, Roster(st, c), ids),
                                             exists i | 0 <= i < |ids| :: !Eligible(st, ids[i]))))
           else Failure(NotAuthorized)
  {
    if c !in caller.courses {
      return Failure(NotAuthorized);
    }
    if c in st.courses {
      r := EnrolInCourse(st, caller, ids, c);
    } else {
      r := EnrolInMissingCourse(st, caller, ids, c);
    }
  }

  /** The loop of enrollAllStudents for an existing course the caller may act on. */
  method EnrolInCourse(st: State, caller: Caller, ids: seq<StudentId>, c: CourseName)
    returns (r: Result<Step<EnrolmentReport>>)
    requires c in st.courses && c in caller.courses
    ensures r == if forall x | x in Newcomers(st, Roster(st, c), ids) :: x in caller.studentInfo
                 then Success(Step(BulkEnrolled(st, c, ids),
                                   EnrolmentReport(Newcomers(st, Roster(st, c), ids),
                                                   exists i | 0 <= i < |ids| :: !Eligible(st, ids[i]))))
                 else Failure(NotAuthorized)
  {
    var roster := Roster(st, c);
    var cur := st;
    var added: seq<StudentId> := [];
    var warning := false;
    var i := 0;
    assert (set x | x in added) == {};
    WithNoStudents(st, c);
    while i < |ids|
      invariant 0 <= i <= |ids|
      invariant added == Newcomers(st, roster, ids[..i])
      invariant cur == BulkEnrolled(st, c, ids[..i])
      invariant cur.students == st.students
      invariant warning <==> exists j | 0 <= j < i :: !Eligible(st, ids[j])
      invariant forall x | x in added :: x in caller.studentInfo
    {
      var id := ids[i];
      NewcomersStep(st, roster, ids, i);
      BulkStep(st, caller, c, ids, i);
      ghost var next := Newcomers(st, roster, ids[..i + 1]);
      if Eligible(cur, id) {
        assert Eligible(st, id);
        var res := AddStudentToCourse(cur, caller, id, c);
        assert res.value.out <==> id !in roster && id !in added;
        assert next == if res.value.out then added + [id] else added;
        cur := res.value.state;
        if res.value.out {
          if id !in caller.studentInfo {
            assert id in Newcomers(st, roster, ids);
            return Failure(NotAuthorized);
          }
          added := added + [id];
        }
      } else {
        assert next == added;
        warning := true;
      }
      assert (exists j | 0 <= j < i + 1 :: !Eligible(st, ids[j])) <==>
        (exists j | 0 <= j < i :: !Eligible(st, ids[j])) || !Eligible(st, ids[i]);
      i := i + 1;
    }
    assert ids[..i] == ids;
    assert added == Newcomers(st, roster, ids);
    assert forall x | x in Newcomers(st, roster, ids) :: x in caller.studentInfo;
    return Success(Step(cur, EnrolmentReport(added, warning)));
  }

  /** The loop of enrollAllStudents when the course does not exist: the first
      registered id makes addStudentToCourse fail; the other ids only raise
      the warning. */
  method EnrolInMissingCourse(st: State, caller: Caller, ids: seq<StudentId>, c: CourseName)
    returns (r: Result<Step<EnrolmentReport>>)
    requires c !in st.courses
    ensures r == if exists i | 0 <= i < |ids| :: Eligible(st, ids[i]) then Failure(CourseNotFound(c))
                 else Success(Step(st, EnrolmentReport([], |ids| > 0)))
  {
    var warning := false;
    var i := 0;
    while i < |ids|
      invariant 0 <= i <= |ids|
      invariant forall j | 0 <= j < i :: !Eligible(st, ids[j])
      invariant warning <==> i > 0
    {
      if Eligible(st, ids[i]) {
        var res := AddStudentToCourse(st, caller, ids[i], c);
        return Failure(res.error);
      }
      warning := true;
      i := i + 1;
    }
    return Success(Step(st, EnrolmentReport([], warning)));
  }

  // ---------------------------------------------------------------------
  // Roster-file classification (checkCsv).

  datatype StudentStatus = Valid | AlreadyEnrolled | Unregistered | NotFound

  /** The status of one row, checks in order: unknown, unregistered,
      already enrolled, otherwise valid. */
  function Classify(st: State, c: CourseName, sid: StudentId): StudentStatus {
    if sid !in st.students then NotFound
    else if !st.students[sid].registered then Unregistered
    else if EnrolledIn(st, sid, c) then AlreadyEnrolled
    else Valid
  }

  /** Each id gets exactly one status, chosen by priority
      NOT_FOUND > UNREGISTERED > ALREADY_ENROLLED > VALID. */
  lemma ClassificationPriority(st: State, c: CourseName, sid: StudentId)
    ensures Classify(st, c, sid) == NotFound <==> sid !in st.students
    ensures Classify(st, c, sid) == Unregistered <==> sid in st.students && !Eligible(st, sid)
    ensures Classify(st, c, sid) == AlreadyEnrolled <==> Eligible(st, sid) && EnrolledIn(st, sid, c)
    ensures Classify(st, c, sid) == Valid <==> Eligible(st, sid) && !EnrolledIn(st, sid, c)
  {
  }

  /** checkCsv, after parsing: fails when the caller may not act on the
      course; otherwise maps every id of the file to its status. The state is
      only read. */
  method CheckCsv(st: State, caller: Caller, c: CourseName, rows: seq<StudentId>)
    returns (r: Result<map<StudentId, StudentStatus>>)
    ensures r.Failure? <==> c !in caller.courses
    ensures r.Failure? ==> r.error == NotAuthorized
    ensures r.Success? ==> forall x :: x in r.value <==> x in rows
    ensures r.Success? ==> forall x | x in r.value :: r.value[x] == Classify(st, c, x)
  {
    if c !in caller.courses {
      return Failure(NotAuthorized);
    }
    var statuses: map<StudentId, StudentStatus> := map[];
    var i := 0;
    while i < |rows|
      invariant 0 <= i <= |rows|
      invariant forall x :: x in statuses <==> x in rows[..i]
      invariant forall x | x in statuses :: statuses[x] == Classify(st, c, x)
    {
      assert rows[..i + 1] == rows[..i] + [rows[i]];
      statuses := statuses[rows[i] := Classify(st, c, rows[i])];
      i := i + 1;
    }
    assert rows[..i] == rows;
    return Success(statuses);
  }

  /** The classification uses the same existence and enrolment facts as the
      per-member checks of proposeTeam: an unknown id fails the member check
      as unknown, and a VALID id (registered but not enrolled) fails it as
      not enrolled. Registration itself is not a member check. */
  lemma ClassificationMatchesMemberChecks(st: State, c: CourseName, sid: StudentId)
    ensures Classify(st, c, sid) == NotFound <==>
      Proposals.MemberFault(st, c, sid) == Some(StudentNotFound(sid))
    ensures Classify(st, c, sid) == Valid ==>
      Proposals.MemberFault(st, c, sid) == Some(StudentNotEnrolled(sid))
    ensures Classify(st, c, sid) == AlreadyEnrolled ==>
      Proposals.MemberFault(st, c, sid).None? || Proposals.MemberFault(st, c, sid).value.AlreadyTeamedUp?
      || Proposals.MemberFault(st, c, sid).value.ProposalAlreadyAccepted?
  {
  }
}
