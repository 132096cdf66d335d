/** Course creation and editing (addCourse, editCourse): the team-size bounds
    a course may carry. */
module CourseRules {
  import opened Domain
  import Proposals

  /** A Java `int`. */
  newtype int32 = x: int | -0x8000_0000 <= x < 0x8000_0000

  /** The course form a professor submits (CourseDTO): the course info text
      goes to a file and is not modelled. */
  datatype CourseForm = CourseForm(name: CourseName, enabled: bool, minTeamSize: int32, maxTeamSize: int32)

  /** Two's-complement wrap-around of a mathematical integer to 32 bits. */
  function Wrap32(x: int): (r: int32)
    ensures -0x8000_0000 <= x < 0x8000_0000 ==> r as int == x
    ensures (r as int - x) % 0x1_0000_0000 == 0
  {
    var m := x % 0x1_0000_0000;
    if m < 0x8000_0000 then m as int32 else (m - 0x1_0000_0000) as int32
  }

  /** The bounds test as the service writes it, with `max - min` computed in
      32-bit arithmetic. */
  predicate BoundsRejectedAsWritten(min: int32, max: int32) {
    min as int < MinSizeForGroup || max as int > MaxSizeForGroup || Wrap32(max as int - min as int) < 0
  }

  /** The bounds test as intended: `max - min < 0` read as `max < min`. */
  predicate BoundsRejected(min: int, max: int) {
    min < MinSizeForGroup || max > MaxSizeForGroup || max - min < 0
  }

  /** The intended test accepts exactly the bounds of the course invariant. */
  lemma BoundsRejectedIffNotOk(min: int, max: int)
    ensures !BoundsRejected(min, max) <==> BoundsOk(min, max)
  {
  }

  /** When `max - min` fits in 32 bits the written test is the intended one. */
  lemma AsWrittenAgreesWithoutOverflow(min: int32, max: int32)
    requires -0x8000_0000 <= max as int - min as int < 0x8000_0000
    ensures BoundsRejectedAsWritten(min, max) == BoundsRejected(min as int, max as int)
  {
  }

  /** The written test accepts `min = 2`, `max = Integer.MIN_VALUE`: the
      subtraction wraps to a positive number, so a course whose maximum team
      size is below its minimum gets through. */
  lemma AsWrittenAdmitsInvertedBounds()
    ensures !BoundsRejectedAsWritten(2, -0x8000_0000)
    ensures !BoundsOk(2, -0x8000_0000)
  {
  }

  /** On a course whose inverted bounds the written test let through, the
      conjunctive roster-size guard of proposeTeam does fire: every request
      with fewer than two distinct members is rejected for its size. */
  lemma AsWrittenInvertedBoundsTripSizeGuard(min: int32, max: int32, size: nat)
    requires !BoundsRejectedAsWritten(min, max) && max < min
    requires size < MinSizeForGroup
    ensures Proposals.CardinalityGuard(size, min as int, max as int)
  {
  }

  /** addCourse: fails when the professor is unknown; returns false, leaving
      the state alone, when the name is taken, the bounds are rejected or the
      course info file could not be written (`infoStored`); otherwise adds the
      course with the professor as its only teacher and no students. */
  function AddCourse(st: State, form: CourseForm, professorUsername: Username, infoStored: bool)
    : (r: Result<Step<bool>>)
    ensures r.Failure? <==> LookupProfessor(st, professorUsername).None?
    ensures r.Failure? ==> r.error == ProfessorNotFound(professorUsername)
    ensures r.Success? && !r.value.out ==> r.value.state == st
    ensures r.Success? ==>
      (r.value.out <==> form.name !in st.courses && BoundsOk(form.minTeamSize as int, form.maxTeamSize as int) && infoStored)
    ensures r.Success? && r.value.out ==>
      && r.value.state.courses.Keys == st.courses.Keys + {form.name}
      && r.value.state.courses[form.name] ==
           Course(form.enabled, form.minTeamSize as int, form.maxTeamSize as int, {},
                  {LookupProfessor(st, professorUsername).value})
      && r.value.state.(courses := st.courses) == st
      && forall c | c in st.courses :: r.value.state.courses[c] == st.courses[c]
    ensures r.Success? && Wf(st) ==> Wf(r.value.state)
  {
    match LookupProfessor(st, professorUsername)
    case None => Failure(ProfessorNotFound(professorUsername))
    case Some(prof) =>
      if form.name in st.courses || BoundsRejected(form.minTeamSize as int, form.maxTeamSize as int) then
        Success(Step(st, false))
      else if !infoStored then Success(Step(st, false))
      else
        var course := Course(form.enabled, form.minTeamSize as int, form.maxTeamSize as int, {}, {prof});
        Success(Step(st.(courses := st.courses[form.name := course]), true))
  }

  /** editCourse: fails when the course is unknown or the caller may not act on
      it; returns false, leaving the state alone, when the bounds are rejected;
      otherwise replaces the two bounds and nothing else. A failed write of the
      info file is only logged. */
  function EditCourse(st: State, caller: Caller, name: CourseName, form: CourseForm): (r: Result<Step<bool>>)
    ensures name !in st.courses ==> r == Failure(CourseNotFound(name))
    ensures name in st.courses && name !in caller.courses ==> r == Failure(NotAuthorized)
    ensures r.Success? <==> name in st.courses && name in caller.courses
    ensures r.Success? ==> (r.value.out <==> BoundsOk(form.minTeamSize as int, form.maxTeamSize as int))
    ensures r.Success? && !r.value.out ==> r.value.state == st
    ensures r.Success? && r.value.out ==>
      && r.value.state.courses.Keys == st.courses.Keys
      && r.value.state.courses[name] ==
           st.courses[name].(minTeamSize := form.minTeamSize as int, maxTeamSize := form.maxTeamSize as int)
      && r.value.state.(courses := st.courses) == st
      && forall c | c in st.courses && c != name :: r.value.state.courses[c] == st.courses[c]
    ensures r.Success? && Wf(st) ==> Wf(r.value.state)
  {
    if name !in st.courses then Failure(CourseNotFound(name))
    else if name !in caller.courses then Failure(NotAuthorized)
    else if BoundsRejected(form.minTeamSize as int, form.maxTeamSize as int) then Success(Step(st, false))
    else
      var course := st.courses[name].(minTeamSize := form.minTeamSize as int, maxTeamSize := form.maxTeamSize as int);
      Success(Step(st.(courses := st.courses[name := course]), true))
  }
}
