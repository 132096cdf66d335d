# VirtualLabs team service — a Dafny model

This project models the rule logic of the VirtualLabs `TeamServiceImpl`. That logic covers:
- team proposals, and the consent tokens students answer them with;
- course team-size bounds;
- course rosters;
- maintenance of teams and proposals.

The repositories and entity links are replaced by one immutable `State` (module `Domain`) of maps and sets. It holds:
- courses: enabled flag, team-size bounds, students, professors;
- students: registered flag;
- professors;
- login names of students and professors;
- finalised teams;
- team proposals: course, team name, status, creator, members, expiry and the tokens not yet consumed.

Each operation is a pure function (or a method where the service loops) from a state to a `Result`:
- `Failure(error)` names the exception the service throws and carries no state, since the service's transaction rolls back.
- `Success(Step(state', out))` gives the new state and the value returned.

`Wf` is the invariant every operation keeps:
- every course has `2 <= minTeamSize <= maxTeamSize <= 10`;
- a student belongs to at most one team per course;
- every proposal id lies below the next id to be issued.

Outside inputs are parameters:
- **Authorization.** The `authService` checks are a `Caller` record. It lists the courses the caller may act on, the students whose details it may read, and the students whose proposal responses it may inspect.
- **Clock.** `LocalDateTime.now()` is a parameter `now`, in seconds.
- **Notification service.** What it does with a new proposal's invitations is a parameter: the tokens issued, or nothing when sending failed.

Modules:
- `Domain`: entities, errors, the invariant.
- `Seqs`: order-preserving de-duplication, as `Stream.distinct` does it.
- `Responses`: `getPendingTeamProposalIdsForStudent`, `hasAcceptedProposals`, `checkProposalResponse`.
- `Proposals`: `proposeTeam`. It includes a priority-based reference definition of its error order.
- `CourseRules`: `addCourse`, `editCourse` and their bounds test.
- `Enrolment`: `addStudentToCourse`, `addProfessorToCourse`, `enrollAllStudents` and the `checkCsv` classification.
- `Maintenance`: `removeStudentFromTeamByCourse`, `deleteTeamProposal`, `cleanTeamProposals`.

### Behaviour of the service worth noting

Line numbers refer to `services/TeamServiceImpl.java`.

- **Check order.** `proposeTeam` checks the caller's authorization (line 568) right after the course exists and before the team-name lookup; the full order is lines 565-590.
- **Duplicate names.** The team-name lookup at line 570 is a single-result finder, and a matching proposal blocks a new one only while it is not REJECTED (line 571). So a name whose earlier proposal was rejected can be proposed again, after which two proposals share the (team, course) name. While both proposals are stored, the finder matches two rows and every authorized proposal of that name in the course fails (deleting or purging one of them clears this); the model reports this as `NonUniqueResult` (`Proposals.ReproposedNameJamsLookup`).
- **Creator.** The creator is never required to be one of the members.
- **Registration.** Members are not checked for registration (lines 592-608 check existence, enrolment, team and acceptance only).
- **Roster-size guard.** The guard at line 589 reads `size < min && size > max`, so it holds only when `max < size < min`. Under the course invariant (`min <= max`) it never holds and a proposal of any size is accepted; the model keeps the conjunction as written and proves it never fires under `Wf`. The invariant holds in this model because `AddCourse` and `EditCourse` use the corrected bounds test (see "## Findings"). With the bounds test as written, a course with min = 2 and max = Integer.MIN_VALUE can exist, and on it the guard does reject every request with zero or one distinct members (`CourseRules.AsWrittenInvertedBoundsTripSizeGuard`).

## Model

| member | source | states |
|---|---|---|
| Domain.AtMostOneTeam | ServerModule/src/main/java/it/polito/ai/virtualLabs/services/TeamServiceImpl.java:315 | under the invariant the (student, course) team lookup matches at most one team |
| Seqs.Dedup | ServerModule/src/main/java/it/polito/ai/virtualLabs/services/TeamServiceImpl.java:588 | the distinct member list has exactly the elements of the request, without repetitions, in the order of their first occurrences, and is no longer than it |
| Responses.PendingTeamProposalIdsForStudent | ServerModule/src/main/java/it/polito/ai/virtualLabs/services/TeamServiceImpl.java:897-909 | the ids returned are exactly the stored proposals that are pending, of the course, and list the student |
| Responses.HasAcceptedProposals | ServerModule/src/main/java/it/polito/ai/virtualLabs/services/TeamServiceImpl.java:732-752 | fails for an unknown student, then an unknown course, then a refused course; otherwise true exactly when the student is in some pending proposal of the course and holds no token of any of them |
| Responses.CheckProposalResponse | ServerModule/src/main/java/it/polito/ai/virtualLabs/services/TeamServiceImpl.java:755-770 | fails for an unknown student, an unknown proposal, then a refused caller; succeeds exactly when all three checks pass, and then returns true exactly when no remaining token of the proposal belongs to the student |
| Responses.HasAcceptedIffAllAnswered | ServerModule/src/main/java/it/polito/ai/virtualLabs/services/TeamServiceImpl.java:741-770 | having accepted in a course means being in a pending proposal and having every such proposal answered, per checkProposalResponse |
| Proposals.CheckMembers | ServerModule/src/main/java/it/polito/ai/virtualLabs/services/TeamServiceImpl.java:592-611 | the member checks pass exactly when every member passes all four of its checks |
| Proposals.ProposeTeam | ServerModule/src/main/java/it/polito/ai/virtualLabs/services/TeamServiceImpl.java:564-639 | on success, exactly one proposal is added, under a fresh id. It is pending, has the requested course and name, the distinct members, the creator's id, expiry now + 3 days and the issued tokens. Nothing else changes and the invariant is kept. When every check passes but the invitations cannot be sent, it fails with the sending failure |
| Proposals.CheckMembersReportsFirst | ServerModule/src/main/java/it/polito/ai/virtualLabs/services/TeamServiceImpl.java:592-611 | the members are checked in turn and the first faulty member's fault is reported |
| Proposals.MemberFaultIffBroken | ServerModule/src/main/java/it/polito/ai/virtualLabs/services/TeamServiceImpl.java:593-608 | a member passes its checks exactly when it breaks none of the four member rules |
| Proposals.RequestFaultIffBroken | ServerModule/src/main/java/it/polito/ai/virtualLabs/services/TeamServiceImpl.java:565-590 | the request checks pass exactly when none of the eight request rules is broken |
| Proposals.ProposeTeamSucceedsIff | ServerModule/src/main/java/it/polito/ai/virtualLabs/services/TeamServiceImpl.java:564-639 | proposeTeam succeeds exactly when no rule is broken and the invitations were sent; when no rule is broken but sending failed, it fails with the sending failure |
| Proposals.RequestFaultReportsFirst | ServerModule/src/main/java/it/polito/ai/virtualLabs/services/TeamServiceImpl.java:565-590 | when the first broken rule is a request rule, its error is the one reported |
| Proposals.RequestPassesBeforeMembers | ServerModule/src/main/java/it/polito/ai/virtualLabs/services/TeamServiceImpl.java:565-592 | if a member rule is the first broken rule, every request check passes |
| Proposals.MembersBeforeFirstPass | ServerModule/src/main/java/it/polito/ai/virtualLabs/services/TeamServiceImpl.java:592-611 | the members before the first broken member rule pass, and that member fails with the rule's error |
| Proposals.ProposeTeamReportsFirstBrokenRule | ServerModule/src/main/java/it/polito/ai/virtualLabs/services/TeamServiceImpl.java:565-611 | the error reported is the one of the broken rule with the smallest priority, so the failures come in the service's fixed order |
| Proposals.CardinalityGuardVacuous | ServerModule/src/main/java/it/polito/ai/virtualLabs/services/TeamServiceImpl.java:588-590 | with min <= max the conjunctive size guard never holds |
| Proposals.CheckMembersNeverBlamesSize | ServerModule/src/main/java/it/polito/ai/virtualLabs/services/TeamServiceImpl.java:592-611 | the member checks never report a size violation |
| Proposals.ProposeTeamIgnoresRosterSize | ServerModule/src/main/java/it/polito/ai/virtualLabs/services/TeamServiceImpl.java:588-590 | under the course-bounds invariant, proposeTeam never rejects a request for its number of members |
| Proposals.GuardCountsDistinctMembers | ServerModule/src/main/java/it/polito/ai/virtualLabs/services/TeamServiceImpl.java:588-589 | the size the guard sees is the number of distinct member ids |
| Proposals.ReproposedNameJamsLookup | ServerModule/src/main/java/it/polito/ai/virtualLabs/services/TeamServiceImpl.java:570-572 | a name can be proposed again only when its earlier proposal was rejected, and right after that, while both proposals are stored, every proposal of the name in the course by a caller allowed to act on it fails with a non-unique lookup |
| CourseRules.Wrap32 | ServerModule/src/main/java/it/polito/ai/virtualLabs/services/TeamServiceImpl.java:86 | 32-bit subtraction: the result agrees with the true difference modulo 2^32, and equals it when it fits |
| CourseRules.BoundsRejectedIffNotOk | ServerModule/src/main/java/it/polito/ai/virtualLabs/services/TeamServiceImpl.java:82-86 | the intended bounds test accepts exactly 2 <= min <= max <= 10 |
| CourseRules.AsWrittenAgreesWithoutOverflow | ServerModule/src/main/java/it/polito/ai/virtualLabs/services/TeamServiceImpl.java:82-86 | when max - min fits in 32 bits, the written test and the intended test agree |
| CourseRules.AsWrittenAdmitsInvertedBounds | ServerModule/src/main/java/it/polito/ai/virtualLabs/services/TeamServiceImpl.java:82-86 | the written test accepts min = 2, max = Integer.MIN_VALUE, which breaks the bounds invariant |
| CourseRules.AsWrittenInvertedBoundsTripSizeGuard | ServerModule/src/main/java/it/polito/ai/virtualLabs/services/TeamServiceImpl.java:82-86 | on a course whose inverted bounds the written test accepted, the conjunctive size guard of proposeTeam (line 589) holds for every request with fewer than two distinct members |
| CourseRules.AddCourse | ServerModule/src/main/java/it/polito/ai/virtualLabs/services/TeamServiceImpl.java:78-104 | fails only for an unknown professor. Returns true exactly when the name is new, the bounds are valid and the info file was written; then it adds just that course, with no students and the professor as its only teacher. Keeps the invariant |
| CourseRules.EditCourse | ServerModule/src/main/java/it/polito/ai/virtualLabs/services/TeamServiceImpl.java:817-843 | fails for an unknown course, then a refused caller. Returns true exactly when the bounds are valid, and then changes only the two bounds of that course. Keeps the invariant |
| Enrolment.AddStudentToCourse | ServerModule/src/main/java/it/polito/ai/virtualLabs/services/TeamServiceImpl.java:268-288 | fails for an unknown course, an unknown student, then a refused course. Returns false with the state unchanged when the student is already enrolled; otherwise adds exactly that student to the roster |
| Enrolment.AddStudentTwiceIsNoop | ServerModule/src/main/java/it/polito/ai/virtualLabs/services/TeamServiceImpl.java:276-287 | enrolling the same student again returns false and changes nothing |
| Enrolment.AddProfessorToCourse | ServerModule/src/main/java/it/polito/ai/virtualLabs/services/TeamServiceImpl.java:326-346 | the same as addStudentToCourse, for the professors of the course |
| Enrolment.AddProfessorTwiceIsNoop | ServerModule/src/main/java/it/polito/ai/virtualLabs/services/TeamServiceImpl.java:334-345 | adding the same professor again returns false and changes nothing |
| Enrolment.Newcomers | ServerModule/src/main/java/it/polito/ai/virtualLabs/services/TeamServiceImpl.java:410-421 | the students a bulk enrolment adds are, without repetition, the registered listed ids not yet on the roster, in the order of their first occurrences in the list |
| Enrolment.BulkEnrolmentRoster | ServerModule/src/main/java/it/polito/ai/virtualLabs/services/TeamServiceImpl.java:410-421 | a bulk enrolment adds every registered listed student to the roster, changes nothing else and keeps the invariant |
| Enrolment.BulkStep | ServerModule/src/main/java/it/polito/ai/virtualLabs/services/TeamServiceImpl.java:414-418 | each registered id is handed to addStudentToCourse, which reports true exactly for a newcomer; other ids leave the state alone |
| Enrolment.EnrollAllStudents | ServerModule/src/main/java/it/polito/ai/virtualLabs/services/TeamServiceImpl.java:406-434 | fails for a refused course. For a missing course, fails exactly when some listed id is registered. Otherwise succeeds exactly when every newcomer's details may be read, and returns the newcomers in order plus a warning exactly when some id is unknown or unregistered |
| Enrolment.ClassificationPriority | ServerModule/src/main/java/it/polito/ai/virtualLabs/services/TeamServiceImpl.java:456-471 | each id gets one status, by priority NOT_FOUND, then UNREGISTERED, then ALREADY_ENROLLED, then VALID |
| Enrolment.CheckCsv | ServerModule/src/main/java/it/polito/ai/virtualLabs/services/TeamServiceImpl.java:438-471 | fails exactly for a refused course; otherwise maps exactly the ids of the file, each to its classification |
| Enrolment.ClassificationMatchesMemberChecks | ServerModule/src/main/java/it/polito/ai/virtualLabs/services/TeamServiceImpl.java:456-471 | NOT_FOUND is exactly proposeTeam's unknown-member fault. A VALID id fails proposeTeam's enrolment check. An ALREADY_ENROLLED id can only fail the team or acceptance check |
| Maintenance.RemoveStudentFromTeamByCourse | ServerModule/src/main/java/it/polito/ai/virtualLabs/services/TeamServiceImpl.java:306-322 | fails for an unknown course, an unknown student, a refused course, then an ambiguous lookup. Afterwards the student is in no team of the course; the team it left loses only it and is deleted if left empty; other teams and the rest of the state are unchanged; the invariant is kept |
| Maintenance.RemoveNeverAmbiguous | ServerModule/src/main/java/it/polito/ai/virtualLabs/services/TeamServiceImpl.java:315 | under the invariant, the removal succeeds once its three checks pass |
| Maintenance.RemoveFromTeamTwiceIsNoop | ServerModule/src/main/java/it/polito/ai/virtualLabs/services/TeamServiceImpl.java:306-322 | removing the student again changes nothing |
| Maintenance.RemovedStudentIsUnteamed | ServerModule/src/main/java/it/polito/ai/virtualLabs/services/TeamServiceImpl.java:316-320 | after the removal, proposeTeam's already-teamed check no longer holds for the student |
| Maintenance.DeleteTeamProposal | ServerModule/src/main/java/it/polito/ai/virtualLabs/services/TeamServiceImpl.java:884-894 | fails for an unknown proposal, then a refused course. Otherwise removes exactly that proposal, leaving the other proposals and the rest of the state unchanged and keeping the invariant |
| Maintenance.DeleteTwiceFails | ServerModule/src/main/java/it/polito/ai/virtualLabs/services/TeamServiceImpl.java:884-887 | a deleted proposal cannot be deleted again |
| Maintenance.ExpiredIds | ServerModule/src/main/java/it/polito/ai/virtualLabs/services/TeamServiceImpl.java:242-247 | the ids the purge deletes are exactly those of entries expired more than 30 days ago |
| Maintenance.ExpiredIdsCountAndOrder | ServerModule/src/main/java/it/polito/ai/virtualLabs/services/TeamServiceImpl.java:242-247 | the purge deletes one id per expired entry, in list order: as many ids as the listing has expired entries, drawn in order from the ids of the listing |
| Maintenance.Unexpired | ServerModule/src/main/java/it/polito/ai/virtualLabs/services/TeamServiceImpl.java:248 | the returned list is an order-preserving subsequence of the input that holds every unexpired entry as many times as the input does and no expired entry |
| Maintenance.RepeatedExpiredEntryFailsClean | ServerModule/src/main/java/it/polito/ai/virtualLabs/services/TeamServiceImpl.java:242-245 | a listing holding one expired proposal twice cannot be cleaned, since the second deletion finds the proposal gone |
| Maintenance.SweepDeletesExpired | ServerModule/src/main/java/it/polito/ai/virtualLabs/services/TeamServiceImpl.java:242-247 | the deletion loop succeeds exactly when the expired ids are distinct, existing and of courses the caller may act on; then it removes exactly those proposals; otherwise the error is a missing proposal or a refused course |
| Maintenance.CleanTeamProposals | ServerModule/src/main/java/it/polito/ai/virtualLabs/services/TeamServiceImpl.java:241-249 | deletes exactly the proposals expired more than 30 days ago, returns the unexpired entries in order and keeps the invariant |
| Maintenance.CleanIsIdempotent | ServerModule/src/main/java/it/polito/ai/virtualLabs/services/TeamServiceImpl.java:241-249 | cleaning a cleaned list at the same instant deletes nothing and returns the same list |

## Left out

- Course information files: reading and writing them in `addCourse`, `editCourse` and `enrichCourses` is file I/O. `AddCourse` takes the outcome of the write as a flag. `EditCourse` ignores it, because the service only logs a failed write.
- CSV parsing and JSON output in `checkCsv`: these are library calls. The model takes the parsed ids and returns the id-to-status map, not its JSON rendering with ordinal codes.
- Parse errors: a `checkCsv` parse error is not modelled, because it is library behaviour.
- E-mail dispatch and the token lifecycle: issuing, accepting, declining and consuming tokens and finalising a team belong to the notification service, which is not part of this model. Here tokens are only issued (as a parameter of `ProposeTeam`) and read.
- Role checks: the `@PreAuthorize` annotations are left out. The `authService` checks are the `Caller` record, not a computation.
- DTO mapping: ModelMapper is left out, and so is `ModelHelper.enrich`, which adds hypermedia links.
- Ids: proposal and team ids are natural numbers, so null ids do not occur.
- The rest of the service: `statusDesc` text, the other CRUD and query operations of `TeamServiceImpl`, the application bootstrap and the client-side view models are outside the modelled core.
- ProposeTeam: a failed dispatch is modelled as a failure that keeps nothing. The service throws a checked `MessagingException`, which `javax.transaction.Transactional` does not roll back by default. So in the service the saved proposal may survive the failure. The model treats every operation as atomic.
- EnrollAllStudents: the record appended to the answer when some id was unusable (an empty student with a null id) is modelled as the `warning` flag of the report.
- EnrollAllStudents: the returned student records are modelled as their ids.
- CleanTeamProposals: the listing to purge is modelled as its ids and expiry times. The other DTO fields, team name and status among them, play no part in the purge.
- CleanTeamProposals: the service reads the clock once per entry (line 243), so a purge that runs across an instant boundary may judge later entries against a later time. The model reads one `now` per call.
- CleanTeamProposals: setting a purged entry's id to null is modelled directly as the filter on expiry. Since every input id is non-null, the two select the same entries.
- DeleteTeamProposal: the proposal's member links are stored inside the proposal, so they go with it. The service's separate token rows are not modelled; the remaining tokens are kept inside the proposal and vanish with it.
- Concurrency and the transaction boundaries between operations are framework behaviour. Each operation is atomic.

## Findings

| source | as written | input that shows it | evidently intended | confidence | as-written member | corrected member |
|---|---|---|---|---|---|---|
| ServerModule/src/main/java/it/polito/ai/virtualLabs/services/TeamServiceImpl.java:82-86 | the bounds test `max - min < 0` is computed in 32-bit `int` arithmetic (the same test is at lines 823-830 of `editCourse`) | minTeamSize = 2, maxTeamSize = Integer.MIN_VALUE: the difference wraps to 2147483646, so the course is accepted with its maximum below its minimum | reject whenever max < min, so that every course keeps 2 <= min <= max <= 10 | not executed; assumes the size fields of `CourseDTO` are Java `int`, a type outside this model | CourseRules.AsWrittenAdmitsInvertedBounds | CourseRules.AddCourse |
