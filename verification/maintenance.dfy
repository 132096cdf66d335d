/** Team and proposal maintenance: taking a student out of its team in a
    course (removeStudentFromTeamByCourse), deleting a proposal
    (deleteTeamProposal) and purging long-expired proposals from a listing
    (cleanTeamProposals). */
module Maintenance {
  import opened Domain
  import opened Seqs
  import Proposals

  // ---------------------------------------------------------------------
  // removeStudentFromTeamByCourse

  /** removeStudentFromTeamByCourse: fails when the course or the student is
      unknown or the caller may not act on the course, and when the lookup by
      (student, course) matches several teams. Otherwise the student leaves
      the team it has in the course, and a team left without members is
      deleted; a student without a team changes nothing. */
  function RemoveStudentFromTeamByCourse(st: State, caller: Caller, sid: StudentId, c: CourseName)
    : (r: Result<Step<()>>)
    ensures c !in st.courses ==> r == Failure(CourseNotFound(c))
    ensures c in st.courses && sid !in st.students ==> r == Failure(StudentNotFound(sid))
    ensures c in st.courses && sid in st.students && c !in caller.courses ==> r == Failure(NotAuthorized)
    ensures r.Success? <==>
      c in st.courses && sid in st.students && c in caller.courses && |TeamsOf(st, sid, c)| <= 1
    ensures c in st.courses && sid in st.students && c in caller.courses && r.Failure? ==>
      r.error == NonUniqueResult
    ensures r.Success? ==> TeamsOf(r.value.state, sid, c) == {}
    ensures r.Success? ==> r.value.state.(teams := st.teams) == st
    ensures r.Success? ==> r.value.state.teams.Keys <= st.teams.Keys
    ensures r.Success? ==> forall tid | tid in st.teams && tid !in TeamsOf(st, sid, c) ::
      tid in r.value.state.teams && r.value.state.teams[tid] == st.teams[tid]
    ensures r.Success? ==> forall tid | tid in TeamsOf(st, sid, c) ::
      tid in r.value.state.teams <==> st.teams[tid].members != {sid}
    ensures r.Success? ==> forall tid | tid in TeamsOf(st, sid, c) && tid in r.value.state.teams ::
      r.value.state.teams[tid] == st.teams[tid].(members := st.teams[tid].members - {sid})
    ensures r.Success? && Wf(st) ==> Wf(r.value.state)
  {
    if c !in st.courses then Failure(CourseNotFound(c))
    else if sid !in st.students then Failure(StudentNotFound(sid))
    else if c !in caller.courses then Failure(NotAuthorized)
    else
      var found := TeamsOf(st, sid, c);
      if |found| > 1 then Failure(NonUniqueResult)
      else
        var teams := map tid | tid in st.teams && (tid !in found || st.teams[tid].members != {sid}) ::
          if tid in found then st.teams[tid].(members := st.teams[tid].members - {sid}) else st.teams[tid];
        Success(Step(st.(teams := teams), ()))
  }

  /** Under the invariant the team lookup is never ambiguous, so once the
      three checks pass the removal succeeds. */
  lemma RemoveNeverAmbiguous(st: State, caller: Caller, sid: StudentId, c: CourseName)
    requires Wf(st) && c in st.courses && sid in st.students && c in caller.courses
    ensures RemoveStudentFromTeamByCourse(st, caller, sid, c).Success?
  {
    AtMostOneTeam(st, sid, c);
  }

  /** Removing the student a second time changes nothing. */
  lemma RemoveFromTeamTwiceIsNoop(st: State, caller: Caller, sid: StudentId, c: CourseName)
    requires RemoveStudentFromTeamByCourse(st, caller, sid, c).Success?
    ensures var st' := RemoveStudentFromTeamByCourse(st, caller, sid, c).value.state;
      RemoveStudentFromTeamByCourse(st', caller, sid, c) == Success(Step(st', ()))
  {
    var st' := RemoveStudentFromTeamByCourse(st, caller, sid, c).value.state;
    var st'' := RemoveStudentFromTeamByCourse(st', caller, sid, c).value.state;
    assert st''.teams == st'.teams;
  }

  /** A removed student no longer counts as teamed up in the course, so the
      corresponding member check of proposeTeam no longer rejects it. */
  lemma RemovedStudentIsUnteamed(st: State, caller: Caller, sid: StudentId, c: CourseName)
    requires RemoveStudentFromTeamByCourse(st, caller, sid, c).Success?
    ensures !Proposals.TeamedUpIn(RemoveStudentFromTeamByCourse(st, caller, sid, c).value.state, sid, c)
  {
  }

  // ---------------------------------------------------------------------
  // deleteTeamProposal

  /** deleteTeamProposal: fails when the proposal does not exist or the
      caller may not act on its course (the check made while listing its
      members); otherwise the proposal, with its member links and remaining
      tokens, is gone and nothing else changes. */
  function DeleteTeamProposal(st: State, caller: Caller, pid: ProposalId): (r: Result<Step<()>>)
    ensures pid !in st.proposals ==> r == Failure(ProposalNotFound(pid))
    ensures pid in st.proposals && st.proposals[pid].course !in caller.courses ==> r == Failure(NotAuthorized)
    ensures r.Success? <==> pid in st.proposals && st.proposals[pid].course in caller.courses
    ensures r.Success? ==> pid !in r.value.state.proposals
    ensures r.Success? ==> r.value.state.proposals.Keys == st.proposals.Keys - {pid}
    ensures r.Success? ==> forall id | id in r.value.state.proposals ::
      r.value.state.proposals[id] == st.proposals[id]
    ensures r.Success? ==> r.value.state.(proposals := st.proposals) == st
    ensures r.Success? && Wf(st) ==> Wf(r.value.state)
  {
    if pid !in st.proposals then Failure(ProposalNotFound(pid))
    else if st.proposals[pid].course !in caller.courses then Failure(NotAuthorized)
    else Success(Step(st.(proposals := st.proposals - {pid}), ()))
  }

  /** A deleted proposal cannot be deleted again. */
  lemma DeleteTwiceFails(st: State, caller: Caller, pid: ProposalId)
    requires DeleteTeamProposal(st, caller, pid).Success?
    ensures DeleteTeamProposal(DeleteTeamProposal(st, caller, pid).value.state, caller, pid) ==
      Failure(ProposalNotFound(pid))
  {
  }

  // ---------------------------------------------------------------------
  // cleanTeamProposals

  /** The fields of a listed proposal that the purge looks at: its id and
      its expiry time. */
  datatype ProposalDto = ProposalDto(id: ProposalId, expiry: Time)

  /** The proposal expired more than 30 days before `now`. */
  predicate Expired(d: ProposalDto, now: Time) {
    d.expiry < now - TeamProposalExpiryDays * SecondsPerDay
  }

  /** The ids of a listing, in order. */
  function Ids(list: seq<ProposalDto>): (r: seq<ProposalId>)
    ensures |r| == |list|
    ensures forall i | 0 <= i < |list| :: r[i] == list[i].id
  {
    if |list| == 0 then [] else [list[0].id] + Ids(list[1..])
  }

  /** Dropping the first entry of a listing drops one unexpired entry when
      that entry is unexpired, and none otherwise. */
  lemma UnexpiredHead(list: seq<ProposalDto>, now: Time)
    requires |list| > 0
    ensures |Unexpired(list, now)| == |Unexpired(list[1..], now)| + if Expired(list[0], now) then 0 else 1
  {
    var u := Unexpired(list, now);
    var u' := Unexpired(list[1..], now);
    assert list == [list[0]] + list[1..];
    var extra := if Expired(list[0], now) then multiset{} else multiset{list[0]};
    assert multiset(u) == multiset(u') + extra by {
      forall d ensures multiset(u)[d] == (multiset(u') + extra)[d] {
        assert multiset(list)[d] == multiset(list[1..])[d] + multiset{list[0]}[d];
      }
    }
    assert |multiset(u)| == |multiset(u')| + |extra|;
  }

  /** One step of `ExpiredIds`: the ids of the expired entries of the tail,
      with the first id put in front when the first entry has expired, count
      and order the expired entries of the whole listing. */
  lemma ExpiredIdsStep(list: seq<ProposalDto>, now: Time, rest: seq<ProposalId>)
    requires |list| > 0
    requires |rest| + |Unexpired(list[1..], now)| == |list| - 1
    requires SubsequenceOf(rest, Ids(list[1..]))
    ensures var r := if Expired(list[0], now) then [list[0].id] + rest else rest;
      |r| + |Unexpired(list, now)| == |list| && SubsequenceOf(r, Ids(list))
  {
    UnexpiredHead(list, now);
    SubsequencePrepend(list[0].id, rest, Ids(list[1..]));
    assert Ids(list) == [list[0].id] + Ids(list[1..]);
  }

  /** The ids of the expired entries, one per expired entry, in list order
      (see `ExpiredIdsCountAndOrder`). */
  function ExpiredIds(list: seq<ProposalDto>, now: Time): (r: seq<ProposalId>)
    ensures |r| <= |list|
    ensures forall i | 0 <= i < |list| && Expired(list[i], now) :: list[i].id in r
    ensures (set x | x in r) == (set d | d in list && Expired(d, now) :: d.id)
  {
    if |list| == 0 then []
    else
      var rest := ExpiredIds(list[1..], now);
      ExpiredSetStep(list, now, rest);
      if Expired(list[0], now) then [list[0].id] + rest else rest
  }

  /** One step of `ExpiredIds`, for the set of expired ids. */
  lemma ExpiredSetStep(list: seq<ProposalDto>, now: Time, rest: seq<ProposalId>)
    requires |list| > 0
    requires (set x | x in rest) == (set d | d in list[1..] && Expired(d, now) :: d.id)
    ensures var r := if Expired(list[0], now) then [list[0].id] + rest else rest;
      (set x | x in r) == (set d | d in list && Expired(d, now) :: d.id)
  {
    assert forall d :: d in list <==> d == list[0] || d in list[1..] by {
      assert list == [list[0]] + list[1..];
    }
    var expired := set d | d in list && Expired(d, now) :: d.id;
    var expiredRest := set d | d in list[1..] && Expired(d, now) :: d.id;
    if Expired(list[0], now) {
      assert expired == {list[0].id} + expiredRest;
      assert (set x | x in [list[0].id] + rest) == {list[0].id} + (set x | x in rest);
    } else {
      assert expired == expiredRest;
    }
  }

  /** `ExpiredIds` gives one id per expired entry, in list order: as many
      ids as the listing has expired entries (all but its unexpired ones),
      drawn in order from the ids of the listing. */
  lemma {:induction false} ExpiredIdsCountAndOrder(list: seq<ProposalDto>, now: Time)
    ensures |ExpiredIds(list, now)| + |Unexpired(list, now)| == |list|
    ensures SubsequenceOf(ExpiredIds(list, now), Ids(list))
  {
    if |list| > 0 {
      ExpiredIdsCountAndOrder(list[1..], now);
      ExpiredIdsStep(list, now, ExpiredIds(list[1..], now));
      ExpiredIdsCons(list, now);
    }
  }

  /** The entries the purge keeps, in their original order and with their
      repetitions: every unexpired entry as often as the listing holds it. */
  function Unexpired(list: seq<ProposalDto>, now: Time): (r: seq<ProposalDto>)
    ensures forall i | 0 <= i < |r| :: !Expired(r[i], now)
    ensures forall i | 0 <= i < |list| && !Expired(list[i], now) :: list[i] in r
    ensures SubsequenceOf(r, list)
    ensures forall d {:trigger multiset(r)[d]} :: multiset(r)[d] == if Expired(d, now) then 0 else multiset(list)[d]
  {
    if |list| == 0 then []
    else
      var init := list[..|list| - 1];
      var last := list[|list| - 1];
      assert forall i | 0 <= i < |list| - 1 :: list[i] == init[i];
      assert list == init + [last];
      assert multiset(list) == multiset(init) + multiset{last};
      if Expired(last, now) then Unexpired(init, now)
      else
        var r' := Unexpired(init, now);
        assert multiset(r' + [last]) == multiset(r') + multiset{last};
        r' + [last]
  }

  /** The sweep of cleanTeamProposals: each expired entry, in list order, is
      deleted through deleteTeamProposal; the first failure aborts the whole
      call. */
  function Sweep(st: State, caller: Caller, list: seq<ProposalDto>, now: Time): Result<State>
    decreases |list|
  {
    if |list| == 0 then Success(st)
    else if Expired(list[0], now) then
      match DeleteTeamProposal(st, caller, list[0].id)
      case Failure(e) => Failure(e)
      case Success(s) => Sweep(s.state, caller, list[1..], now)
    else Sweep(st, caller, list[1..], now)
  }

  /** The listed ids can be deleted one after the other: no id repeats, and
      each names a proposal of a course the caller may act on. */
  ghost predicate Deletable(st: State, caller: Caller, ids: seq<ProposalId>) {
    && NoDuplicates(ids)
    && forall i | 0 <= i < |ids| :: ids[i] in st.proposals && st.proposals[ids[i]].course in caller.courses
  }

  /** The sweep succeeds exactly when the expired ids are deletable, and then
      removes exactly those proposals; otherwise it reports a missing
      proposal or a refused course. */
  lemma {:induction false} SweepDeletesExpired(st: State, caller: Caller, list: seq<ProposalDto>, now: Time)
    ensures Sweep(st, caller, list, now).Success? <==> Deletable(st, caller, ExpiredIds(list, now))
    ensures Sweep(st, caller, list, now).Success? ==>
      Sweep(st, caller, list, now).value == st.(proposals := st.proposals - (set x | x in ExpiredIds(list, now)))
    ensures Sweep(st, caller, list, now).Failure? ==>
      Sweep(st, caller, list, now).error.ProposalNotFound? || Sweep(st, caller, list, now).error == NotAuthorized
    decreases |list|
  {
    if |list| == 0 {
      assert st.(proposals := st.proposals - {}) == st;
    } else if !Expired(list[0], now) {
      SweepDeletesExpired(st, caller, list[1..], now);
    } else if DeleteTeamProposal(st, caller, list[0].id).Success? {
      SweepDeletesExpired(DeleteTeamProposal(st, caller, list[0].id).value.state, caller, list[1..], now);
      SweepAfterDeletion(st, caller, list, now);
    } else {
      var ids := ExpiredIds(list, now);
      assert ids[0] == list[0].id;
    }
  }

  /** The inductive step of the sweep for an expired head whose deletion
      succeeds: what holds for the rest of the list, from the state after the
      deletion, holds for the whole list from the state before it. */
  lemma SweepAfterDeletion(st: State, caller: Caller, list: seq<ProposalDto>, now: Time)
    requires |list| > 0 && Expired(list[0], now)
    requires DeleteTeamProposal(st, caller, list[0].id).Success?
    requires var st1 := DeleteTeamProposal(st, caller, list[0].id).value.state;
      && (Sweep(st1, caller, list[1..], now).Success? <==> Deletable(st1, caller, ExpiredIds(list[1..], now)))
      && (Sweep(st1, caller, list[1..], now).Success? ==>
            Sweep(st1, caller, list[1..], now).value ==
            st1.(proposals := st1.proposals - (set x | x in ExpiredIds(list[1..], now))))
      && (Sweep(st1, caller, list[1..], now).Failure? ==>
            Sweep(st1, caller, list[1..], now).error.ProposalNotFound? ||
            Sweep(st1, caller, list[1..], now).error == NotAuthorized)
    ensures Sweep(st, caller, list, now).Success? <==> Deletable(st, caller, ExpiredIds(list, now))
    ensures Sweep(st, caller, list, now).Success? ==>
      Sweep(st, caller, list, now).value == st.(proposals := st.proposals - (set x | x in ExpiredIds(list, now)))
    ensures Sweep(st, caller, list, now).Failure? ==>
      Sweep(st, caller, list, now).error.ProposalNotFound? || Sweep(st, caller, list, now).error == NotAuthorized
  {
    var id := list[0].id;
    var st1 := DeleteTeamProposal(st, caller, id).value.state;
    var rest := ExpiredIds(list[1..], now);
    assert ExpiredIds(list, now) == [id] + rest;
    assert Sweep(st, caller, list, now) == Sweep(st1, caller, list[1..], now);
    DeletableStep(st, caller, id, rest);
    RemoveInTwoSteps(st, id, rest);
  }

  /** Removing `id` and then the ids of `rest` removes the ids of `[id] + rest`. */
  lemma RemoveInTwoSteps(st: State, id: ProposalId, rest: seq<ProposalId>)
    ensures var st1 := st.(proposals := st.proposals - {id});
      st1.(proposals := st1.proposals - (set x | x in rest)) ==
      st.(proposals := st.proposals - (set x | x in [id] + rest))
  {
  }

  /** Deletability of `[id] + rest` splits into deleting `id` first and then
      the rest from what remains. */
  lemma DeletableStep(st: State, caller: Caller, id: ProposalId, rest: seq<ProposalId>)
    requires DeleteTeamProposal(st, caller, id).Success?
    ensures Deletable(st, caller, [id] + rest) <==>
      Deletable(DeleteTeamProposal(st, caller, id).value.state, caller, rest)
  {
    var ids := [id] + rest;
    var st1 := DeleteTeamProposal(st, caller, id).value.state;
    if Deletable(st, caller, ids) {
      forall i | 0 <= i < |rest| ensures rest[i] in st1.proposals && st1.proposals[rest[i]].course in caller.courses {
        assert rest[i] == ids[i + 1];
        assert ids[0] != ids[i + 1];
      }
      assert NoDuplicates(rest) by {
        forall i, j | 0 <= i < j < |rest| ensures rest[i] != rest[j] {
          assert rest[i] == ids[i + 1] && rest[j] == ids[j + 1];
        }
      }
    }
    if Deletable(st1, caller, rest) {
      forall i, j | 0 <= i < j < |ids| ensures ids[i] != ids[j] {
        if i == 0 {
          assert ids[j] == rest[j - 1];
          assert rest[j - 1] in st1.proposals;
        } else {
          assert ids[i] == rest[i - 1] && ids[j] == rest[j - 1];
        }
      }
      forall i | 0 <= i < |ids| ensures ids[i] in st.proposals && st.proposals[ids[i]].course in caller.courses {
        if i > 0 {
          assert ids[i] == rest[i - 1];
        }
      }
    }
  }

  /** cleanTeamProposals: deletes every proposal of the list that expired more
      than 30 days before `now` and returns the other entries in their
      original order. Any failed deletion aborts the call and, the call being
      one transaction, deletes nothing. */
  function CleanTeamProposals(st: State, caller: Caller, list: seq<ProposalDto>, now: Time)
    : (r: Result<Step<seq<ProposalDto>>>)
    ensures r.Success? <==> Deletable(st, caller, ExpiredIds(list, now))
    ensures r.Failure? ==> r.error.ProposalNotFound? || r.error == NotAuthorized
    ensures r.Success? ==>
      r.value.state == st.(proposals := st.proposals - (set x | x in ExpiredIds(list, now)))
    ensures r.Success? ==> r.value.out == Unexpired(list, now)
    ensures r.Success? && Wf(st) ==> Wf(r.value.state)
  {
    SweepDeletesExpired(st, caller, list, now);
    match Sweep(st, caller, list, now)
    case Failure(e) => Failure(e)
    case Success(st') => Success(Step(st', Unexpired(list, now)))
  }

  /** `ExpiredIds` on a non-empty listing, one entry at a time. */
  lemma ExpiredIdsCons(list: seq<ProposalDto>, now: Time)
    requires |list| > 0
    ensures ExpiredIds(list, now) ==
      if Expired(list[0], now) then [list[0].id] + ExpiredIds(list[1..], now) else ExpiredIds(list[1..], now)
  {
  }

  /** Two expired entries with the same id give that id twice. */
  lemma {:induction false} ExpiredIdsRepeat(list: seq<ProposalDto>, now: Time, i: nat, j: nat)
    requires i < j < |list| && list[i].id == list[j].id
    requires Expired(list[i], now) && Expired(list[j], now)
    ensures !NoDuplicates(ExpiredIds(list, now))
  {
    if i == 0 {
      ExpiredHeadRepeats(list, now, j);
    } else {
      ExpiredIdsRepeat(list[1..], now, i - 1, j - 1);
      ExpiredIdsCons(list, now);
      if Expired(list[0], now) {
        ConsRepeats(list[0].id, ExpiredIds(list[1..], now));
      }
    }
  }

  /** An expired first entry whose id comes back on a later expired entry. */
  lemma ExpiredHeadRepeats(list: seq<ProposalDto>, now: Time, j: nat)
    requires 0 < j < |list| && list[0].id == list[j].id
    requires Expired(list[0], now) && Expired(list[j], now)
    ensures !NoDuplicates(ExpiredIds(list, now))
  {
    var rest := ExpiredIds(list[1..], now);
    assert list[1..][j - 1] == list[j];
    assert list[0].id in rest;
    ExpiredIdsCons(list, now);
    ConsRepeats(list[0].id, rest);
  }

  /** A listing that holds one expired proposal twice cannot be cleaned: the
      second deletion finds the proposal gone. */
  lemma RepeatedExpiredEntryFailsClean(st: State, caller: Caller, list: seq<ProposalDto>, now: Time,
                                       i: nat, j: nat)
    requires i < j < |list| && list[i].id == list[j].id
    requires Expired(list[i], now) && Expired(list[j], now)
    ensures CleanTeamProposals(st, caller, list, now).Failure?
  {
    ExpiredIdsRepeat(list, now, i, j);
  }

  /** A list without expired entries is neither swept nor filtered. */
  lemma {:induction false} NothingExpired(list: seq<ProposalDto>, now: Time)
    requires forall i | 0 <= i < |list| :: !Expired(list[i], now)
    ensures ExpiredIds(list, now) == []
    ensures Unexpired(list, now) == list
  {
    if |list| > 0 {
      NothingExpired(list[1..], now);
      var init := list[..|list| - 1];
      NothingExpired(init, now);
      assert init + [list[|list| - 1]] == list;
    }
  }

  /** Cleaning the result of a clean, at the same instant, deletes nothing
      and returns the same list. */
  lemma CleanIsIdempotent(st: State, caller: Caller, list: seq<ProposalDto>, now: Time)
    requires CleanTeamProposals(st, caller, list, now).Success?
    ensures var s := CleanTeamProposals(st, caller, list, now).value;
      CleanTeamProposals(s.state, caller, s.out, now) == Success(s)
  {
    var s := CleanTeamProposals(st, caller, list, now).value;
    NothingExpired(s.out, now);
    assert Deletable(s.state, caller, []);
    var again := CleanTeamProposals(s.state, caller, s.out, now);
    assert (set x | x in ExpiredIds(s.out, now)) == {};
    assert again.value.state == s.state;
  }
}
