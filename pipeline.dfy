/** The whole first-blood computation of firstblood.py:33-58 as one function
    of the four collections, and what it guarantees end to end. */
module Pipeline {
  import opened Records
  import opened Eligibility
  import opened Precedence
  import opened Assembly

  /** firstblood.py:38-45: the first row per challenge of the date-sorted
      eligible submissions. Each is the reference earliest eligible submission
      of its challenge, one per challenge that has any, ascending by id. */
  function Winners(subs: seq<Submission>, users: seq<User>, teams: seq<Team>): (r: seq<Submission>)
    ensures AscendingChallenges(r)
    ensures ChallengeIds(r) == ChallengeIds(EligibleSubmissions(subs, users, teams))
    ensures forall i :: 0 <= i < |r| ==>
      EarliestOf(EligibleSubmissions(subs, users, teams), r[i].challengeId) == Some(r[i])
  {
    var eligible := EligibleSubmissions(subs, users, teams);
    var sorted := SortByDate(eligible);
    var r := GroupFirst(sorted);
    forall i | 0 <= i < |r| ensures EarliestOf(eligible, r[i].challengeId) == Some(r[i]) {
      FirstAfterSortIsEarliest(eligible, r[i].challengeId);
    }
    forall x ensures x in sorted <==> x in eligible {
      assert x in sorted <==> x in multiset(sorted);
      assert x in eligible <==> x in multiset(eligible);
    }
    r
  }

  /** The first-solve rows after both merges (firstblood.py:38-49). */
  function AwardRows(subs: seq<Submission>, challenges: seq<Challenge>, teams: seq<Team>, users: seq<User>): (r: seq<AwardRow>)
    ensures AwardRowsAscending(r)
  {
    var winners := Winners(subs, users, teams);
    var named := MergeChallenges(winners, challenges);
    MergeChallengesAscending(winners, challenges);
    MergeTeamsAscending(named, teams);
    MergeTeams(named, teams)
  }

  /** `extract_first_blood` without its I/O: the award records, one per
      challenge that has a resolved first blood, ascending by challenge id. */
  function FirstBlood(subs: seq<Submission>, challenges: seq<Challenge>, teams: seq<Team>, users: seq<User>): (r: seq<Award>)
    ensures |r| == |AwardRows(subs, challenges, teams, users)|
    ensures forall i, n :: 0 <= i < |r| && n in r[i].teamMembers ==>
      exists u :: u in users && OnRoster(u, AwardRows(subs, challenges, teams, users)[i].winner.teamId) && u.name == n
  {
    MakeAwards(AwardRows(subs, challenges, teams, users), users)
  }

  /** A challenge gets a row exactly when it has an eligible correct
      submission, its id is a known challenge, and the team of its earliest
      eligible submission is a known team. Both directions. */
  lemma AwardRowExactlyWhenResolved(subs: seq<Submission>, challenges: seq<Challenge>, teams: seq<Team>, users: seq<User>, cid: int)
    ensures (exists i :: 0 <= i < |AwardRows(subs, challenges, teams, users)|
               && AwardRows(subs, challenges, teams, users)[i].winner.challengeId == cid)
      <==> (&& EarliestOf(EligibleSubmissions(subs, users, teams), cid).Some?
            && FindChallenge(challenges, cid).Some?
            && FindTeam(teams, EarliestOf(EligibleSubmissions(subs, users, teams), cid).value.teamId).Some?)
  {
    var rows := AwardRows(subs, challenges, teams, users);
    if exists i :: 0 <= i < |rows| && rows[i].winner.challengeId == cid {
      var i :| 0 <= i < |rows| && rows[i].winner.challengeId == cid;
      RowIsResolved(subs, challenges, teams, users, i);
    }
    var e := EarliestOf(EligibleSubmissions(subs, users, teams), cid);
    if e.Some? && FindChallenge(challenges, cid).Some? && FindTeam(teams, e.value.teamId).Some? {
      ResolvedHasRow(subs, challenges, teams, users, cid);
    }
  }

  /** A row's winner is the earliest eligible submission of its challenge,
      and both of its lookups succeeded. */
  lemma RowIsResolved(subs: seq<Submission>, challenges: seq<Challenge>, teams: seq<Team>, users: seq<User>, i: nat)
    requires i < |AwardRows(subs, challenges, teams, users)|
    ensures var w := AwardRows(subs, challenges, teams, users)[i].winner;
      && EarliestOf(EligibleSubmissions(subs, users, teams), w.challengeId) == Some(w)
      && FindChallenge(challenges, w.challengeId).Some?
      && FindChallenge(challenges, w.challengeId).value.name == AwardRows(subs, challenges, teams, users)[i].challengeName
      && FindTeam(teams, w.teamId).Some?
      && FindTeam(teams, w.teamId).value.name == AwardRows(subs, challenges, teams, users)[i].teamName
  {
    var winners := Winners(subs, users, teams);
    var named := MergeChallenges(winners, challenges);
    var row := AwardRows(subs, challenges, teams, users)[i];
    assert row in MergeTeams(named, teams);
    assert ChallengeRow(row.winner, row.challengeName) in named;
    var k :| 0 <= k < |winners| && winners[k] == row.winner;
  }

  /** The earliest eligible submission of every challenge that has one is
      among the winners. */
  lemma EarliestIsWinner(subs: seq<Submission>, users: seq<User>, teams: seq<Team>, cid: int)
    requires EarliestOf(EligibleSubmissions(subs, users, teams), cid).Some?
    ensures EarliestOf(EligibleSubmissions(subs, users, teams), cid).value in Winners(subs, users, teams)
  {
    var eligible := EligibleSubmissions(subs, users, teams);
    var winners := Winners(subs, users, teams);
    assert cid in ChallengeIds(eligible);
    assert cid in ChallengeIds(winners);
    var w :| w in winners && w.challengeId == cid;
    var k :| 0 <= k < |winners| && winners[k] == w;
  }

  /** A challenge whose earliest eligible submission resolves against both
      lookups has a row. */
  lemma ResolvedHasRow(subs: seq<Submission>, challenges: seq<Challenge>, teams: seq<Team>, users: seq<User>, cid: int)
    requires EarliestOf(EligibleSubmissions(subs, users, teams), cid).Some?
    requires FindChallenge(challenges, cid).Some?
    requires FindTeam(teams, EarliestOf(EligibleSubmissions(subs, users, teams), cid).value.teamId).Some?
    ensures exists i :: (0 <= i < |AwardRows(subs, challenges, teams, users)|
      && AwardRows(subs, challenges, teams, users)[i].winner.challengeId == cid)
  {
    var winners := Winners(subs, users, teams);
    var w := EarliestOf(EligibleSubmissions(subs, users, teams), cid).value;
    EarliestIsWinner(subs, users, teams, cid);
    MergeChallengesKeeps(winners, challenges, w);
    var named := MergeChallenges(winners, challenges);
    var row := ChallengeRow(w, FindChallenge(challenges, cid).value.name);
    MergeTeamsKeeps(named, teams, row);
    var rows := AwardRows(subs, challenges, teams, users);
    var a := AwardRow(w, row.challengeName, FindTeam(teams, w.teamId).value.name);
    assert a in rows;
    var i :| 0 <= i < |rows| && rows[i] == a;
  }

  /** Each row is a true first blood: its submission is an eligible correct
      submission, no eligible submission for that challenge is earlier, among
      equally early ones it comes first in input order, and the names are
      those of its challenge and its team. */
  lemma AwardRowIsFirstBlood(subs: seq<Submission>, challenges: seq<Challenge>, teams: seq<Team>, users: seq<User>, i: nat)
    requires i < |AwardRows(subs, challenges, teams, users)|
    ensures var row := AwardRows(subs, challenges, teams, users)[i];
      var w := row.winner;
      && w in subs
      && w.kind == Correct
      && (forall u :: u in users && u.id == w.userId ==> !Excluded(u))
      && (forall t :: t in teams && t.id == w.teamId ==> !t.banned)
      && (forall s :: s in EligibleSubmissions(subs, users, teams) && s.challengeId == w.challengeId ==> w.date <= s.date)
      && EarliestOf(EligibleSubmissions(subs, users, teams), w.challengeId) == Some(w)
      && FindChallenge(challenges, w.challengeId).Some?
      && row.challengeName == FindChallenge(challenges, w.challengeId).value.name
      && FindTeam(teams, w.teamId).Some?
      && row.teamName == FindTeam(teams, w.teamId).value.name
  {
    RowIsResolved(subs, challenges, teams, users, i);
  }

  /** Among the eligible submissions for `cid`, the reference winner is the
      first in the order of `subs` itself: every eligible submission for `cid`
      ahead of it in `subs` is strictly later. */
  lemma {:induction false} EarliestEligibleIsFirstInInput(subs: seq<Submission>, iu: seq<int>, bt: seq<int>, cid: int)
    requires EarliestOf(Filter(subs, iu, bt), cid).Some?
    ensures FirstInInput(subs, iu, bt, cid, EarliestOf(Filter(subs, iu, bt), cid).value)
  {
    var w := EarliestOf(Filter(subs, iu, bt), cid).value;
    var tail := subs[1..];
    var rest := Filter(tail, iu, bt);
    var r := EarliestOf(rest, cid);
    if Eligible(subs[0], iu, bt) {
      assert Filter(subs, iu, bt) == [subs[0]] + rest;
      assert ([subs[0]] + rest)[1..] == rest;
      if subs[0].challengeId == cid && (r.None? || subs[0].date <= r.value.date) {
        assert subs[0] == w;
        assert FirstInInput(subs, iu, bt, cid, w) by { assert subs[0] == w; }
      } else {
        assert r == Some(w);
        EarliestEligibleIsFirstInInput(tail, iu, bt, cid);
        FirstInInputPastHead(subs, iu, bt, cid, w);
      }
    } else {
      assert Filter(subs, iu, bt) == rest;
      EarliestEligibleIsFirstInInput(tail, iu, bt, cid);
      FirstInInputPastHead(subs, iu, bt, cid, w);
    }
  }

  /** `w` occurs in `subs`, and every eligible submission for `cid` ahead of
      it is strictly later. */
  ghost predicate FirstInInput(subs: seq<Submission>, iu: seq<int>, bt: seq<int>, cid: int, w: Submission) {
    exists k :: 0 <= k < |subs| && subs[k] == w && EarlierAreLater(subs, iu, bt, cid, w, k)
  }

  ghost predicate EarlierAreLater(subs: seq<Submission>, iu: seq<int>, bt: seq<int>, cid: int, w: Submission, k: int) {
    forall j :: 0 <= j < k && j < |subs| && Eligible(subs[j], iu, bt) && subs[j].challengeId == cid ==> subs[j].date > w.date
  }

  /** A position found in the tail carries over to the whole sequence when
      the head does not compete with `w`. */
  lemma FirstInInputPastHead(subs: seq<Submission>, iu: seq<int>, bt: seq<int>, cid: int, w: Submission)
    requires subs != [] && FirstInInput(subs[1..], iu, bt, cid, w)
    requires Eligible(subs[0], iu, bt) && subs[0].challengeId == cid ==> subs[0].date > w.date
    ensures FirstInInput(subs, iu, bt, cid, w)
  {
    var tail := subs[1..];
    var k :| 0 <= k < |tail| && tail[k] == w && EarlierAreLater(tail, iu, bt, cid, w, k);
    assert subs[k + 1] == w;
    forall j | 0 <= j < k + 1 && Eligible(subs[j], iu, bt) && subs[j].challengeId == cid ensures subs[j].date > w.date {
      if j > 0 { assert subs[j] == tail[j - 1]; }
    }
    assert EarlierAreLater(subs, iu, bt, cid, w, k + 1);
  }

  /** Ties between equally early eligible submissions go to the first in the
      order of the submissions collection. */
  lemma AwardRowWinsTies(subs: seq<Submission>, challenges: seq<Challenge>, teams: seq<Team>, users: seq<User>, i: nat)
    requires i < |AwardRows(subs, challenges, teams, users)|
    ensures var w := AwardRows(subs, challenges, teams, users)[i].winner;
      exists k :: (&& 0 <= k < |subs| && subs[k] == w
                   && forall j :: (0 <= j < k && Eligible(subs[j], InvalidUsers(users), BannedTeams(teams))
                                   && subs[j].challengeId == w.challengeId) ==> subs[j].date > w.date)
  {
    RowIsResolved(subs, challenges, teams, users, i);
    var w := AwardRows(subs, challenges, teams, users)[i].winner;
    var iu, bt := InvalidUsers(users), BannedTeams(teams);
    EarliestEligibleIsFirstInInput(subs, iu, bt, w.challengeId);
    var k :| 0 <= k < |subs| && subs[k] == w && EarlierAreLater(subs, iu, bt, w.challengeId, w, k);
  }

  /** Output order: ascending challenge id, hence at most one row per
      challenge. */
  lemma AtMostOneAwardPerChallenge(subs: seq<Submission>, challenges: seq<Challenge>, teams: seq<Team>, users: seq<User>, i: nat, j: nat)
    requires i < |AwardRows(subs, challenges, teams, users)| && j < |AwardRows(subs, challenges, teams, users)|
    requires AwardRows(subs, challenges, teams, users)[i].winner.challengeId == AwardRows(subs, challenges, teams, users)[j].winner.challengeId
    ensures i == j
  {
  }

  /** A challenge without any eligible correct submission produces no record. */
  lemma NoEligibleSubmissionNoAward(subs: seq<Submission>, challenges: seq<Challenge>, teams: seq<Team>, users: seq<User>, cid: int)
    requires forall s :: s in EligibleSubmissions(subs, users, teams) ==> s.challengeId != cid
    ensures forall i :: 0 <= i < |AwardRows(subs, challenges, teams, users)| ==>
      AwardRows(subs, challenges, teams, users)[i].winner.challengeId != cid
  {
  }

  /** The earliest eligible submission of a challenge whose team id is not a
      known team drops the whole challenge: no later submission by a known
      team takes its place. */
  lemma UnknownWinningTeamDropsChallenge(subs: seq<Submission>, challenges: seq<Challenge>, teams: seq<Team>, users: seq<User>, cid: int)
    requires EarliestOf(EligibleSubmissions(subs, users, teams), cid).Some?
    requires forall t :: t in teams ==> t.id != EarliestOf(EligibleSubmissions(subs, users, teams), cid).value.teamId
    ensures forall i :: 0 <= i < |AwardRows(subs, challenges, teams, users)| ==>
      AwardRows(subs, challenges, teams, users)[i].winner.challengeId != cid
  {
  }

  /** Each record's team members are the roster of the winning team: every
      non-banned, non-hidden user on that team, in users order. */
  lemma AwardMembersAreRoster(subs: seq<Submission>, challenges: seq<Challenge>, teams: seq<Team>, users: seq<User>, i: nat)
    requires i < |FirstBlood(subs, challenges, teams, users)|
    ensures var rows := AwardRows(subs, challenges, teams, users);
      var award := FirstBlood(subs, challenges, teams, users)[i];
      && award.challengeName == rows[i].challengeName
      && award.teamName == rows[i].teamName
      && award.teamMembers == Roster(users, rows[i].winner.teamId)
      && forall u :: u in users && OnRoster(u, rows[i].winner.teamId) ==> u.name in award.teamMembers
  {
  }

  /** With an empty teams collection no row survives the team merge, so the
      output is empty. */
  lemma NoTeamsNoAwards(subs: seq<Submission>, challenges: seq<Challenge>, users: seq<User>)
    ensures FirstBlood(subs, challenges, [], users) == []
  {
    MergeTeamsNoTeams(MergeChallenges(Winners(subs, users, []), challenges));
  }
}
