/** Worked inputs for the pipeline: an earlier solve winning, a banned team
    passed over, a challenge with only incorrect submissions, and two
    dangling references (an unknown team id and an unknown user id). */
module Scenarios {
  import opened Records
  import opened Eligibility
  import opened Precedence
  import opened Assembly
  import opened Pipeline

  const Challenges: seq<Challenge> := [Challenge(1, "pwn1")]
  const Alpha: Team := Team(10, "Alpha", false)
  const Beta: Team := Team(20, "Beta", false)
  const Users: seq<User> := [User(100, "alice", false, false, Some(10)), User(200, "bob", false, false, Some(20))]
  /** bob's solve at 10:00 and alice's at 09:00, as minutes of the day. */
  const Subs: seq<Submission> := [Submission(200, 20, 1, "correct", 600), Submission(100, 10, 1, "correct", 540)]

  /** The earlier solve wins, whatever its position in the input. */
  lemma EarlierSolveWins()
    ensures FirstBlood(Subs, Challenges, [Alpha, Beta], Users) == [Award("pwn1", "Alpha", ["alice"])]
  {
    AliceWinsRow();
    RostersOfUsers();
  }

  /** Alice's 09:00 solve is the only row after both merges. */
  lemma AliceWinsRow()
    ensures AwardRows(Subs, Challenges, [Alpha, Beta], Users) == [AwardRow(Subs[1], "pwn1", "Alpha")]
  {
    var teams := [Alpha, Beta];
    NoneExcluded();
    EligibleIsAll();
    SortPutsAliceFirst();
    OneGroup();
    assert Winners(Subs, Users, teams) == [Subs[1]];
    assert MergeChallenges([Subs[1]], Challenges) == [ChallengeRow(Subs[1], "pwn1")];
    assert MergeTeams([ChallengeRow(Subs[1], "pwn1")], teams) == [AwardRow(Subs[1], "pwn1", "Alpha")];
  }

  /** Nobody in `Users` is banned or hidden, and neither team is banned. */
  lemma NoneExcluded()
    ensures InvalidUsers(Users) == []
    ensures BannedTeams([Alpha, Beta]) == []
  {
    assert Users[1..] == [Users[1]] && Users[1..][1..] == [];
    assert [Alpha, Beta][1..] == [Beta] && [Beta][1..] == [];
  }

  /** With empty exclusion lists both correct solves pass the filter. */
  lemma EligibleIsAll()
    ensures Filter(Subs, [], []) == Subs
  {
    assert Subs[1..] == [Subs[1]] && Subs[1..][1..] == [];
  }

  /** The date sort moves alice's earlier solve to the front. */
  lemma SortPutsAliceFirst()
    ensures SortByDate(Subs) == [Subs[1], Subs[0]]
  {
    assert Subs[1..] == [Subs[1]] && Subs[1..][1..] == [];
    assert SortByDate([Subs[1]]) == [Subs[1]];
  }

  /** Both solves are for challenge 1: one group, headed by alice's. */
  lemma OneGroup()
    ensures GroupFirst([Subs[1], Subs[0]]) == [Subs[1]]
  {
    var sorted := [Subs[1], Subs[0]];
    assert sorted[1..] == [Subs[0]] && sorted[1..][1..] == [];
    assert GroupKeys(sorted[1..]) == [1];
    assert GroupKeys(sorted) == [1];
    assert Heads(sorted, [1]) == [Subs[1]];
  }

  /** Each team's roster is its one user. */
  lemma RostersOfUsers()
    ensures Roster(Users, 10) == ["alice"]
    ensures Roster(Users, 20) == ["bob"]
  {
    assert Users[1..] == [Users[1]] && Users[1..][1..] == [];
  }

  /** With Alpha banned, Beta's later solve is the first blood. */
  lemma BannedTeamIsPassedOver()
    ensures FirstBlood(Subs, Challenges, [Alpha.(banned := true), Beta], Users) == [Award("pwn1", "Beta", ["bob"])]
  {
    var teams := [Alpha.(banned := true), Beta];
    OnlyBobEligible();
    SingleSolve(Subs[0]);
    assert Winners(Subs, Users, teams) == [Subs[0]];
    assert MergeChallenges([Subs[0]], Challenges) == [ChallengeRow(Subs[0], "pwn1")];
    assert MergeTeams([ChallengeRow(Subs[0], "pwn1")], teams) == [AwardRow(Subs[0], "pwn1", "Beta")];
    RostersOfUsers();
  }

  /** With Alpha banned only bob's solve is eligible. */
  lemma OnlyBobEligible()
    ensures EligibleSubmissions(Subs, Users, [Alpha.(banned := true), Beta]) == [Subs[0]]
  {
    NoneExcluded();
    AlphaBanned();
    BobPassesFilter();
  }

  /** Banning Alpha puts its id on the banned list. */
  lemma AlphaBanned()
    ensures BannedTeams([Alpha.(banned := true), Beta]) == [10]
  {
    var teams := [Alpha.(banned := true), Beta];
    assert teams[1..] == [Beta] && teams[1..][1..] == [];
  }

  /** Bob's solve is the one that survives the filter. */
  lemma BobPassesFilter()
    ensures Filter(Subs, [], [10]) == [Subs[0]]
  {
    assert Subs[1..] == [Subs[1]] && Subs[1..][1..] == [];
  }

  /** A single submission is its own sort and its own group. */
  lemma SingleSolve(x: Submission)
    ensures SortByDate([x]) == [x]
    ensures GroupFirst([x]) == [x]
  {
    assert [x][1..] == [];
    assert GroupKeys([x]) == [x.challengeId];
  }

  /** A challenge with only incorrect submissions produces no record. */
  lemma OnlyIncorrectNoRecord()
    ensures FirstBlood([Submission(100, 10, 1, "incorrect", 540)], Challenges, [Alpha, Beta], Users) == []
  {
    assert EligibleSubmissions([Submission(100, 10, 1, "incorrect", 540)], Users, [Alpha, Beta]) == [];
  }

  /** An earliest solve by a team id that is not in teams removes the
      challenge from the output; Alpha's later solve does not replace it. */
  lemma UnknownTeamSolveHidesLaterSolve()
    ensures FirstBlood([Submission(100, 30, 1, "correct", 500), Subs[1]], Challenges, [Alpha, Beta], Users) == []
  {
    UnknownTeamSolveLeavesNoRow();
  }

  /** The solve by team 30 heads the group and then fails the team merge. */
  lemma UnknownTeamSolveLeavesNoRow()
    ensures AwardRows([Submission(100, 30, 1, "correct", 500), Subs[1]], Challenges, [Alpha, Beta], Users) == []
  {
    var subs := [Submission(100, 30, 1, "correct", 500), Subs[1]];
    UnknownTeamSolveComesFirst();
    assert Winners(subs, Users, [Alpha, Beta]) == [subs[0]];
    assert MergeChallenges([subs[0]], Challenges) == [ChallengeRow(subs[0], "pwn1")];
    assert MergeTeams([ChallengeRow(subs[0], "pwn1")], [Alpha, Beta]) == [];
  }

  /** The solve by team 30 is eligible and earlier than alice's. */
  lemma UnknownTeamSolveComesFirst()
    ensures var subs := [Submission(100, 30, 1, "correct", 500), Subs[1]];
      && EligibleSubmissions(subs, Users, [Alpha, Beta]) == subs
      && SortByDate(subs) == subs
      && GroupFirst(subs) == [subs[0]]
  {
    var subs := [Submission(100, 30, 1, "correct", 500), Subs[1]];
    NoneExcluded();
    assert subs[1..] == [Subs[1]] && subs[1..][1..] == [];
    assert Filter(subs, [], []) == subs;
    SingleSolve(Subs[1]);
    assert GroupKeys(subs[1..]) == [1];
    assert GroupKeys(subs) == [1];
    assert Heads(subs, [1]) == [subs[0]];
  }

  /** A solve by a user id that is not in users is not filtered out. */
  lemma UnknownUserCanWin()
    ensures FirstBlood([Submission(999, 10, 1, "correct", 500)], Challenges, [Alpha, Beta], Users) == [Award("pwn1", "Alpha", ["alice"])]
  {
    var x := Submission(999, 10, 1, "correct", 500);
    NoneExcluded();
    assert Filter([x], [], []) == [x];
    SingleSolve(x);
    assert Winners([x], Users, [Alpha, Beta]) == [x];
    assert MergeChallenges([x], Challenges) == [ChallengeRow(x, "pwn1")];
    assert MergeTeams([ChallengeRow(x, "pwn1")], [Alpha, Beta]) == [AwardRow(x, "pwn1", "Alpha")];
    RostersOfUsers();
  }
}
