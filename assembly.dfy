/** Stage 4 of the pipeline: the two inner joins against challenges and teams,
    and the team roster of each award (firstblood.py:48-57). */
module Assembly {
  import opened Records

  /** The challenge whose id is `id`, if any (the right side of the merge at
      firstblood.py:48; ids are taken to be unique). */
  function FindChallenge(challenges: seq<Challenge>, id: int): (r: Option<Challenge>)
    ensures r.None? <==> forall c :: c in challenges ==> c.id != id
    ensures r.Some? ==> r.value in challenges && r.value.id == id
  {
    if challenges == [] then None
    else if challenges[0].id == id then Some(challenges[0])
    else
      assert forall c :: c in challenges <==> c == challenges[0] || c in challenges[1..];
      FindChallenge(challenges[1..], id)
  }

  /** The team whose id is `id`, if any (the right side of the merge at
      firstblood.py:49). */
  function FindTeam(teams: seq<Team>, id: int): (r: Option<Team>)
    ensures r.None? <==> forall t :: t in teams ==> t.id != id
    ensures r.Some? ==> r.value in teams && r.value.id == id
  {
    if teams == [] then None
    else if teams[0].id == id then Some(teams[0])
    else
      assert forall t :: t in teams <==> t == teams[0] || t in teams[1..];
      FindTeam(teams[1..], id)
  }

  predicate UniqueChallengeIds(challenges: seq<Challenge>) {
    forall i, j :: 0 <= i < j < |challenges| ==> challenges[i].id != challenges[j].id
  }

  predicate UniqueTeamIds(teams: seq<Team>) {
    forall i, j :: 0 <= i < j < |teams| ==> teams[i].id != teams[j].id
  }

  /** With unique ids the lookup finds the one matching challenge, which is
      what the inner join pairs a row with. */
  lemma FindChallengeFindsTheMatch(challenges: seq<Challenge>, c: Challenge)
    requires UniqueChallengeIds(challenges)
    requires c in challenges
    ensures FindChallenge(challenges, c.id) == Some(c)
  {
  }

  /** With unique ids the lookup finds the one matching team. */
  lemma FindTeamFindsTheMatch(teams: seq<Team>, t: Team)
    requires UniqueTeamIds(teams)
    requires t in teams
    ensures FindTeam(teams, t.id) == Some(t)
  {
  }

  /** A first-solve row after the challenge merge: the winning submission and
      the challenge's name. */
  datatype ChallengeRow = ChallengeRow(winner: Submission, challengeName: string)

  /** A first-solve row after both merges. */
  datatype AwardRow = AwardRow(winner: Submission, challengeName: string, teamName: string)

  predicate ChallengeRowsAscending(rows: seq<ChallengeRow>) {
    forall i, j :: 0 <= i < j < |rows| ==> rows[i].winner.challengeId < rows[j].winner.challengeId
  }

  predicate AwardRowsAscending(rows: seq<AwardRow>) {
    forall i, j :: 0 <= i < j < |rows| ==> rows[i].winner.challengeId < rows[j].winner.challengeId
  }

  /** The inner merge of firstblood.py:48: each winner whose challenge id
      matches a challenge gets that challenge's name; the others are dropped. */
  function MergeChallenges(winners: seq<Submission>, challenges: seq<Challenge>): (r: seq<ChallengeRow>)
    ensures |r| <= |winners|
    ensures forall row :: row in r ==>
      (&& row.winner in winners
       && FindChallenge(challenges, row.winner.challengeId).Some?
       && FindChallenge(challenges, row.winner.challengeId).value.name == row.challengeName)
  {
    if winners == [] then []
    else
      var rest := MergeChallenges(winners[1..], challenges);
      assert forall w :: w in winners[1..] ==> w in winners;
      match FindChallenge(challenges, winners[0].challengeId)
      case None => rest
      case Some(c) => [ChallengeRow(winners[0], c.name)] + rest
  }

  /** A winner whose challenge is found is not dropped by the merge. */
  lemma {:induction false} MergeChallengesKeeps(winners: seq<Submission>, challenges: seq<Challenge>, w: Submission)
    requires w in winners
    requires FindChallenge(challenges, w.challengeId).Some?
    ensures ChallengeRow(w, FindChallenge(challenges, w.challengeId).value.name) in MergeChallenges(winners, challenges)
  {
    if winners[0] != w {
      MergeChallengesKeeps(winners[1..], challenges, w);
    }
  }

  /** The merge keeps the order of the left rows, so ascending challenge ids
      stay ascending. */
  lemma {:induction false} MergeChallengesAscending(winners: seq<Submission>, challenges: seq<Challenge>)
    requires forall i, j :: 0 <= i < j < |winners| ==> winners[i].challengeId < winners[j].challengeId
    ensures ChallengeRowsAscending(MergeChallenges(winners, challenges))
  {
    if winners != [] {
      MergeChallengesAscending(winners[1..], challenges);
      var tail := winners[1..];
      var rest := MergeChallenges(tail, challenges);
      forall row | row in rest ensures winners[0].challengeId < row.winner.challengeId {
        var k :| 0 <= k < |tail| && tail[k] == row.winner;
        assert winners[k + 1] == row.winner;
      }
      match FindChallenge(challenges, winners[0].challengeId)
      case None =>
      case Some(c) =>
        ConsChallengeRowAscending(ChallengeRow(winners[0], c.name), rest);
    }
  }

  /** A row below every later row heads an ascending sequence. */
  lemma ConsChallengeRowAscending(row: ChallengeRow, rows: seq<ChallengeRow>)
    requires ChallengeRowsAscending(rows)
    requires forall r :: r in rows ==> row.winner.challengeId < r.winner.challengeId
    ensures ChallengeRowsAscending([row] + rows)
  {
  }

  /** The inner merge of firstblood.py:49: each row whose winning team id
      matches a team gets that team's name; the others are dropped. */
  function MergeTeams(rows: seq<ChallengeRow>, teams: seq<Team>): (r: seq<AwardRow>)
    ensures |r| <= |rows|
    ensures forall a :: a in r ==>
      (&& ChallengeRow(a.winner, a.challengeName) in rows
       && FindTeam(teams, a.winner.teamId).Some?
       && FindTeam(teams, a.winner.teamId).value.name == a.teamName)
  {
    if rows == [] then []
    else
      var rest := MergeTeams(rows[1..], teams);
      assert forall row :: row in rows[1..] ==> row in rows;
      match FindTeam(teams, rows[0].winner.teamId)
      case None => rest
      case Some(t) => [AwardRow(rows[0].winner, rows[0].challengeName, t.name)] + rest
  }

  /** A row whose team is found is not dropped by the merge. */
  lemma {:induction false} MergeTeamsKeeps(rows: seq<ChallengeRow>, teams: seq<Team>, row: ChallengeRow)
    requires row in rows
    requires FindTeam(teams, row.winner.teamId).Some?
    ensures AwardRow(row.winner, row.challengeName, FindTeam(teams, row.winner.teamId).value.name) in MergeTeams(rows, teams)
  {
    if rows[0] != row {
      MergeTeamsKeeps(rows[1..], teams, row);
    }
  }

  /** The merge keeps the order of the left rows. */
  lemma {:induction false} MergeTeamsAscending(rows: seq<ChallengeRow>, teams: seq<Team>)
    requires ChallengeRowsAscending(rows)
    ensures AwardRowsAscending(MergeTeams(rows, teams))
  {
    if rows != [] {
      MergeTeamsAscending(rows[1..], teams);
      var tail := rows[1..];
      var rest := MergeTeams(tail, teams);
      forall a | a in rest ensures rows[0].winner.challengeId < a.winner.challengeId {
        var k :| 0 <= k < |tail| && tail[k] == ChallengeRow(a.winner, a.challengeName);
        assert rows[k + 1].winner == a.winner;
      }
      match FindTeam(teams, rows[0].winner.teamId)
      case None =>
      case Some(t) =>
        ConsAwardRowAscending(AwardRow(rows[0].winner, rows[0].challengeName, t.name), rest);
    }
  }

  /** A row below every later row heads an ascending sequence. */
  lemma ConsAwardRowAscending(row: AwardRow, rows: seq<AwardRow>)
    requires AwardRowsAscending(rows)
    requires forall r :: r in rows ==> row.winner.challengeId < r.winner.challengeId
    ensures AwardRowsAscending([row] + rows)
  {
  }

  /** Against an empty teams collection the merge keeps nothing. */
  lemma {:induction false} MergeTeamsNoTeams(rows: seq<ChallengeRow>)
    ensures MergeTeams(rows, []) == []
  {
    if rows != [] {
      MergeTeamsNoTeams(rows[1..]);
    }
  }

  /** A user listed as a member of team `teamId`: on that team, neither banned
      nor hidden (firstblood.py:55-57). */
  predicate OnRoster(u: User, teamId: int) {
    u.teamId == Some(teamId) && !u.banned && !u.hidden
  }

  /** The `team_members` lambda of firstblood.py:54-57: the names of the
      team's non-banned, non-hidden users, in users order. */
  function Roster(users: seq<User>, teamId: int): (names: seq<string>)
    ensures |names| <= |users|
    ensures forall n :: n in names <==> exists u :: u in users && OnRoster(u, teamId) && u.name == n
  {
    if users == [] then []
    else
      var rest := Roster(users[1..], teamId);
      assert forall u :: u in users <==> u == users[0] || u in users[1..];
      if OnRoster(users[0], teamId) then [users[0].name] + rest else rest
  }

  /** The roster keeps users order: the roster of a concatenation is the
      concatenation of the rosters. With `Roster([u], t)` this pins the roster
      down to "every member, once per row, in order". */
  lemma {:induction false} RosterOfConcat(a: seq<User>, b: seq<User>, teamId: int)
    ensures Roster(a + b, teamId) == Roster(a, teamId) + Roster(b, teamId)
  {
    if a == [] {
      assert a + b == b;
    } else {
      assert (a + b)[0] == a[0];
      assert (a + b)[1..] == a[1..] + b;
      RosterOfConcat(a[1..], b, teamId);
      var head := if OnRoster(a[0], teamId) then [a[0].name] else [];
      assert Roster(a, teamId) == head + Roster(a[1..], teamId);
      assert Roster(a + b, teamId) == head + Roster(a[1..] + b, teamId);
    }
  }

  /** The output records of firstblood.py:52-61: challenge name, team name and
      the roster of the winning team, one per row, in row order. */
  function MakeAwards(rows: seq<AwardRow>, users: seq<User>): (r: seq<Award>)
    ensures |r| == |rows|
    ensures forall i :: 0 <= i < |r| ==>
      (&& r[i].challengeName == rows[i].challengeName
       && r[i].teamName == rows[i].teamName
       && r[i].teamMembers == Roster(users, rows[i].winner.teamId))
  {
    seq(|rows|, i requires 0 <= i < |rows| =>
      Award(rows[i].challengeName, rows[i].teamName, Roster(users, rows[i].winner.teamId)))
  }
}
