/** The four record collections the first-blood pipeline reads, and the award
    record it produces. Only the fields the pipeline uses are kept. */
module Records {

  datatype Option<+T> = None | Some(value: T)

  /** A row of users.json. A user need not belong to a team. */
  datatype User = User(id: int, name: string, banned: bool, hidden: bool, teamId: Option<int>)

  /** A row of teams.json. */
  datatype Team = Team(id: int, name: string, banned: bool)

  /** A row of challenges.json. */
  datatype Challenge = Challenge(id: int, name: string)

  /** A row of submissions.json. `kind` is the `type` column; `date` stands for
      the timestamp, an abstract totally ordered key. */
  datatype Submission = Submission(userId: int, teamId: int, challengeId: int, kind: string, date: int)

  /** One first-blood award, as written to the output file. */
  datatype Award = Award(challengeName: string, teamName: string, teamMembers: seq<string>)

  /** The `type` value of an accepted flag. */
  const Correct: string := "correct"

  /** A user who is banned or hidden: excluded from winning and from rosters. */
  predicate Excluded(u: User) {
    u.banned || u.hidden
  }
}
