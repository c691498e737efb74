# First-blood awards for a CTFd export, modelled in Dafny

`extract_first_blood` in `firstblood.py` reads a CTFd database export and,
for every challenge, names the team that made the first eligible correct
submission, with the challenge's name and the team's eligible members. This
project models its computational core (`firstblood.py:33-58`) as pure Dafny
functions over sequences of records and proves what the pipeline guarantees.

The pipeline has four stages, one module each, plus a composite:

- `Records` (`records.dfy`): users, teams, challenges, submissions and award
  records. Ids are `int`. A user's team id is an `Option` because the column
  is nullable. The submission timestamp is an abstract `int` key with its
  usual order.
- `Eligibility` (`eligibility.dfy`): the banned-or-hidden user ids, the
  banned team ids, and the row filter that keeps correct submissions by
  neither (`firstblood.py:34-41`).
- `Precedence` (`precedence.dfy`): the date sort, the group keys of
  `groupby('challenge_id')` in ascending order, and the first row per group
  (`firstblood.py:42-45`). `EarliestOf` is an independent reference
  definition of "first blood": minimal date, and among equal dates the first
  in input order. `FirstAfterSortIsEarliest` proves that sort-then-first
  computes exactly that.
- `Assembly` (`assembly.dfy`): the two inner merges, against challenges and
  then teams (`firstblood.py:48-49`). A row with no match is dropped and the
  left order is kept (the documented order of pandas' inner merge). Also the `team_members` roster (`firstblood.py:54-57`)
  and the output records (`firstblood.py:52-61`).
- `Pipeline` (`pipeline.dfy`): `FirstBlood`, the composite function, with the
  end-to-end lemmas.
- `Scenarios` (`scenarios.dfy`): concrete inputs evaluated through the whole
  pipeline. They cover the earlier solve winning, a banned team passed over,
  a challenge with only incorrect submissions, an unknown team, and an
  unknown user.

Behaviour of the code that a reader might not expect, modelled as written:

- A submission by a user id that does not occur in the users collection is
  not filtered out. Only ids listed as banned or hidden are removed
  (`EligibleSubmissions`, `Scenarios.UnknownUserCanWin`). Submissions whose
  user id is dangling are not dropped.
- If the earliest eligible submission of a challenge carries a team id that
  is not in the teams collection, the whole challenge disappears from the
  output. The team merge runs after the per-challenge selection, so no later
  submission takes its place (`Pipeline.UnknownWinningTeamDropsChallenge`,
  `Scenarios.UnknownTeamSolveHidesLaterSolve`).
- Roster eligibility is separate from winning. A team's banned or hidden
  members are left off its roster, and the team can still win through
  another member.

Running the pipeline twice on the same inputs gives the same output, because
`FirstBlood` is a function.

## Model

| member | source | states |
|---|---|---|
| `Eligibility.InvalidUsers` | firstblood.py:34 | an id is listed exactly when some user with that id is banned or hidden |
| `Eligibility.BannedTeams` | firstblood.py:35 | an id is listed exactly when some team with that id is banned |
| `Eligibility.Filter` | firstblood.py:38-41 | keeps exactly the input submissions that are correct and whose user and team ids are not on the exclusion lists; the result is a sub-multiset of the input |
| `Eligibility.EligibleSubmissions` | firstblood.py:34-41 | a submission is kept iff it is in the input, has type "correct", no user with its user id is banned or hidden, and no team with its team id is banned (so unknown ids are kept) |
| `Eligibility.FilterAntitone` | firstblood.py:38-41 | longer exclusion lists give a sub-multiset of the eligible submissions |
| `Eligibility.StricterExclusionShrinksEligible` | firstblood.py:34-41 | excluding at least the same user ids and banning at least the same team ids never enlarges the eligible submissions |
| `Eligibility.BanningAUserShrinksEligible` | firstblood.py:34-41 | marking one user banned never enlarges the eligible submissions |
| `Eligibility.BanningATeamShrinksEligible` | firstblood.py:35-41 | marking one team banned never enlarges the eligible submissions |
| `Precedence.InsertByDate` | firstblood.py:42 | inserting one row adds exactly that row to the multiset of rows |
| `Precedence.InsertByDateSorted` | firstblood.py:42 | inserting into a date-sorted sequence leaves it date-sorted |
| `Precedence.SortByDate` | firstblood.py:42 | the result is sorted by date and is a permutation of the input |
| `Precedence.FirstOf` | firstblood.py:45 | no result iff no row has the challenge id; otherwise a row of the input with that id |
| `Precedence.FirstOfIsFirst` | firstblood.py:45 | no row before the chosen one has its challenge id |
| `Precedence.EarliestOf` | firstblood.py:42-45 | reference first blood: none iff the challenge has no row; otherwise a row for it whose date is at most that of every row for it |
| `Precedence.EarliestOfIsFirstAmongMinimal` | firstblood.py:42-45 | every row for the challenge ahead of the reference winner is strictly later |
| `Precedence.FirstOfInsert` | firstblood.py:42-45 | inserting a row into a sorted sequence makes it the first of its group iff it is not later than the old first |
| `Precedence.FirstAfterSortIsEarliest` | firstblood.py:42-45 | the first row per challenge after the date sort equals the reference earliest submission |
| `Precedence.InsertKey` | firstblood.py:45 | inserting a key into a strictly ascending key list keeps it strictly ascending and adds exactly that key |
| `Precedence.GroupKeys` | firstblood.py:45 | the group keys are strictly ascending and are exactly the challenge ids that occur |
| `Precedence.Heads` | firstblood.py:45 | one row per listed key, each the first row of its group |
| `Precedence.GroupFirst` | firstblood.py:45 | ascending challenge ids, exactly the ids of the input, each row the first of its group |
| `Assembly.FindChallenge` | firstblood.py:48 | none iff no challenge has the id; otherwise a challenge with that id |
| `Assembly.FindTeam` | firstblood.py:49 | none iff no team has the id; otherwise a team with that id |
| `Assembly.FindChallengeFindsTheMatch` | firstblood.py:48 | with unique challenge ids the lookup returns the one challenge with that id |
| `Assembly.FindTeamFindsTheMatch` | firstblood.py:49 | with unique team ids the lookup returns the one team with that id |
| `Assembly.MergeChallenges` | firstblood.py:48 | every row comes from a winner whose challenge was found and carries that challenge's name |
| `Assembly.MergeChallengesKeeps` | firstblood.py:48 | a winner whose challenge is found is kept with that challenge's name |
| `Assembly.MergeChallengesAscending` | firstblood.py:48 | the merge keeps ascending challenge-id order |
| `Assembly.MergeTeams` | firstblood.py:49 | every row comes from a merged row whose team was found and carries that team's name |
| `Assembly.MergeTeamsKeeps` | firstblood.py:49 | a row whose team is found is kept with that team's name |
| `Assembly.MergeTeamsAscending` | firstblood.py:49 | the merge keeps ascending challenge-id order |
| `Assembly.MergeTeamsNoTeams` | firstblood.py:49 | against an empty teams collection the team merge keeps no row |
| `Assembly.Roster` | firstblood.py:54-57 | a name is listed iff some user on that team, neither banned nor hidden, has it |
| `Assembly.RosterOfConcat` | firstblood.py:54-57 | the roster of a concatenation is the concatenation of rosters, so the roster is in users order |
| `Assembly.MakeAwards` | firstblood.py:52-61 | one award per row, in row order, with the row's names and the winning team's roster |
| `Pipeline.Winners` | firstblood.py:38-45 | ascending challenge ids, one per challenge with an eligible submission, each the reference earliest eligible submission |
| `Pipeline.AwardRows` | firstblood.py:38-49 | the joined rows are in strictly ascending challenge-id order |
| `Pipeline.FirstBlood` | firstblood.py:33-58 | one award per joined row; every listed member is an eligible user of the winning team |
| `Pipeline.AwardRowExactlyWhenResolved` | firstblood.py:38-49 | a challenge has a row iff it has an eligible submission, it is a known challenge, and the team of its earliest eligible submission is a known team |
| `Pipeline.RowIsResolved` | firstblood.py:38-49 | a row's winner is its challenge's earliest eligible submission and both lookups found its names |
| `Pipeline.EarliestIsWinner` | firstblood.py:38-45 | each challenge's earliest eligible submission is among the winners |
| `Pipeline.ResolvedHasRow` | firstblood.py:45-49 | a challenge whose earliest eligible submission passes both lookups has a row |
| `Pipeline.AwardRowIsFirstBlood` | firstblood.py:34-49 | each row's submission is correct, by no banned or hidden user and no banned team, no later than any eligible submission for its challenge, and named after its challenge and team |
| `Pipeline.EarliestEligibleIsFirstInInput` | firstblood.py:38-45 | the reference winner among the filtered submissions occurs in the submissions collection, and every eligible submission for its challenge ahead of it there is strictly later |
| `Pipeline.AwardRowWinsTies` | firstblood.py:38-45 | each row's winner occurs in the submissions collection, and every eligible submission for its challenge ahead of it there is strictly later: ties go to the first in input order |
| `Pipeline.AtMostOneAwardPerChallenge` | firstblood.py:45-49 | two rows with the same challenge id are the same row |
| `Pipeline.NoEligibleSubmissionNoAward` | firstblood.py:38-49 | a challenge with no eligible correct submission has no row |
| `Pipeline.UnknownWinningTeamDropsChallenge` | firstblood.py:45-49 | a challenge whose earliest eligible submission names an unknown team has no row |
| `Pipeline.AwardMembersAreRoster` | firstblood.py:52-58 | each award carries its row's names and the full roster of the winning team |
| `Pipeline.NoTeamsNoAwards` | firstblood.py:49 | with an empty teams collection the output is empty (the model's result where the source raises on the missing columns) |
| `Scenarios.EarlierSolveWins` | firstblood.py:33-58 | alice's 09:00 solve beats bob's 10:00 solve: one award, pwn1 to Alpha with members ["alice"] |
| `Scenarios.BannedTeamIsPassedOver` | firstblood.py:33-58 | with Alpha banned, pwn1 goes to Beta with members ["bob"] |
| `Scenarios.OnlyIncorrectNoRecord` | firstblood.py:33-58 | only incorrect submissions give an empty output |
| `Scenarios.UnknownTeamSolveHidesLaterSolve` | firstblood.py:33-58 | an earliest solve by unknown team 30 empties the output despite Alpha's later solve |
| `Scenarios.UnknownUserCanWin` | firstblood.py:33-58 | a solve by a user id absent from users wins for its team |

## Left out

- Zip extraction and the JSON loads (`firstblood.py:7-31`) are I/O. The model starts from the four record collections already in memory.
- `solves.json` (`firstblood.py:12-13`) is loaded and never used.
- Writing the JSON file, the print, and the module-level example call (`firstblood.py:63-71`) are I/O. `MakeAwards` models the records that `to_dict` hands to the writer (`firstblood.py:61`).
- SortByDate: `sort_values` uses pandas' default quicksort, which does not fix the order of submissions with equal dates. The model uses a stable sort, so ties go to the first in input order (`AwardRowWinsTies`). The code promises no particular tie-break.
- FindChallenge / FindTeam: an inner merge with duplicate ids on the right would emit one row per match. The model takes the first match. With unique ids the two agree (`FindChallengeFindsTheMatch`, `FindTeamFindsTheMatch`).
- GroupFirst: `groupby().first()` takes the first non-null value per column. The model takes the first row, which is the same when the columns used have no nulls.
- Empty input collections: `pd.DataFrame([])` has no columns, so an empty users, teams, submissions or challenges collection makes the source raise `KeyError` (at `firstblood.py:34`, `:35`, `:39` or `:48`); a user-mode export, whose teams list is empty, does so. The model has no error path for this and returns `[]` (for example `FirstBlood(subs, challenges, [], users) == []`, `NoTeamsNoAwards`).
- AwardRows: its ascending-order guarantee assumes pandas' documented inner-merge order, which keeps the order of the left rows (followed consistently from pandas 2.2). Earlier pandas versions placed rows with equal left keys next to each other, so the team merge (`firstblood.py:49`) could group wins by the same team and break ascending challenge-id order; no pandas version is pinned.
- Missing values are not modelled: a null user or team id in a submission, missing columns, NaN keys. A user's null team id never matches a roster, as in the source.
- Timestamps are an abstract ordered `int`, not parsed ISO strings. The source compares the date strings as they are.
