/** Stage 1 and 2 of the pipeline: the exclusion lists and the filter that keeps
    the correct submissions of non-excluded users and non-banned teams. */
module Eligibility {
  import opened Records

  /** The ids of the banned-or-hidden users, in users order (firstblood.py:34). */
  function InvalidUsers(users: seq<User>): (ids: seq<int>)
    ensures |ids| <= |users|
    ensures forall id :: id in ids <==> exists u :: u in users && u.id == id && Excluded(u)
  {
    if users == [] then []
    else
      var rest := InvalidUsers(users[1..]);
      assert forall u :: u in users <==> u == users[0] || u in users[1..];
      if Excluded(users[0]) then [users[0].id] + rest else rest
  }

  /** The ids of the banned teams, in teams order (firstblood.py:35). */
  function BannedTeams(teams: seq<Team>): (ids: seq<int>)
    ensures |ids| <= |teams|
    ensures forall id :: id in ids <==> exists t :: t in teams && t.id == id && t.banned
  {
    if teams == [] then []
    else
      var rest := BannedTeams(teams[1..]);
      assert forall t :: t in teams <==> t == teams[0] || t in teams[1..];
      if teams[0].banned then [teams[0].id] + rest else rest
  }

  /** The row condition of firstblood.py:39-41. */
  predicate Eligible(s: Submission, invalidUsers: seq<int>, bannedTeams: seq<int>) {
    s.kind == Correct && s.userId !in invalidUsers && s.teamId !in bannedTeams
  }

  /** The boolean-mask selection of firstblood.py:38-41: the eligible
      submissions, in input order. */
  function Filter(subs: seq<Submission>, invalidUsers: seq<int>, bannedTeams: seq<int>): (r: seq<Submission>)
    ensures forall s :: s in r <==> s in subs && Eligible(s, invalidUsers, bannedTeams)
    ensures multiset(r) <= multiset(subs)
  {
    if subs == [] then []
    else
      var rest := Filter(subs[1..], invalidUsers, bannedTeams);
      assert subs == [subs[0]] + subs[1..];
      if Eligible(subs[0], invalidUsers, bannedTeams) then [subs[0]] + rest else rest
  }

  /** The eligible submissions of firstblood.py:34-41, stated in terms of the
      users and teams collections. A submission whose user id is not in `users`
      at all is kept: only listed banned-or-hidden users are removed. */
  function EligibleSubmissions(subs: seq<Submission>, users: seq<User>, teams: seq<Team>): (r: seq<Submission>)
    ensures forall s :: s in r <==>
      && s in subs
      && s.kind == Correct
      && (forall u :: u in users && u.id == s.userId ==> !Excluded(u))
      && (forall t :: t in teams && t.id == s.teamId ==> !t.banned)
    ensures multiset(r) <= multiset(subs)
  {
    Filter(subs, InvalidUsers(users), BannedTeams(teams))
  }

  /** Longer exclusion lists never let more submissions through; the result is
      a sub-multiset of the one under the shorter lists. */
  lemma {:induction false} FilterAntitone(subs: seq<Submission>, iu: seq<int>, bt: seq<int>, iu': seq<int>, bt': seq<int>)
    requires forall x :: x in iu ==> x in iu'
    requires forall x :: x in bt ==> x in bt'
    ensures multiset(Filter(subs, iu', bt')) <= multiset(Filter(subs, iu, bt))
  {
    if subs != [] {
      FilterAntitone(subs[1..], iu, bt, iu', bt');
    }
  }

  /** `users'` excludes at least the user ids that `users` excludes. */
  ghost predicate ExcludesMoreUsers(users: seq<User>, users': seq<User>) {
    forall u :: u in users && Excluded(u) ==> exists u' :: u' in users' && u'.id == u.id && Excluded(u')
  }

  /** `teams'` bans at least the team ids that `teams` bans. */
  ghost predicate BansMoreTeams(teams: seq<Team>, teams': seq<Team>) {
    forall t :: t in teams && t.banned ==> exists t' :: t' in teams' && t'.id == t.id && t'.banned
  }

  /** Eligibility monotonicity: banning or hiding more users, or banning more
      teams, never enlarges the eligible submissions. */
  lemma StricterExclusionShrinksEligible(subs: seq<Submission>, users: seq<User>, teams: seq<Team>, users': seq<User>, teams': seq<Team>)
    requires ExcludesMoreUsers(users, users')
    requires BansMoreTeams(teams, teams')
    ensures multiset(EligibleSubmissions(subs, users', teams')) <= multiset(EligibleSubmissions(subs, users, teams))
  {
    var iu, bt := InvalidUsers(users), BannedTeams(teams);
    var iu', bt' := InvalidUsers(users'), BannedTeams(teams');
    forall x | x in iu ensures x in iu' {
      var u :| u in users && u.id == x && Excluded(u);
      var u' :| u' in users' && u'.id == u.id && Excluded(u');
    }
    forall x | x in bt ensures x in bt' {
      var t :| t in teams && t.id == x && t.banned;
      var t' :| t' in teams' && t'.id == t.id && t'.banned;
    }
    FilterAntitone(subs, iu, bt, iu', bt');
  }

  /** The special case of marking one user banned. */
  lemma BanningAUserShrinksEligible(subs: seq<Submission>, users: seq<User>, teams: seq<Team>, k: nat)
    requires k < |users|
    ensures multiset(EligibleSubmissions(subs, users[k := users[k].(banned := true)], teams))
            <= multiset(EligibleSubmissions(subs, users, teams))
  {
    var users' := users[k := users[k].(banned := true)];
    forall u | u in users && Excluded(u) ensures exists u' :: u' in users' && u'.id == u.id && Excluded(u') {
      var i :| 0 <= i < |users| && users[i] == u;
      assert users'[i].id == u.id && Excluded(users'[i]);
    }
    StricterExclusionShrinksEligible(subs, users, teams, users', teams);
  }

  /** The special case of marking one team banned. */
  lemma BanningATeamShrinksEligible(subs: seq<Submission>, users: seq<User>, teams: seq<Team>, k: nat)
    requires k < |teams|
    ensures multiset(EligibleSubmissions(subs, users, teams[k := teams[k].(banned := true)]))
            <= multiset(EligibleSubmissions(subs, users, teams))
  {
    var teams' := teams[k := teams[k].(banned := true)];
    forall t | t in teams && t.banned ensures exists t' :: t' in teams' && t'.id == t.id && t'.banned {
      var i :| 0 <= i < |teams| && teams[i] == t;
      assert teams'[i].id == t.id && teams'[i].banned;
    }
    StricterExclusionShrinksEligible(subs, users, teams, users, teams');
  }
}
