/** Stage 3 of the pipeline: order the eligible submissions by date, group them
    by challenge id (keys ascending) and keep the first row of each group
    (firstblood.py:42-45). */
module Precedence {
  import opened Records

  predicate SortedByDate(s: seq<Submission>) {
    forall i, j :: 0 <= i < j < |s| ==> s[i].date <= s[j].date
  }

  /** Places `x` before the first row that is not earlier than it, so that rows
      that entered earlier stay ahead of equal-dated later ones. */
  function InsertByDate(x: Submission, s: seq<Submission>): (r: seq<Submission>)
    ensures multiset(r) == multiset(s) + multiset{x}
    ensures |r| == |s| + 1 && (r[0] == x || (s != [] && r[0] == s[0]))
  {
    if s == [] then [x]
    else if x.date <= s[0].date then [x] + s
    else
      assert s == [s[0]] + s[1..];
      [s[0]] + InsertByDate(x, s[1..])
  }

  /** Inserting into a date-sorted sequence keeps it sorted. */
  lemma {:induction false} InsertByDateSorted(x: Submission, s: seq<Submission>)
    requires SortedByDate(s)
    ensures SortedByDate(InsertByDate(x, s))
  {
    if s != [] && x.date > s[0].date {
      var rest := InsertByDate(x, s[1..]);
      InsertByDateSorted(x, s[1..]);
      assert s[0].date <= rest[0].date;
      assert InsertByDate(x, s) == [s[0]] + rest;
    }
  }

  /** `sort_values(by='date')` (firstblood.py:42), taken as a stable sort. */
  function SortByDate(s: seq<Submission>): (r: seq<Submission>)
    ensures SortedByDate(r)
    ensures multiset(r) == multiset(s)
  {
    if s == [] then []
    else
      assert s == [s[0]] + s[1..];
      var t := SortByDate(s[1..]);
      InsertByDateSorted(s[0], t);
      InsertByDate(s[0], t)
  }

  /** The first row of `rows` whose challenge id is `cid`: the row
      `groupby('challenge_id').first()` keeps for that key. */
  function FirstOf(rows: seq<Submission>, cid: int): (r: Option<Submission>)
    ensures r.None? <==> forall s :: s in rows ==> s.challengeId != cid
    ensures r.Some? ==> r.value in rows && r.value.challengeId == cid
  {
    if rows == [] then None
    else if rows[0].challengeId == cid then Some(rows[0])
    else
      assert forall s :: s in rows <==> s == rows[0] || s in rows[1..];
      FirstOf(rows[1..], cid)
  }

  /** No row of the group comes before the one `FirstOf` picks. */
  lemma {:induction false} FirstOfIsFirst(rows: seq<Submission>, cid: int)
    requires FirstOf(rows, cid).Some?
    ensures exists i :: (0 <= i < |rows| && rows[i] == FirstOf(rows, cid).value
      && forall j :: 0 <= j < i ==> rows[j].challengeId != cid)
  {
    if rows[0].challengeId != cid {
      FirstOfIsFirst(rows[1..], cid);
      var i :| 0 <= i < |rows[1..]| && rows[1..][i] == FirstOf(rows, cid).value
        && forall j :: 0 <= j < i ==> rows[1..][j].challengeId != cid;
      assert rows[i + 1] == FirstOf(rows, cid).value;
      forall j | 0 <= j < i + 1 ensures rows[j].challengeId != cid {
        if j > 0 { assert rows[j] == rows[1..][j - 1]; }
      }
    }
  }

  /** Reference definition of a first blood: among the rows of `subs` for
      challenge `cid`, the one with the smallest date, and among several with
      that date the one that comes first in `subs`. */
  function EarliestOf(subs: seq<Submission>, cid: int): (r: Option<Submission>)
    ensures r.None? <==> forall s :: s in subs ==> s.challengeId != cid
    ensures r.Some? ==> r.value in subs && r.value.challengeId == cid
    ensures r.Some? ==> forall s :: s in subs && s.challengeId == cid ==> r.value.date <= s.date
  {
    if subs == [] then None
    else
      var rest := EarliestOf(subs[1..], cid);
      assert forall s :: s in subs <==> s == subs[0] || s in subs[1..];
      if subs[0].challengeId == cid && (rest.None? || subs[0].date <= rest.value.date) then Some(subs[0])
      else rest
  }

  /** Ties go to the first in input order: every row for `cid` ahead of the
      winner is strictly later. */
  lemma {:induction false} EarliestOfIsFirstAmongMinimal(subs: seq<Submission>, cid: int)
    requires EarliestOf(subs, cid).Some?
    ensures exists i :: (0 <= i < |subs| && subs[i] == EarliestOf(subs, cid).value
      && forall j :: 0 <= j < i && subs[j].challengeId == cid ==> subs[j].date > subs[i].date)
  {
    var w := EarliestOf(subs, cid).value;
    var tail := subs[1..];
    var rest := EarliestOf(tail, cid);
    if subs[0].challengeId == cid && (rest.None? || subs[0].date <= rest.value.date) {
      assert subs[0] == w;
    } else {
      assert rest == Some(w);
      assert subs[0].challengeId == cid ==> subs[0].date > w.date;
      EarliestOfIsFirstAmongMinimal(tail, cid);
      var i :| 0 <= i < |tail| && tail[i] == w
        && forall j :: 0 <= j < i && tail[j].challengeId == cid ==> tail[j].date > w.date;
      assert subs[i + 1] == w;
      forall j | 0 <= j < i + 1 && subs[j].challengeId == cid ensures subs[j].date > w.date {
        if j > 0 { assert subs[j] == tail[j - 1]; }
      }
    }
  }

  /** Inserting one row changes the first row of a group only when the new row
      belongs to it and is not later than the old first row. */
  lemma {:induction false} FirstOfInsert(x: Submission, t: seq<Submission>, cid: int)
    requires SortedByDate(t)
    ensures FirstOf(InsertByDate(x, t), cid) ==
      if x.challengeId == cid && (FirstOf(t, cid).None? || x.date <= FirstOf(t, cid).value.date)
      then Some(x) else FirstOf(t, cid)
  {
    if t == [] {
    } else if x.date <= t[0].date {
      assert InsertByDate(x, t) == [x] + t;
      assert ([x] + t)[1..] == t;
      if x.challengeId != cid { return; }
      var f := FirstOf(t, cid);
      if f.Some? {
        FirstOfIsFirst(t, cid);
        var i :| 0 <= i < |t| && t[i] == f.value && forall j :: 0 <= j < i ==> t[j].challengeId != cid;
        assert t[0].date <= t[i].date;
      }
    } else {
      var t' := t[1..];
      assert InsertByDate(x, t) == [t[0]] + InsertByDate(x, t');
      assert ([t[0]] + InsertByDate(x, t'))[1..] == InsertByDate(x, t');
      FirstOfInsert(x, t', cid);
    }
  }

  /** The first row per challenge after the stable date sort is the reference
      earliest submission. */
  lemma {:induction false} FirstAfterSortIsEarliest(subs: seq<Submission>, cid: int)
    ensures FirstOf(SortByDate(subs), cid) == EarliestOf(subs, cid)
  {
    if subs != [] {
      FirstAfterSortIsEarliest(subs[1..], cid);
      FirstOfInsert(subs[0], SortByDate(subs[1..]), cid);
    }
  }

  predicate StrictlyIncreasing(ks: seq<int>) {
    forall i, j :: 0 <= i < j < |ks| ==> ks[i] < ks[j]
  }

  /** Adds `k` to an ascending list of distinct keys, unless it is there. */
  function InsertKey(k: int, ks: seq<int>): (r: seq<int>)
    requires StrictlyIncreasing(ks)
    ensures StrictlyIncreasing(r)
    ensures forall x :: x in r <==> x == k || x in ks
    ensures |r| > 0 && (r[0] == k || (ks != [] && r[0] == ks[0]))
  {
    if ks == [] then [k]
    else if k < ks[0] then [k] + ks
    else if k == ks[0] then ks
    else
      assert forall x :: x in ks <==> x == ks[0] || x in ks[1..];
      var rest := InsertKey(k, ks[1..]);
      assert ks[0] < rest[0];
      assert forall j :: 0 <= j < |rest| ==> ks[0] < rest[j];
      [ks[0]] + rest
  }

  /** The group keys of `groupby('challenge_id')`: every challenge id that
      occurs, once each, ascending. */
  function GroupKeys(rows: seq<Submission>): (ks: seq<int>)
    ensures StrictlyIncreasing(ks)
    ensures forall k :: k in ks <==> exists s :: s in rows && s.challengeId == k
  {
    if rows == [] then []
    else
      assert forall s :: s in rows <==> s == rows[0] || s in rows[1..];
      InsertKey(rows[0].challengeId, GroupKeys(rows[1..]))
  }

  /** The first row of each listed group, in the order of `keys`. */
  function Heads(rows: seq<Submission>, keys: seq<int>): (r: seq<Submission>)
    requires forall k :: k in keys ==> exists s :: s in rows && s.challengeId == k
    ensures |r| == |keys|
    ensures forall i :: 0 <= i < |r| ==> FirstOf(rows, keys[i]) == Some(r[i])
  {
    if keys == [] then []
    else
      assert keys[0] in keys;
      assert forall k :: k in keys[1..] ==> k in keys;
      [FirstOf(rows, keys[0]).value] + Heads(rows, keys[1..])
  }

  predicate AscendingChallenges(r: seq<Submission>) {
    forall i, j :: 0 <= i < j < |r| ==> r[i].challengeId < r[j].challengeId
  }

  /** The challenge ids that occur in `r`. */
  function ChallengeIds(r: seq<Submission>): set<int> {
    set w | w in r :: w.challengeId
  }

  /** `groupby('challenge_id').first().reset_index()` (firstblood.py:45): one
      row per challenge id occurring in `rows`, ascending by id, each the first
      row of its group. */
  function GroupFirst(rows: seq<Submission>): (r: seq<Submission>)
    ensures AscendingChallenges(r)
    ensures ChallengeIds(r) == ChallengeIds(rows)
    ensures forall i :: 0 <= i < |r| ==> FirstOf(rows, r[i].challengeId) == Some(r[i])
  {
    var keys := GroupKeys(rows);
    var r := Heads(rows, keys);
    forall i | 0 <= i < |r| ensures r[i].challengeId == keys[i] && r[i] in rows {
      assert FirstOf(rows, keys[i]) == Some(r[i]);
    }
    forall k | k in ChallengeIds(rows) ensures k in ChallengeIds(r) {
      var s :| s in rows && s.challengeId == k;
      assert k in keys;
      var i :| 0 <= i < |keys| && keys[i] == k;
      assert r[i] in r;
    }
    r
  }
}
