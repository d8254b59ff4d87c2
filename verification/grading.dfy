/** Grading: the score check of the grading page, what the server stores,
    the latest submission of each group shown to instructors, and the
    per-group statistics. Scores are floats in the source; their values are
    modelled exactly as reals. */
module Grading {
  import opened Wrappers
  import opened Models

  // ---------------------------------------------------------------------
  // submitGrade (client) and grade_submission (server)

  /** The score field as JavaScript sees it: empty, not a number
      (`isNaN` holds), or a number. */
  datatype ScoreField = EmptyField | NotANumber | Numeric(value: real)

  datatype GradeRequest = Refused(message: string) | Send(score: real)

  /** `submitGrade`: refuses an empty or non-numeric score and lowers a
      score above the maximum to the maximum; a maximum that does not parse
      (`None`) never compares greater, and there is no lower bound. */
  function SubmitGrade(field: ScoreField, maxPoints: Option<real>): (r: GradeRequest)
    ensures !field.Numeric? <==> r == Refused("Please enter a valid score")
    ensures field.Numeric? && maxPoints.Some? ==>
      r.Send? && r.score <= maxPoints.value
      && (r.score == field.value || r.score == maxPoints.value)
      && (field.value <= maxPoints.value ==> r.score == field.value)
    ensures field.Numeric? && maxPoints.None? ==> r == Send(field.value)
  {
    match field
    case EmptyField => Refused("Please enter a valid score")
    case NotANumber => Refused("Please enter a valid score")
    case Numeric(v) =>
      if maxPoints.Some? && v > maxPoints.value then Send(maxPoints.value) else Send(v)
  }

  /** The stored grade of a submission. */
  datatype Grade = Grade(score: Option<real>, passed: Option<bool>, feedback: Option<string>)

  /** `grade_submission` (POST): `float(score)` either yields a number or
      raises (`None` here, answered with status 400 and the state unchanged);
      the number is stored as given and `save` derives `passed`. */
  function GradeSubmission(g: Grade, score: Option<real>, feedback: Option<string>, passPoints: nat): (r: Result<Grade, string>)
    ensures score.None? <==> r.Err?
    ensures r.Ok? ==> r.value.score == score && r.value.feedback == feedback
    ensures r.Ok? ==> r.value.passed == Some(score.value >= passPoints as real)
  {
    match score
    case None => Err("could not convert the score to float")
    case Some(v) => Ok(Grade(Some(v), SubmissionSave(Some(v), g.passed, passPoints), feedback))
  }

  /** Scores sent by the grading page stay within the maximum; the server
      itself accepts any number, so a request made without the page can
      store a score above the maximum or below zero. */
  lemma ClampOnlyOnClient(field: ScoreField, g: Grade, feedback: Option<string>, maxPoints: nat, passPoints: nat)
    ensures var req := SubmitGrade(field, Some(maxPoints as real));
      req.Send? ==> GradeSubmission(g, Some(req.score), feedback, passPoints).value.score.value <= maxPoints as real
    ensures GradeSubmission(g, Some(maxPoints as real + 5.0), feedback, passPoints).value.score
      == Some(maxPoints as real + 5.0)
    ensures SubmitGrade(Numeric(-3.0), Some(maxPoints as real)) == Send(-3.0)
    ensures GradeSubmission(g, Some(-3.0), feedback, passPoints).value.passed == Some(false)
  {
  }

  // ---------------------------------------------------------------------
  // Latest submission per group (exercise_submissions)

  /** A submission as the list view sees it: its id, the key of its
      student's first group (0 for a student without a group) and its time. */
  datatype Sub = Sub(id: nat, group: nat, submittedAt: int)

  function GroupKey(firstGroup: Option<nat>): nat
  {
    firstGroup.GetOr(0)
  }

  /** The dictionary built by the loop: the group keys in insertion order
      and, per key, the index of the kept submission. */
  datatype Latest = Latest(keys: seq<nat>, best: map<nat, nat>)

  /** One loop step: keep `subs[i]` when its group is new or it is strictly
      newer than the kept one. A replaced entry keeps its dictionary position. */
  function LatestStep(st: Latest, subs: seq<Sub>, i: nat): Latest
    requires i < |subs|
    requires forall k :: k in st.best ==> st.best[k] < |subs|
  {
    var k := subs[i].group;
    if k !in st.best then Latest(st.keys + [k], st.best[k := i])
    else if subs[i].submittedAt > subs[st.best[k]].submittedAt then Latest(st.keys, st.best[k := i])
    else st
  }

  /** The loop over the first `n` submissions. */
  function LatestUpTo(subs: seq<Sub>, n: nat): (st: Latest)
    requires n <= |subs|
    ensures forall k :: k in st.best ==> st.best[k] < n && subs[st.best[k]].group == k
    ensures forall k :: k in st.best <==> k in st.keys
    decreases n
  {
    if n == 0 then Latest([], map[])
    else LatestStep(LatestUpTo(subs, n - 1), subs, n - 1)
  }

  /** Every group seen so far has an entry. */
  lemma {:induction false} LatestCovers(subs: seq<Sub>, n: nat)
    requires n <= |subs|
    ensures forall i :: 0 <= i < n ==> subs[i].group in LatestUpTo(subs, n).best
    decreases n
  {
    if n > 0 {
      LatestCovers(subs, n - 1);
      var prev := LatestUpTo(subs, n - 1);
      StepKeepsGroups(prev, subs, n - 1);
      forall i | 0 <= i < n
        ensures subs[i].group in LatestUpTo(subs, n).best
      {
        if i < n - 1 {
          assert subs[i].group in prev.best;
        }
      }
    }
  }

  /** A step loses no group and adds the group of the submission seen. */
  lemma StepKeepsGroups(st: Latest, subs: seq<Sub>, i: nat)
    requires i < |subs|
    requires forall k :: k in st.best ==> st.best[k] < |subs|
    ensures st.best.Keys + {subs[i].group} == LatestStep(st, subs, i).best.Keys
  {
  }

  predicate Distinct(keys: seq<nat>)
  {
    forall a, b :: 0 <= a < b < |keys| ==> keys[a] != keys[b]
  }

  /** Each group enters the key list once. */
  lemma {:induction false} LatestKeysDistinct(subs: seq<Sub>, n: nat)
    requires n <= |subs|
    ensures Distinct(LatestUpTo(subs, n).keys)
    decreases n
  {
    if n > 0 {
      LatestKeysDistinct(subs, n - 1);
      var prev := LatestUpTo(subs, n - 1);
      var k := subs[n - 1].group;
      var keys := LatestUpTo(subs, n).keys;
      if k !in prev.best {
        assert keys == prev.keys + [k];
        assert k !in prev.keys;
        forall a, b | 0 <= a < b < |keys|
          ensures keys[a] != keys[b]
        {
          assert keys[a] == prev.keys[a];
          if b < |keys| - 1 {
            assert keys[b] == prev.keys[b];
          } else {
            assert keys[b] == k;
          }
        }
      } else {
        assert keys == prev.keys;
      }
    }
  }

  /** Submission `i` is no newer than the kept entry of its group, and when
      equally new it is not earlier than it: the kept entry is the first of
      the newest ones. */
  ghost predicate KeptIsNewest(subs: seq<Sub>, best: map<nat, nat>, i: nat)
    requires i < |subs|
  {
    var g := subs[i].group;
    g in best && best[g] < |subs|
    && (subs[i].submittedAt < subs[best[g]].submittedAt
        || (subs[i].submittedAt == subs[best[g]].submittedAt && best[g] <= i))
  }

  /** One loop step keeps `KeptIsNewest` for everything seen, the new
      submission included. */
  lemma StepKeepsNewest(subs: seq<Sub>, st: Latest, n: nat)
    requires n < |subs|
    requires forall k :: k in st.best ==> st.best[k] < n
    requires forall i :: 0 <= i < n ==> KeptIsNewest(subs, st.best, i)
    ensures forall i :: 0 <= i <= n ==> KeptIsNewest(subs, LatestStep(st, subs, n).best, i)
  {
    var k := subs[n].group;
    var next := LatestStep(st, subs, n).best;
    forall i | 0 <= i <= n
      ensures KeptIsNewest(subs, next, i)
    {
      if i < n {
        assert KeptIsNewest(subs, st.best, i);
        if subs[i].group != k {
          assert next[subs[i].group] == st.best[subs[i].group];
        }
      }
    }
  }

  /** The kept entry of a group is at least as new as every submission of
      the group seen so far, and the first of the newest ones. */
  lemma {:induction false} LatestIsNewest(subs: seq<Sub>, n: nat)
    requires n <= |subs|
    ensures forall i :: 0 <= i < n ==> KeptIsNewest(subs, LatestUpTo(subs, n).best, i)
    decreases n
  {
    if n > 0 {
      LatestIsNewest(subs, n - 1);
      StepKeepsNewest(subs, LatestUpTo(subs, n - 1), n - 1);
    }
  }

  /** Sorting newest first: each element goes after every element at least
      as new, which keeps ties in their original order. */
  function InsertNewestFirst(x: Sub, sorted: seq<Sub>): (r: seq<Sub>)
    ensures multiset(r) == multiset(sorted) + multiset{x}
    ensures r[0] == x || (sorted != [] && r[0] == sorted[0])
  {
    if sorted == [] then [x]
    else if sorted[0].submittedAt >= x.submittedAt then
      assert sorted == [sorted[0]] + sorted[1..];
      [sorted[0]] + InsertNewestFirst(x, sorted[1..])
    else [x] + sorted
  }

  /** Inserting into a list sorted newest first keeps it sorted. */
  lemma {:induction false} InsertKeepsNewestFirst(x: Sub, sorted: seq<Sub>)
    requires NewestFirst(sorted)
    ensures NewestFirst(InsertNewestFirst(x, sorted))
  {
    if sorted != [] && sorted[0].submittedAt >= x.submittedAt {
      var tail := sorted[1..];
      var rest := InsertNewestFirst(x, tail);
      InsertKeepsNewestFirst(x, tail);
      forall j | 0 <= j < |rest|
        ensures sorted[0].submittedAt >= rest[j].submittedAt
      {
        HeadIsNewest(x, sorted, rest[j]);
      }
      NewestFirstCons(sorted[0], rest);
    } else if sorted != [] {
      forall j | 0 <= j < |sorted|
        ensures x.submittedAt >= sorted[j].submittedAt
      {
      }
      NewestFirstCons(x, sorted);
    }
  }

  /** The head of a sorted list is at least as new as anything that ends
      up after it when `x`, no newer, is inserted. */
  lemma HeadIsNewest(x: Sub, sorted: seq<Sub>, y: Sub)
    requires NewestFirst(sorted) && sorted != [] && sorted[0].submittedAt >= x.submittedAt
    requires y in multiset(InsertNewestFirst(x, sorted[1..]))
    ensures sorted[0].submittedAt >= y.submittedAt
  {
    if y != x {
      var tail := sorted[1..];
      assert y in multiset(tail);
      var m :| 0 <= m < |tail| && tail[m] == y;
      assert tail[m] == sorted[m + 1];
    }
  }

  lemma NewestFirstCons(h: Sub, t: seq<Sub>)
    requires NewestFirst(t)
    requires forall j :: 0 <= j < |t| ==> h.submittedAt >= t[j].submittedAt
    ensures NewestFirst([h] + t)
  {
    var r := [h] + t;
    forall i, j | 0 <= i < j < |r|
      ensures r[i].submittedAt >= r[j].submittedAt
    {
      assert r[j] == t[j - 1];
      if i > 0 {
        assert r[i] == t[i - 1];
      }
    }
  }

  predicate NewestFirst(s: seq<Sub>)
  {
    forall i, j :: 0 <= i < j < |s| ==> s[i].submittedAt >= s[j].submittedAt
  }

  function SortNewestFirst(xs: seq<Sub>): (r: seq<Sub>)
    ensures multiset(r) == multiset(xs)
    ensures NewestFirst(r)
  {
    if xs == [] then []
    else
      assert xs == xs[..|xs| - 1] + [xs[|xs| - 1]];
      var sorted := SortNewestFirst(xs[..|xs| - 1]);
      InsertKeepsNewestFirst(xs[|xs| - 1], sorted);
      InsertNewestFirst(xs[|xs| - 1], sorted)
  }

  /** The kept submissions in dictionary order. */
  function KeptInOrder(subs: seq<Sub>, st: Latest): (r: seq<Sub>)
    requires forall k :: k in st.keys ==> k in st.best && st.best[k] < |subs|
    ensures |r| == |st.keys|
    ensures forall i :: 0 <= i < |r| ==> r[i] == subs[st.best[st.keys[i]]]
    decreases |st.keys|
  {
    if st.keys == [] then []
    else
      var head := subs[st.best[st.keys[0]]];
      [head] + KeptInOrder(subs, Latest(st.keys[1..], st.best))
  }

  /** The list the instructor sees: one submission per group, newest first. */
  function LatestPerGroup(subs: seq<Sub>): (r: seq<Sub>)
    ensures forall i, j :: 0 <= i < j < |r| ==> r[i].group != r[j].group
    ensures NewestFirst(r)
    ensures forall x :: x in r ==> x in subs
    ensures forall s :: s in subs ==> exists x :: x in r && x.group == s.group
    ensures forall x, s :: x in r && s in subs && s.group == x.group ==> s.submittedAt <= x.submittedAt
  {
    var st := LatestUpTo(subs, |subs|);
    var kept := KeptInOrder(subs, st);
    var r := SortNewestFirst(kept);
    LatestPerGroupFacts(subs, st, kept, r);
    r
  }

  lemma LatestPerGroupFacts(subs: seq<Sub>, st: Latest, kept: seq<Sub>, r: seq<Sub>)
    requires st == LatestUpTo(subs, |subs|)
    requires kept == KeptInOrder(subs, st)
    requires r == SortNewestFirst(kept)
    ensures forall i, j :: 0 <= i < j < |r| ==> r[i].group != r[j].group
    ensures NewestFirst(r)
    ensures forall x :: x in r ==> x in subs
    ensures forall s :: s in subs ==> exists x :: x in r && x.group == s.group
    ensures forall x, s :: x in r && s in subs && s.group == x.group ==> s.submittedAt <= x.submittedAt
  {
    KeptProperties(subs, st, kept);
    SortedKeepsProperties(kept, r);
  }

  /** What the kept list holds: one entry per group, each the newest of its
      group. */
  lemma KeptProperties(subs: seq<Sub>, st: Latest, kept: seq<Sub>)
    requires st == LatestUpTo(subs, |subs|)
    requires kept == KeptInOrder(subs, st)
    ensures forall x :: x in kept ==> x in subs
    ensures forall s :: s in subs ==> exists x :: x in kept && x.group == s.group
    ensures forall i, j :: 0 <= i < j < |kept| ==> kept[i].group != kept[j].group
    ensures forall x, s :: x in kept && s in subs && s.group == x.group ==> s.submittedAt <= x.submittedAt
  {
    LatestKeysDistinct(subs, |subs|);
    LatestCovers(subs, |subs|);
    LatestIsNewest(subs, |subs|);
    KeptGroups(subs, st, kept);
    KeptCovers(subs, st, kept);
    KeptNewest(subs, st, kept);
  }

  /** Entry `i` of the kept list is a submission of the `i`-th key's group,
      so distinct keys give distinct groups. */
  lemma KeptGroups(subs: seq<Sub>, st: Latest, kept: seq<Sub>)
    requires forall k :: k in st.keys ==> k in st.best && st.best[k] < |subs| && subs[st.best[k]].group == k
    requires forall a, b :: 0 <= a < b < |st.keys| ==> st.keys[a] != st.keys[b]
    requires kept == KeptInOrder(subs, st)
    ensures forall x :: x in kept ==> x in subs
    ensures forall i, j :: 0 <= i < j < |kept| ==> kept[i].group != kept[j].group
  {
    forall x | x in kept
      ensures x in subs
    {
      var j :| 0 <= j < |kept| && kept[j] == x;
      assert x == subs[st.best[st.keys[j]]];
    }
    forall i, j | 0 <= i < j < |kept|
      ensures kept[i].group != kept[j].group
    {
      assert kept[i].group == st.keys[i];
      assert kept[j].group == st.keys[j];
    }
  }

  lemma KeptCovers(subs: seq<Sub>, st: Latest, kept: seq<Sub>)
    requires st == LatestUpTo(subs, |subs|)
    requires kept == KeptInOrder(subs, st)
    requires forall i :: 0 <= i < |subs| ==> subs[i].group in st.best
    ensures forall s :: s in subs ==> exists x :: x in kept && x.group == s.group
  {
    forall s | s in subs
      ensures exists x :: x in kept && x.group == s.group
    {
      var i :| 0 <= i < |subs| && subs[i] == s;
      assert s.group in st.keys;
      var j :| 0 <= j < |st.keys| && st.keys[j] == s.group;
      assert kept[j] in kept;
    }
  }

  lemma KeptNewest(subs: seq<Sub>, st: Latest, kept: seq<Sub>)
    requires st == LatestUpTo(subs, |subs|)
    requires kept == KeptInOrder(subs, st)
    requires forall i :: 0 <= i < |subs| ==> KeptIsNewest(subs, st.best, i)
    ensures forall x, s :: x in kept && s in subs && s.group == x.group ==> s.submittedAt <= x.submittedAt
  {
    forall x, s | x in kept && s in subs && s.group == x.group
      ensures s.submittedAt <= x.submittedAt
    {
      var j :| 0 <= j < |kept| && kept[j] == x;
      var i :| 0 <= i < |subs| && subs[i] == s;
      assert KeptIsNewest(subs, st.best, i);
      assert x == subs[st.best[st.keys[j]]];
    }
  }

  /** Sorting keeps the elements, so what holds of each element and of each
      pair of distinct positions survives. */
  lemma SortedKeepsProperties(kept: seq<Sub>, r: seq<Sub>)
    requires multiset(r) == multiset(kept)
    requires forall i, j :: 0 <= i < j < |kept| ==> kept[i].group != kept[j].group
    ensures forall x :: x in r <==> x in kept
    ensures forall i, j :: 0 <= i < j < |r| ==> r[i].group != r[j].group
  {
    forall x
      ensures x in r <==> x in kept
    {
      assert x in r <==> x in multiset(r);
      assert x in kept <==> x in multiset(kept);
    }
    forall i, j | 0 <= i < j < |r|
      ensures r[i].group != r[j].group
    {
      DistinctGroupsCount(kept, r, i, j);
    }
  }

  /** Two positions of a permutation of a list with distinct groups hold
      distinct groups. */
  lemma DistinctGroupsCount(kept: seq<Sub>, r: seq<Sub>, i: nat, j: nat)
    requires multiset(r) == multiset(kept)
    requires forall a, b :: 0 <= a < b < |kept| ==> kept[a].group != kept[b].group
    requires i < j < |r|
    ensures r[i].group != r[j].group
  {
    if r[i] == r[j] {
      var x := r[i];
      MultiplicityAtLeastTwo(r, i, j);
      MultiplicityAtMostOne(kept, x);
    } else {
      var x, y := r[i], r[j];
      assert x in multiset(kept) && y in multiset(kept);
      var a :| 0 <= a < |kept| && kept[a] == x;
      var b :| 0 <= b < |kept| && kept[b] == y;
      assert a != b;
    }
  }

  lemma MultiplicityAtLeastTwo(s: seq<Sub>, i: nat, j: nat)
    requires i < j < |s| && s[i] == s[j]
    ensures multiset(s)[s[i]] >= 2
  {
    var x := s[i];
    assert s == s[..i] + [x] + s[i + 1..j] + [x] + s[j + 1..];
    assert multiset(s) == multiset(s[..i]) + multiset{x} + multiset(s[i + 1..j]) + multiset{x} + multiset(s[j + 1..]);
  }

  lemma {:induction false} MultiplicityAtMostOne(s: seq<Sub>, x: Sub)
    requires forall a, b :: 0 <= a < b < |s| ==> s[a].group != s[b].group
    ensures multiset(s)[x] <= 1
  {
    if s != [] {
      var rest := s[1..];
      assert s == [s[0]] + rest;
      MultiplicityAtMostOne(rest, x);
      if s[0] == x {
        assert x !in rest by {
          forall b | 0 <= b < |rest|
            ensures rest[b] != x
          {
            assert rest[b] == s[b + 1];
          }
        }
      }
    }
  }

  // ---------------------------------------------------------------------
  // submission_statistics

  /** A submission by a student, with its score if graded. */
  datatype GradedSub = GradedSub(student: nat, score: Option<real>)

  datatype GroupStats = GroupStats(avgScore: real, maxScore: real, submissionCount: nat)

  /** The graded submissions of a group's members, in list order. */
  function GradedScores(members: set<nat>, subs: seq<GradedSub>): (r: seq<real>)
    ensures |r| <= |subs|
  {
    if subs == [] then []
    else
      var rest := GradedScores(members, subs[1..]);
      if subs[0].student in members && subs[0].score.Some? then [subs[0].score.value] + rest else rest
  }

  /** A score is listed exactly when some member's submission carries it. */
  lemma {:induction false} GradedScoresMembers(members: set<nat>, subs: seq<GradedSub>)
    ensures forall x :: x in GradedScores(members, subs) <==>
      exists s :: s in subs && s.student in members && s.score == Some(x)
  {
    if subs != [] {
      GradedScoresMembers(members, subs[1..]);
      assert forall s :: s in subs <==> s == subs[0] || s in subs[1..];
    }
  }

  /** No score is listed exactly when no member's submission is graded. */
  lemma {:induction false} NothingGradedIff(members: set<nat>, subs: seq<GradedSub>)
    ensures (forall s :: s in subs ==> s.student !in members || s.score.None?) <==>
      GradedScores(members, subs) == []
  {
    if subs != [] {
      NothingGradedIff(members, subs[1..]);
      assert forall s :: s in subs <==> s == subs[0] || s in subs[1..];
    }
  }

  function Sum(xs: seq<real>): real
  {
    if xs == [] then 0.0 else xs[0] + Sum(xs[1..])
  }

  function Maximum(xs: seq<real>): (m: real)
    requires xs != []
    ensures m in xs && forall x :: x in xs ==> x <= m
  {
    if |xs| == 1 then xs[0]
    else
      var rest := Maximum(xs[1..]);
      assert forall x :: x in xs ==> x == xs[0] || x in xs[1..];
      if xs[0] >= rest then xs[0] else rest
  }

  /** One group's statistics: all zeros without graded submissions,
      otherwise the average, the best score and the number of graded
      submissions. Rounding the average to two places is not modelled. */
  function Statistics(members: set<nat>, subs: seq<GradedSub>): (r: GroupStats)
    ensures r.submissionCount == |GradedScores(members, subs)|
    ensures r.submissionCount == 0 ==> r == GroupStats(0.0, 0.0, 0)
    ensures r.submissionCount > 0 ==>
      r.maxScore in GradedScores(members, subs)
      && r.avgScore <= r.maxScore
      && forall x :: x in GradedScores(members, subs) ==> x <= r.maxScore
  {
    var scores := GradedScores(members, subs);
    if scores == [] then GroupStats(0.0, 0.0, 0)
    else
      var m := Maximum(scores);
      AverageAtMostMax(scores, m);
      GroupStats(Sum(scores) / |scores| as real, m, |scores|)
  }

  /** A sum of scores none above `m` is at most `m` times their number. */
  lemma {:induction false} SumAtMost(xs: seq<real>, m: real)
    requires forall x :: x in xs ==> x <= m
    ensures Sum(xs) <= |xs| as real * m
  {
    if xs != [] {
      assert forall x :: x in xs[1..] ==> x in xs;
      SumAtMost(xs[1..], m);
      assert xs[0] in xs;
      assert |xs| as real * m == m + (|xs| - 1) as real * m;
    }
  }

  /** The average never exceeds the best score. */
  lemma AverageAtMostMax(xs: seq<real>, m: real)
    requires xs != []
    requires forall x :: x in xs ==> x <= m
    ensures Sum(xs) / |xs| as real <= m
  {
    SumAtMost(xs, m);
    var n := |xs| as real;
    assert Sum(xs) / n <= (n * m) / n;
    assert (n * m) / n == m;
  }

  /** Every graded submission counts: a member's graded submission makes the
      statistics non-zero, and none at all gives the zero record. */
  lemma StatisticsZeroCase(members: set<nat>, subs: seq<GradedSub>)
    ensures (forall s :: s in subs ==> s.student !in members || s.score.None?) <==>
      Statistics(members, subs) == GroupStats(0.0, 0.0, 0)
  {
    NothingGradedIff(members, subs);
  }
}
