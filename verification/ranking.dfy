/**
  The scoreboard's periodic re-score and re-rank (`updateScores` in
  src/app/page.tsx): every question score moves by a random delta and is
  clamped at 0, the status follows the new score, the total is recomputed, the
  list is sorted by descending total (stably, as JavaScript's sort is), and
  each team learns its previous rank and whether it moved.
 */
module Ranking {
  import opened Scores

  /** The scoreboard's fixed question count. */
  const NumQuestions := 8

  /** `Math.floor(Math.random() * 6 - 3)` lies in -3..2. */
  predicate IsDelta(d: int)
  {
    -3 <= d <= 2
  }

  /** One delta per question of the team. */
  predicate DeltasFor(t: Team, ds: seq<int>)
  {
    |ds| == |t.questions| && forall i :: 0 <= i < |ds| ==> IsDelta(ds[i])
  }

  /** One delta vector per team position. */
  predicate ValidDeltas(ts: seq<Team>, deltas: seq<seq<int>>)
  {
    |deltas| == |ts| && forall i :: 0 <= i < |ts| ==> DeltasFor(ts[i], deltas[i])
  }

  /** The scoreboard's status policy for a synthesised score. */
  function StatusOf(score: int): (st: Status)
    ensures st == Correct <==> score > 7
    ensures st == Pending <==> 3 < score <= 7
    ensures st == Incorrect <==> score <= 3
  {
    if score > 7 then Correct else if score > 3 then Pending else Incorrect
  }

  /** One question after a delta: `Math.max(0, score + delta)`, with the
      status derived from the new score and the first-solve flag kept. */
  function RescoreQuestion(q: Question, d: int): (r: Question)
    ensures r.score >= 0 && r.score >= q.score + d
    ensures r.score == q.score + d || r.score == 0
    ensures r.status == StatusOf(r.score)
    ensures r.isFirstSolve == q.isFirstSolve
  {
    var s := if q.score + d > 0 then q.score + d else 0;
    q.(score := s, status := StatusOf(s))
  }

  /** The per-question loop: the rescored questions together with the running
      sum `newSum` the loop accumulates. */
  function RescoreQuestions(qs: seq<Question>, ds: seq<int>): (r: (seq<Question>, int))
    requires |ds| == |qs|
    ensures |r.0| == |qs|
    ensures forall i :: 0 <= i < |qs| ==> r.0[i] == RescoreQuestion(qs[i], ds[i])
    ensures r.1 == Total(r.0)
    decreases |qs|
  {
    if |qs| == 0 then ([], 0)
    else
      var rest := RescoreQuestions(qs[1..], ds[1..]);
      var q := RescoreQuestion(qs[0], ds[0]);
      TotalCons(q, rest.0);
      ([q] + rest.0, q.score + rest.1)
  }

  /** One team after its questions are rescored. */
  function Rescore(t: Team, ds: seq<int>): (r: Team)
    requires |ds| == |t.questions|
    ensures r.name == t.name && |r.questions| == |t.questions|
    ensures r.previousRank == t.previousRank && r.isMoving == t.isMoving
    ensures r.isHighlighting == t.isHighlighting
    ensures forall i :: 0 <= i < |ds| ==> r.questions[i] == RescoreQuestion(t.questions[i], ds[i])
    ensures SumConsistent(r) && ScoresNonNegative(r.questions) && r.sum >= 0
  {
    var (qs, s) := RescoreQuestions(t.questions, ds);
    TotalNonNegative(qs);
    t.(questions := qs, sum := s)
  }

  /** Every team rescored with its own delta vector. */
  function RescoreAll(ts: seq<Team>, deltas: seq<seq<int>>): (r: seq<Team>)
    requires ValidDeltas(ts, deltas)
    ensures |r| == |ts|
    ensures forall i :: 0 <= i < |ts| ==> r[i] == Rescore(ts[i], deltas[i])
    decreases |ts|
  {
    if |ts| == 0 then []
    else [Rescore(ts[0], deltas[0])] + RescoreAll(ts[1..], deltas[1..])
  }

  // ---------------------------------------------------------------------
  // Sorting by descending total, stably.

  predicate SortedBySum(s: seq<Team>)
  {
    forall i, j :: 0 <= i < j < |s| ==> s[i].sum >= s[j].sum
  }

  /** The teams of `s` whose total is `k`, in their order in `s`. */
  function WithSum(s: seq<Team>, k: int): seq<Team>
    decreases |s|
  {
    if |s| == 0 then [] else Keep(s[0], k) + WithSum(s[1..], k)
  }

  function Keep(t: Team, k: int): seq<Team>
  {
    if t.sum == k then [t] else []
  }

  /** `r` is the stable sort of `s` by descending total: sorted, and every
      group of equal totals keeps its order from `s`. */
  ghost predicate IsStableSortBySum(s: seq<Team>, r: seq<Team>)
  {
    SortedBySum(r) && forall k :: WithSum(r, k) == WithSum(s, k)
  }

  /** Insert `x` in front of the first team whose total does not exceed its own. */
  function Insert(x: Team, s: seq<Team>): (r: seq<Team>)
    ensures |r| == |s| + 1
    ensures multiset(r) == multiset(s) + multiset{x}
    decreases |s|
  {
    if |s| == 0 || s[0].sum <= x.sum then [x] + s
    else
      assert s == [s[0]] + s[1..];
      [s[0]] + Insert(x, s[1..])
  }

  /** Inserting into a list sorted by descending total keeps it sorted. */
  lemma {:induction false} InsertSorted(x: Team, s: seq<Team>)
    requires SortedBySum(s)
    ensures SortedBySum(Insert(x, s))
    decreases |s|
  {
    if |s| > 0 && s[0].sum > x.sum {
      var rest := Insert(x, s[1..]);
      InsertSorted(x, s[1..]);
      forall j | 0 <= j < |rest|
        ensures rest[j].sum <= s[0].sum
      {
        assert rest[j] in multiset(rest);
      }
    }
  }

  /** The sort `[...teams].sort((a, b) => b.sum - a.sum)`. */
  function SortBySum(s: seq<Team>): (r: seq<Team>)
    ensures |r| == |s|
    ensures multiset(r) == multiset(s)
    ensures SortedBySum(r)
    decreases |s|
  {
    if |s| == 0 then []
    else
      assert s == [s[0]] + s[1..];
      InsertSorted(s[0], SortBySum(s[1..]));
      Insert(s[0], SortBySum(s[1..]))
  }

  lemma WithSumCons(x: Team, s: seq<Team>, k: int)
    ensures WithSum([x] + s, k) == Keep(x, k) + WithSum(s, k)
  {
    assert ([x] + s)[1..] == s;
  }

  lemma WithSumUnfold(s: seq<Team>, k: int)
    requires |s| > 0
    ensures WithSum(s, k) == Keep(s[0], k) + WithSum(s[1..], k)
  {
  }

  /** Inserting `x` adds it to its own group only, at the group's front. */
  lemma {:induction false} InsertWithSum(x: Team, s: seq<Team>, k: int)
    ensures WithSum(Insert(x, s), k) == Keep(x, k) + WithSum(s, k)
    decreases |s|
  {
    if |s| == 0 || s[0].sum <= x.sum {
      WithSumCons(x, s, k);
    } else {
      var rest := Insert(x, s[1..]);
      assert Insert(x, s) == [s[0]] + rest;
      calc {
        WithSum(Insert(x, s), k);
        { WithSumCons(s[0], rest, k); }
        Keep(s[0], k) + WithSum(rest, k);
        { InsertWithSum(x, s[1..], k); }
        Keep(s[0], k) + (Keep(x, k) + WithSum(s[1..], k));
        { assert Keep(s[0], k) == [] || Keep(x, k) == []; }
        Keep(x, k) + (Keep(s[0], k) + WithSum(s[1..], k));
        { WithSumUnfold(s, k); }
        Keep(x, k) + WithSum(s, k);
      }
    }
  }

  /** Sorting keeps, for every total, the order of the teams holding it: ties
      keep their input order. */
  lemma {:induction false} SortBySumIsStable(s: seq<Team>)
    ensures IsStableSortBySum(s, SortBySum(s))
    decreases |s|
  {
    if |s| > 0 {
      SortBySumIsStable(s[1..]);
      forall k
        ensures WithSum(SortBySum(s), k) == WithSum(s, k)
      {
        calc {
          WithSum(SortBySum(s), k);
          { InsertWithSum(s[0], SortBySum(s[1..]), k); }
          Keep(s[0], k) + WithSum(SortBySum(s[1..]), k);
          Keep(s[0], k) + WithSum(s[1..], k);
          { WithSumUnfold(s, k); }
          WithSum(s, k);
        }
      }
    }
  }

  lemma {:induction false} WithSumHasMember(s: seq<Team>, k: int)
    requires |WithSum(s, k)| > 0
    ensures exists i :: 0 <= i < |s| && s[i].sum == k
    decreases |s|
  {
    if s[0].sum != k {
      WithSumHasMember(s[1..], k);
      var i :| 0 <= i < |s[1..]| && s[1..][i].sum == k;
      assert s[i + 1].sum == k;
    }
  }

  /** A non-empty list has a team with its first team's total. */
  lemma WithSumOfHead(s: seq<Team>)
    ensures |s| > 0 ==> WithSum(s, s[0].sum) == [s[0]] + WithSum(s[1..], s[0].sum)
  {
    if |s| > 0 {
      WithSumUnfold(s, s[0].sum);
    }
  }

  /** Two lists sorted by total with the same groups of equal totals are equal. */
  lemma {:induction false} SameGroupsSameSort(a: seq<Team>, b: seq<Team>)
    requires SortedBySum(a) && SortedBySum(b)
    requires forall k :: WithSum(a, k) == WithSum(b, k)
    ensures a == b
    decreases |a|
  {
    WithSumOfHead(a);
    WithSumOfHead(b);
    if |a| > 0 && |b| > 0 {
      var m := a[0].sum;
      WithSumHasMember(b, m);
      WithSumHasMember(a, b[0].sum);
      assert b[0].sum == m;
      assert WithSum(a, m) == WithSum(b, m);
      assert a[0] == WithSum(a, m)[0] == WithSum(b, m)[0] == b[0];
      forall k
        ensures WithSum(a[1..], k) == WithSum(b[1..], k)
      {
        assert WithSum(a, k) == WithSum(b, k);
        if k == m {
          assert WithSum(a[1..], k) == WithSum(a, k)[1..];
          assert WithSum(b[1..], k) == WithSum(b, k)[1..];
        } else {
          assert WithSum(a, k) == WithSum(a[1..], k);
          assert WithSum(b, k) == WithSum(b[1..], k);
        }
      }
      SameGroupsSameSort(a[1..], b[1..]);
      assert a == [a[0]] + a[1..] && b == [b[0]] + b[1..];
    }
  }

  /** The stable sort is unique: any list that is sorted by total and keeps
      every group of equal totals in input order is `SortBySum`'s result. */
  lemma StableSortIsUnique(s: seq<Team>, r: seq<Team>)
    requires IsStableSortBySum(s, r)
    ensures r == SortBySum(s)
  {
    SortBySumIsStable(s);
    SameGroupsSameSort(r, SortBySum(s));
  }

  // ---------------------------------------------------------------------
  // Ranks.

  /** The rank table `oldRanks`: each name mapped to its 1-based position;
      when a name occurs twice the later position overwrites the earlier one. */
  function OldRanks(ts: seq<Team>): map<string, int>
    decreases |ts|
  {
    if |ts| == 0 then map[]
    else OldRanks(ts[..|ts| - 1])[ts[|ts| - 1].name := |ts|]
  }

  /** The independent reading of the table: one past the last position that
      holds `n`, or 0 when no team is called `n`. */
  function LastRank(ts: seq<Team>, n: string): int
    decreases |ts|
  {
    if |ts| == 0 then 0
    else if ts[|ts| - 1].name == n then |ts|
    else LastRank(ts[..|ts| - 1], n)
  }

  /** The table holds exactly the names that occur, each at its last rank. */
  lemma {:induction false} OldRanksIsLastRank(ts: seq<Team>, n: string)
    ensures n in OldRanks(ts) <==> LastRank(ts, n) > 0
    ensures n in OldRanks(ts) ==> OldRanks(ts)[n] == LastRank(ts, n)
    decreases |ts|
  {
    if |ts| > 0 {
      OldRanksIsLastRank(ts[..|ts| - 1], n);
    }
  }

  /** The last rank of a name that occurs at `j` is a position holding that
      name, at or after `j`. */
  lemma {:induction false} LastRankOf(ts: seq<Team>, j: int)
    requires 0 <= j < |ts|
    ensures j + 1 <= LastRank(ts, ts[j].name) <= |ts|
    ensures ts[LastRank(ts, ts[j].name) - 1].name == ts[j].name
    decreases |ts|
  {
    var n := |ts|;
    if ts[n - 1].name != ts[j].name {
      LastRankOf(ts[..n - 1], j);
    }
  }

  /** Looking up a name that occurs at position `j` yields a 1-based position
      holding that name. */
  lemma OldRanksLookup(ts: seq<Team>, j: int)
    requires 0 <= j < |ts|
    ensures ts[j].name in OldRanks(ts)
    ensures 1 <= OldRanks(ts)[ts[j].name] <= |ts|
    ensures ts[OldRanks(ts)[ts[j].name] - 1].name == ts[j].name
  {
    OldRanksIsLastRank(ts, ts[j].name);
    LastRankOf(ts, j);
  }

  /** With distinct names, the table holds each team's own position. */
  lemma OldRanksOfUniqueNames(ts: seq<Team>, j: int)
    requires UniqueNames(ts) && 0 <= j < |ts|
    ensures ts[j].name in OldRanks(ts) && OldRanks(ts)[ts[j].name] == j + 1
  {
    OldRanksIsLastRank(ts, ts[j].name);
    LastRankOf(ts, j);
  }

  /** The team at position `i` of the sorted list, with its previous rank and
      whether it moved: `oldRanks[name] || index + 1`, so a missing or zero
      (falsy) old rank falls back to the new rank. */
  function Ranked(t: Team, i: nat, ranks: map<string, int>): (r: Team)
    ensures r.name == t.name && r.questions == t.questions && r.sum == t.sum
    ensures r.isHighlighting == t.isHighlighting
    ensures t.name in ranks && ranks[t.name] != 0 ==> r.previousRank == ranks[t.name]
    ensures t.name !in ranks || ranks[t.name] == 0 ==> r.previousRank == i + 1
    ensures r.isMoving <==> r.previousRank != i + 1
  {
    var prev := if t.name in ranks && ranks[t.name] != 0 then ranks[t.name] else i + 1;
    t.(previousRank := prev, isMoving := prev != i + 1)
  }

  function AssignRanks(s: seq<Team>, ranks: map<string, int>): (r: seq<Team>)
    ensures |r| == |s|
    ensures forall i :: 0 <= i < |s| ==> r[i] == Ranked(s[i], i, ranks)
  {
    seq(|s|, i requires 0 <= i < |s| => Ranked(s[i], i, ranks))
  }

  /** A team with its rank flags reset: what sorting and ranking must not change. */
  function Unrank(t: Team): Team
  {
    t.(previousRank := 0, isMoving := false)
  }

  function Unranked(s: seq<Team>): (r: seq<Team>)
    ensures |r| == |s|
    ensures forall i :: 0 <= i < |s| ==> r[i] == Unrank(s[i])
  {
    seq(|s|, i requires 0 <= i < |s| => Unrank(s[i]))
  }

  /** One periodic update: rescore every team, sort, and rank against the
      positions before the update. */
  function UpdateScores(ts: seq<Team>, deltas: seq<seq<int>>): seq<Team>
    requires ValidDeltas(ts, deltas)
  {
    AssignRanks(SortBySum(RescoreAll(ts, deltas)), OldRanks(ts))
  }

  /** The team placed at `i` in a permutation of per-position rescorings comes
      from some position `j` of `ts`. */
  lemma OriginOf(ts: seq<Team>, rescored: seq<Team>, sorted: seq<Team>, i: int) returns (j: int)
    requires |rescored| == |ts|
    requires multiset(sorted) == multiset(rescored)
    requires 0 <= i < |sorted|
    ensures 0 <= j < |ts| && rescored[j] == sorted[i]
  {
    assert sorted[i] in multiset(rescored);
    j :| 0 <= j < |rescored| && rescored[j] == sorted[i];
  }

  /** The team at position `i` after an update keeps a total equal to the sum
      of its question scores, and those scores are non-negative. */
  lemma UpdatedTeamScores(ts: seq<Team>, deltas: seq<seq<int>>, i: int)
    requires ValidDeltas(ts, deltas)
    requires 0 <= i < |ts|
    ensures var t := UpdateScores(ts, deltas)[i];
      SumConsistent(t) && ScoresNonNegative(t.questions)
  {
    var rescored := RescoreAll(ts, deltas);
    var sorted := SortBySum(rescored);
    var j := OriginOf(ts, rescored, sorted, i);
    assert rescored[j] == Rescore(ts[j], deltas[j]);
    assert UpdateScores(ts, deltas)[i] == Ranked(sorted[i], i, OldRanks(ts));
  }

  /** The team at position `i` after an update has as previous rank a 1-based
      position its name held before the update, and `isMoving` says whether
      that differs from its new rank. */
  lemma UpdatedTeamRank(ts: seq<Team>, deltas: seq<seq<int>>, i: int)
    requires ValidDeltas(ts, deltas)
    requires 0 <= i < |ts|
    ensures var t := UpdateScores(ts, deltas)[i];
      1 <= t.previousRank <= |ts| && ts[t.previousRank - 1].name == t.name &&
      (t.isMoving <==> t.previousRank != i + 1)
  {
    var rescored := RescoreAll(ts, deltas);
    var sorted := SortBySum(rescored);
    var j := OriginOf(ts, rescored, sorted, i);
    assert rescored[j] == Rescore(ts[j], deltas[j]);
    OldRanksLookup(ts, j);
    var n := sorted[i].name;
    assert n == ts[j].name;
    assert UpdateScores(ts, deltas)[i] == Ranked(sorted[i], i, OldRanks(ts));
    assert UpdateScores(ts, deltas)[i].previousRank == OldRanks(ts)[n];
  }

  /** With distinct names, the team at position `i` after an update is the
      rescoring of the team that stood at its previous rank. */
  lemma UpdatedTeamOfUniqueNames(ts: seq<Team>, deltas: seq<seq<int>>, i: int)
    requires ValidDeltas(ts, deltas) && UniqueNames(ts)
    requires 0 <= i < |ts|
    ensures var p := UpdateScores(ts, deltas)[i].previousRank - 1;
      0 <= p < |ts| && UpdateScores(ts, deltas)[i].questions == Rescore(ts[p], deltas[p]).questions
  {
    var rescored := RescoreAll(ts, deltas);
    var sorted := SortBySum(rescored);
    var r := UpdateScores(ts, deltas);
    assert r[i] == Ranked(sorted[i], i, OldRanks(ts));
    var j := OriginOf(ts, rescored, sorted, i);
    OldRanksOfUniqueNames(ts, j);
    assert r[i].previousRank == j + 1;
    assert rescored[j] == Rescore(ts[j], deltas[j]);
  }

  /** Ranking changes nothing but the rank fields, so it keeps the order. */
  lemma AssignRanksKeepsTeams(s: seq<Team>, ranks: map<string, int>)
    ensures Unranked(AssignRanks(s, ranks)) == Unranked(s)
    ensures SortedBySum(s) ==> SortedBySum(AssignRanks(s, ranks))
  {
    var r := AssignRanks(s, ranks);
    assert forall i :: 0 <= i < |r| ==> r[i].sum == s[i].sum && Unrank(r[i]) == Unrank(s[i]);
  }

  /** One periodic update keeps the number of teams and leaves the list
      sorted by descending total. */
  lemma UpdateScoresSorted(ts: seq<Team>, deltas: seq<seq<int>>)
    requires ValidDeltas(ts, deltas)
    ensures |UpdateScores(ts, deltas)| == |ts|
    ensures SortedBySum(UpdateScores(ts, deltas))
  {
    AssignRanksKeepsTeams(SortBySum(RescoreAll(ts, deltas)), OldRanks(ts));
  }

  /** Apart from the rank fields, one periodic update yields exactly the
      stable sort of the rescored teams: a permutation of them, sorted, with
      equal totals in their original order. */
  lemma UpdateScoresIsStableSort(ts: seq<Team>, deltas: seq<seq<int>>)
    requires ValidDeltas(ts, deltas)
    ensures Unranked(UpdateScores(ts, deltas)) == Unranked(SortBySum(RescoreAll(ts, deltas)))
    ensures IsStableSortBySum(RescoreAll(ts, deltas), SortBySum(RescoreAll(ts, deltas)))
  {
    AssignRanksKeepsTeams(SortBySum(RescoreAll(ts, deltas)), OldRanks(ts));
    SortBySumIsStable(RescoreAll(ts, deltas));
  }

  /** Every team after an update has the question count all teams had before. */
  lemma UpdateScoresKeepsQuestionCount(ts: seq<Team>, deltas: seq<seq<int>>, k: int, i: int)
    requires ValidDeltas(ts, deltas)
    requires forall j :: 0 <= j < |ts| ==> |ts[j].questions| == k
    requires 0 <= i < |ts|
    ensures |UpdateScores(ts, deltas)[i].questions| == k
  {
    var rescored := RescoreAll(ts, deltas);
    var sorted := SortBySum(rescored);
    var j := OriginOf(ts, rescored, sorted, i);
    assert rescored[j] == Rescore(ts[j], deltas[j]);
    assert UpdateScores(ts, deltas)[i] == Ranked(sorted[i], i, OldRanks(ts));
  }
}
