/**
  The scoreboard page's freeze and reveal stepper (src/app/page.tsx): freezing
  stops the periodic update, unfreezing starts a reveal at cursor 0, and each
  "Next" checks the team at the cursor in `teamsToCheck` (the current list,
  reversed), halting on first solves until the operator confirms, and
  otherwise re-scoring that team alone, re-sorting, and advancing the cursor.
 */
module Scoreboard {
  import opened Scores
  import opened Ranking

  /** The open first-solve modal: the team's name and the 1-based numbers of
      its first-solve questions (shown as "Q1, Q3, ..."). */
  datatype Alert = Alert(team: string, questions: seq<nat>)

  /** The page's state: `scores`, `isFrozen`, `isUnfreezing`,
      `currentCheckingIndex` and the modal. */
  datatype Board = Board(
    scores: seq<Team>,
    frozen: bool,
    unfreezing: bool,
    cursor: Option<nat>,
    alert: Option<Alert>)

  // ---------------------------------------------------------------------
  // Reversal and first solves.

  function Reverse<T>(s: seq<T>): (r: seq<T>)
    ensures |r| == |s|
    decreases |s|
  {
    if |s| == 0 then [] else Reverse(s[1..]) + [s[0]]
  }

  /** Position `i` of the reversal is position `|s| - 1 - i` of the original. */
  lemma {:induction false} ReverseIndex<T>(s: seq<T>, i: int)
    requires 0 <= i < |s|
    ensures Reverse(s)[i] == s[|s| - 1 - i]
    decreases |s|
  {
    if i < |s| - 1 {
      ReverseIndex(s[1..], i);
    }
  }

  lemma ReverseReverse<T>(s: seq<T>)
    ensures Reverse(Reverse(s)) == s
  {
    forall i | 0 <= i < |s|
      ensures Reverse(Reverse(s))[i] == s[i]
    {
      ReverseIndex(Reverse(s), i);
      ReverseIndex(s, |s| - 1 - i);
    }
  }

  /** `teamsToCheck`: the current list reversed, lowest-placed team first. */
  function TeamsToCheck(b: Board): seq<Team>
  {
    Reverse(b.scores)
  }

  /** The 1-based numbers of the first-solve questions, in question order. */
  function FirstSolves(qs: seq<Question>): seq<nat>
    decreases |qs|
  {
    if |qs| == 0 then []
    else FirstSolves(qs[..|qs| - 1]) + (if qs[|qs| - 1].isFirstSolve then [|qs|] else [])
  }

  /** A question number is listed exactly when that question is a first solve. */
  lemma {:induction false} FirstSolvesMember(qs: seq<Question>, k: int)
    ensures k in FirstSolves(qs) <==> 1 <= k <= |qs| && qs[k - 1].isFirstSolve
    decreases |qs|
  {
    if |qs| > 0 {
      FirstSolvesMember(qs[..|qs| - 1], k);
    }
  }

  /** The listed numbers are strictly increasing and at most the question count. */
  lemma {:induction false} FirstSolvesIncreasing(qs: seq<Question>)
    ensures forall i :: 0 <= i < |FirstSolves(qs)| ==> 1 <= FirstSolves(qs)[i] <= |qs|
    ensures forall i, j :: 0 <= i < j < |FirstSolves(qs)| ==> FirstSolves(qs)[i] < FirstSolves(qs)[j]
    decreases |qs|
  {
    if |qs| > 0 {
      FirstSolvesIncreasing(qs[..|qs| - 1]);
    }
  }

  predicate HasFirstSolve(qs: seq<Question>)
  {
    exists i :: 0 <= i < |qs| && qs[i].isFirstSolve
  }

  /** The list is empty exactly when no question is a first solve. */
  lemma FirstSolvesEmpty(qs: seq<Question>)
    ensures |FirstSolves(qs)| > 0 <==> HasFirstSolve(qs)
  {
    if |FirstSolves(qs)| > 0 {
      FirstSolvesMember(qs, FirstSolves(qs)[0]);
    }
    if HasFirstSolve(qs) {
      var i :| 0 <= i < |qs| && qs[i].isFirstSolve;
      FirstSolvesMember(qs, i + 1);
    }
  }

  // ---------------------------------------------------------------------
  // Freeze, unfreeze and the periodic update.

  function Freeze(b: Board): Board
  {
    b.(frozen := true)
  }

  /** Unfreezing a frozen board starts a reveal at cursor 0; otherwise nothing
      happens. */
  function Unfreeze(b: Board): Board
  {
    if !b.frozen then b
    else b.(frozen := false, unfreezing := true, cursor := Some(0))
  }

  /** The 3-second update, which runs only while neither frozen nor unfreezing. */
  function Tick(b: Board, deltas: seq<seq<int>>): Board
    requires ValidDeltas(b.scores, deltas)
  {
    if b.frozen || b.unfreezing then b
    else b.(scores := UpdateScores(b.scores, deltas))
  }

  /** The one-second reset after an update: no team is moving any more, and
      nothing else on the board changes. */
  function Settle(b: Board): (r: Board)
    ensures r == b.(scores := r.scores) && |r.scores| == |b.scores|
    ensures forall i :: 0 <= i < |b.scores| ==> !r.scores[i].isMoving
    ensures forall i :: 0 <= i < |b.scores| ==>
      var t, u := b.scores[i], r.scores[i];
      u.name == t.name && u.questions == t.questions && u.sum == t.sum &&
      u.previousRank == t.previousRank && u.isHighlighting == t.isHighlighting
  {
    b.(scores := seq(|b.scores|, i requires 0 <= i < |b.scores| => b.scores[i].(isMoving := false)))
  }

  /** Settling keeps the board's order, and a second settle changes
      nothing. */
  lemma SettleIdempotent(b: Board)
    ensures Settle(Settle(b)) == Settle(b)
    ensures SortedBySum(b.scores) ==> SortedBySum(Settle(b).scores)
  {
  }

  // ---------------------------------------------------------------------
  // Processing one team.

  /** Set (or clear) the highlight of every team called `n`. */
  function Highlight(ts: seq<Team>, n: string, on: bool): (r: seq<Team>)
    ensures |r| == |ts|
    ensures forall i :: 0 <= i < |ts| ==>
      r[i] == if ts[i].name == n then ts[i].(isHighlighting := on) else ts[i]
  {
    seq(|ts|, i requires 0 <= i < |ts| =>
      if ts[i].name == n then ts[i].(isHighlighting := on) else ts[i])
  }

  /** Rescore every team called `n` with the delta vector of its position. */
  function RescoreNamed(ts: seq<Team>, n: string, deltas: seq<seq<int>>): (r: seq<Team>)
    requires ValidDeltas(ts, deltas)
    ensures |r| == |ts|
    ensures forall i :: 0 <= i < |ts| ==>
      r[i] == if ts[i].name == n then Rescore(ts[i], deltas[i]) else ts[i]
  {
    seq(|ts|, i requires 0 <= i < |ts| =>
      if ts[i].name == n then Rescore(ts[i], deltas[i]) else ts[i])
  }

  /** Highlighting keeps every team's name, questions and sum, so it keeps the
      board's order and leaves the teams of other names alone; switching the
      highlight on and back off restores a board on which no such team was
      highlighted. */
  lemma HighlightKeepsBoard(ts: seq<Team>, n: string, on: bool)
    ensures var r := Highlight(ts, n, on);
      forall i :: 0 <= i < |ts| ==>
        r[i].name == ts[i].name && r[i].questions == ts[i].questions && r[i].sum == ts[i].sum
    ensures SortedBySum(ts) ==> SortedBySum(Highlight(ts, n, on))
    ensures Others(Highlight(ts, n, on), n) == Others(ts, n)
    ensures (forall i :: 0 <= i < |ts| && ts[i].name == n ==> !ts[i].isHighlighting) ==>
      Highlight(Highlight(ts, n, true), n, false) == ts
  {
    OthersPointwise(Highlight(ts, n, on), ts, n);
  }

  /** Rescoring by name leaves the teams of other names alone and gives every
      team of that name a consistent, non-negative total. */
  lemma RescoreNamedOnlyNamed(ts: seq<Team>, n: string, deltas: seq<seq<int>>)
    requires ValidDeltas(ts, deltas)
    ensures Others(RescoreNamed(ts, n, deltas), n) == Others(ts, n)
    ensures var r := RescoreNamed(ts, n, deltas);
      forall i :: 0 <= i < |ts| ==>
        r[i].name == ts[i].name &&
        (r[i].name == n ==> SumConsistent(r[i]) && ScoresNonNegative(r[i].questions))
  {
    OthersPointwise(RescoreNamed(ts, n, deltas), ts, n);
  }

  /** `prev !== null ? prev + 1 : null`. */
  function Advance(c: Option<nat>): Option<nat>
  {
    if c.Some? then Some(c.value + 1) else None
  }

  /** `processNextTeam`: highlight the team, rescore it, re-sort the list,
      then clear the highlight and advance the cursor. */
  function ProcessTeam(b: Board, n: string, deltas: seq<seq<int>>): Board
    requires ValidDeltas(b.scores, deltas)
  {
    var lit := Highlight(b.scores, n, true);
    assert forall i :: 0 <= i < |lit| ==> lit[i].questions == b.scores[i].questions;
    var sorted := SortBySum(RescoreNamed(lit, n, deltas));
    b.(scores := Highlight(sorted, n, false), cursor := Advance(b.cursor))
  }

  /** The cursor points into `teamsToCheck`. */
  predicate CursorValid(b: Board)
  {
    b.cursor.Some? && b.cursor.value < |b.scores|
  }

  /** `handleNextCheck`: an absent or exhausted cursor ends the reveal; a team
      with first solves opens the alert; any other team is processed. */
  function NextCheck(b: Board, deltas: seq<seq<int>>): Board
    requires ValidDeltas(b.scores, deltas)
  {
    if !CursorValid(b) then b.(unfreezing := false, cursor := None)
    else
      var team := TeamsToCheck(b)[b.cursor.value];
      var labels := FirstSolves(team.questions);
      if |labels| > 0 then b.(alert := Some(Alert(team.name, labels)))
      else ProcessTeam(b, team.name, deltas)
  }

  /** The alert's OK button: close it and process the team at the cursor. */
  function ConfirmAlert(b: Board, deltas: seq<seq<int>>): Board
    requires ValidDeltas(b.scores, deltas)
    requires b.alert.Some? && CursorValid(b)
  {
    ProcessTeam(b.(alert := None), TeamsToCheck(b)[b.cursor.value].name, deltas)
  }

  // ---------------------------------------------------------------------
  // What each step promises.

  /** Freezing stops the periodic update: a tick changes nothing. */
  lemma FrozenTickIsIdle(b: Board, deltas: seq<seq<int>>)
    requires ValidDeltas(b.scores, deltas)
    ensures Tick(Freeze(b), deltas) == Freeze(b)
  {
  }

  /** Unfreezing does nothing unless frozen; a frozen board starts its reveal at
      the bottom team with its scores unchanged, and a second unfreeze is
      idle. */
  lemma UnfreezeStartsReveal(b: Board)
    ensures !b.frozen ==> Unfreeze(b) == b
    ensures b.frozen ==> var r := Unfreeze(b);
      r.scores == b.scores && !r.frozen && r.unfreezing && r.cursor == Some(0)
    ensures Unfreeze(Unfreeze(b)) == Unfreeze(b)
  {
  }

  /** "Next" with an absent or exhausted cursor ends the reveal without touching
      the scores, and pressing it again changes nothing. */
  lemma NextCheckEnds(b: Board, deltas: seq<seq<int>>)
    requires ValidDeltas(b.scores, deltas)
    requires !CursorValid(b)
    ensures NextCheck(b, deltas).scores == b.scores
    ensures !NextCheck(b, deltas).unfreezing && NextCheck(b, deltas).cursor == None
    ensures NextCheck(NextCheck(b, deltas), deltas) == NextCheck(b, deltas)
  {
  }

  /** "Next" on a team with first solves halts: the alert names the team and
      exactly its first-solve questions, and neither scores nor cursor move. */
  lemma NextCheckHalts(b: Board, deltas: seq<seq<int>>)
    requires ValidDeltas(b.scores, deltas)
    requires CursorValid(b)
    requires HasFirstSolve(TeamsToCheck(b)[b.cursor.value].questions)
    ensures var r := NextCheck(b, deltas);
      var team := b.scores[|b.scores| - 1 - b.cursor.value];
      r.scores == b.scores && r.cursor == b.cursor &&
      r.alert.Some? && r.alert.value.team == team.name &&
      forall k :: k in r.alert.value.questions <==> 1 <= k <= |team.questions| && team.questions[k - 1].isFirstSolve
  {
    var team := TeamsToCheck(b)[b.cursor.value];
    ReverseIndex(b.scores, b.cursor.value);
    FirstSolvesEmpty(team.questions);
    forall k
      ensures k in FirstSolves(team.questions) <==> 1 <= k <= |team.questions| && team.questions[k - 1].isFirstSolve
    {
      FirstSolvesMember(team.questions, k);
    }
  }

  /** "Next" on a team without first solves processes that team, the one
      `|scores| - 1 - cursor` places from the top, and nothing else. */
  lemma NextCheckProcesses(b: Board, deltas: seq<seq<int>>)
    requires ValidDeltas(b.scores, deltas)
    requires CursorValid(b)
    requires !HasFirstSolve(TeamsToCheck(b)[b.cursor.value].questions)
    ensures NextCheck(b, deltas) == ProcessTeam(b, b.scores[|b.scores| - 1 - b.cursor.value].name, deltas)
  {
    ReverseIndex(b.scores, b.cursor.value);
    FirstSolvesEmpty(TeamsToCheck(b)[b.cursor.value].questions);
  }

  // ---------------------------------------------------------------------
  // Processing changes only the processed team.

  /** The teams not called `n`, in order. */
  function Others(s: seq<Team>, n: string): seq<Team>
    decreases |s|
  {
    if |s| == 0 then [] else (if s[0].name != n then [s[0]] else []) + Others(s[1..], n)
  }

  /** Two lists that agree on names position by position, and on every team
      not called `n`, have the same other teams. */
  lemma {:induction false} OthersPointwise(a: seq<Team>, b: seq<Team>, n: string)
    requires |a| == |b|
    requires forall i :: 0 <= i < |a| ==> a[i].name == b[i].name
    requires forall i :: 0 <= i < |a| && a[i].name != n ==> a[i] == b[i]
    ensures Others(a, n) == Others(b, n)
    decreases |a|
  {
    if |a| > 0 {
      OthersPointwise(a[1..], b[1..], n);
    }
  }

  /** `Others` keeps every team not called `n` as often as it occurs. */
  lemma {:induction false} OthersCount(s: seq<Team>, n: string, t: Team)
    ensures multiset(Others(s, n))[t] == if t.name != n then multiset(s)[t] else 0
    decreases |s|
  {
    if |s| > 0 {
      OthersCount(s[1..], n, t);
      assert s == [s[0]] + s[1..];
    }
  }

  /** Permuting a list permutes its other teams. */
  lemma OthersPermutation(a: seq<Team>, b: seq<Team>, n: string)
    requires multiset(a) == multiset(b)
    ensures multiset(Others(a, n)) == multiset(Others(b, n))
  {
    forall t
      ensures multiset(Others(a, n))[t] == multiset(Others(b, n))[t]
    {
      OthersCount(a, n, t);
      OthersCount(b, n, t);
    }
  }

  /** Processing the team called `n` leaves every other team as it was, up to
      order; only the cursor moves among the page flags, and the list ends
      sorted by descending total. */
  lemma ProcessTeamOthers(b: Board, n: string, deltas: seq<seq<int>>)
    requires ValidDeltas(b.scores, deltas)
    ensures multiset(Others(ProcessTeam(b, n, deltas).scores, n)) == multiset(Others(b.scores, n))
  {
    var lit := Highlight(b.scores, n, true);
    assert forall i :: 0 <= i < |lit| ==> lit[i].questions == b.scores[i].questions;
    var rescored := RescoreNamed(lit, n, deltas);
    var sorted := SortBySum(rescored);
    OthersPointwise(b.scores, lit, n);
    OthersPointwise(lit, rescored, n);
    OthersPermutation(sorted, rescored, n);
    OthersPointwise(sorted, Highlight(sorted, n, false), n);
  }

  lemma ProcessTeamShape(b: Board, n: string, deltas: seq<seq<int>>)
    requires ValidDeltas(b.scores, deltas)
    ensures var r := ProcessTeam(b, n, deltas);
      |r.scores| == |b.scores| && SortedBySum(r.scores) &&
      r.cursor == Advance(b.cursor) &&
      r.frozen == b.frozen && r.unfreezing == b.unfreezing && r.alert == b.alert
  {
    var lit := Highlight(b.scores, n, true);
    assert forall i :: 0 <= i < |lit| ==> lit[i].questions == b.scores[i].questions;
    var sorted := SortBySum(RescoreNamed(lit, n, deltas));
    var r := Highlight(sorted, n, false);
    assert forall i :: 0 <= i < |r| ==> r[i].sum == sorted[i].sum;
  }

  /** Every team after processing comes from some position `j` before it:
      unchanged when it is not called `n`, and otherwise rescored with that
      position's deltas and no longer highlighted. */
  lemma ProcessTeamOrigin(b: Board, n: string, deltas: seq<seq<int>>, i: int) returns (j: int)
    requires ValidDeltas(b.scores, deltas)
    requires 0 <= i < |b.scores|
    ensures 0 <= j < |b.scores|
    ensures var t := ProcessTeam(b, n, deltas).scores[i];
      t.name == b.scores[j].name &&
      (t.name != n ==> t == b.scores[j]) &&
      (t.name == n ==> t == Rescore(b.scores[j], deltas[j]).(isHighlighting := false))
  {
    var lit := Highlight(b.scores, n, true);
    assert forall k :: 0 <= k < |lit| ==> lit[k].questions == b.scores[k].questions;
    var rescored := RescoreNamed(lit, n, deltas);
    var sorted := SortBySum(rescored);
    ProcessTeamShape(b, n, deltas);
    assert sorted[i] in multiset(rescored);
    j :| 0 <= j < |rescored| && rescored[j] == sorted[i];
  }

  /** After processing, every team called `n` has a total equal to the sum of
      its non-negative question scores, keeps its question count, and is no
      longer highlighted. */
  lemma ProcessedTeam(b: Board, n: string, deltas: seq<seq<int>>, i: int)
    requires ValidDeltas(b.scores, deltas)
    requires 0 <= i < |b.scores|
    requires ProcessTeam(b, n, deltas).scores[i].name == n
    ensures var t := ProcessTeam(b, n, deltas).scores[i];
      SumConsistent(t) && ScoresNonNegative(t.questions) && !t.isHighlighting
  {
    var j := ProcessTeamOrigin(b, n, deltas, i);
  }

  // ---------------------------------------------------------------------
  // The page's actions and the invariant they keep.

  /** Every team has the scoreboard's eight questions. */
  predicate WellFormed(ts: seq<Team>)
  {
    forall i :: 0 <= i < |ts| ==> |ts[i].questions| == NumQuestions
  }

  /** A cursor exists exactly while unfreezing, and an open alert names the
      team at a valid cursor. */
  predicate Inv(b: Board)
  {
    WellFormed(b.scores) &&
    (b.cursor.Some? <==> b.unfreezing) &&
    (b.alert.Some? ==> CursorValid(b) && b.alert.value.team == TeamsToCheck(b)[b.cursor.value].name)
  }

  datatype Action =
    | FreezeClick
    | UnfreezeClick
    | Interval(deltas: seq<seq<int>>)
    | SettleTimer
    | NextClick(deltas: seq<seq<int>>)
    | AlertOk(deltas: seq<seq<int>>)

  /** The page renders its Next button only while unfreezing with a cursor
      inside `teamsToCheck`. */
  predicate NextShown(b: Board)
  {
    b.unfreezing && CursorValid(b)
  }

  /** An action can happen: its deltas fit the teams; the alert covers the
      whole page, so while it is open its OK button is the only one that can be
      clicked (the timers still fire); Next needs its button. */
  predicate Enabled(b: Board, a: Action)
  {
    match a
    case FreezeClick => b.alert.None?
    case UnfreezeClick => b.alert.None?
    case Interval(ds) => ValidDeltas(b.scores, ds)
    case SettleTimer => true
    case NextClick(ds) => b.alert.None? && NextShown(b) && ValidDeltas(b.scores, ds)
    case AlertOk(ds) => ValidDeltas(b.scores, ds) && b.alert.Some? && CursorValid(b)
  }

  /** As evidently intended: the Next button stays up for the whole reveal, so
      the press after the last team reaches the end-of-reveal branch of
      `handleNextCheck`. Every action the page allows is allowed here too. */
  predicate EnabledIntended(b: Board, a: Action)
  {
    Enabled(b, a) ||
    (a.NextClick? && b.alert.None? && b.unfreezing && ValidDeltas(b.scores, a.deltas))
  }

  function Apply(b: Board, a: Action): Board
    requires EnabledIntended(b, a)
  {
    match a
    case FreezeClick => Freeze(b)
    case UnfreezeClick => Unfreeze(b)
    case Interval(ds) => Tick(b, ds)
    case SettleTimer => Settle(b)
    case NextClick(ds) => NextCheck(b, ds)
    case AlertOk(ds) => ConfirmAlert(b, ds)
  }

  lemma ProcessTeamKeepsWellFormed(b: Board, n: string, deltas: seq<seq<int>>)
    requires ValidDeltas(b.scores, deltas) && WellFormed(b.scores)
    ensures WellFormed(ProcessTeam(b, n, deltas).scores)
  {
    ProcessTeamShape(b, n, deltas);
    forall i | 0 <= i < |b.scores|
      ensures |ProcessTeam(b, n, deltas).scores[i].questions| == NumQuestions
    {
      var j := ProcessTeamOrigin(b, n, deltas, i);
    }
  }

  lemma TickKeepsWellFormed(b: Board, deltas: seq<seq<int>>)
    requires ValidDeltas(b.scores, deltas) && WellFormed(b.scores)
    ensures WellFormed(Tick(b, deltas).scores)
  {
    if !b.frozen && !b.unfreezing {
      UpdateScoresSorted(b.scores, deltas);
      forall i | 0 <= i < |b.scores|
        ensures |UpdateScores(b.scores, deltas)[i].questions| == NumQuestions
      {
        UpdateScoresKeepsQuestionCount(b.scores, deltas, NumQuestions, i);
      }
    }
  }

  /** The settle timer keeps the team at every position of `teamsToCheck`. */
  lemma SettleKeepsCheckNames(b: Board, c: int)
    requires 0 <= c < |b.scores|
    ensures TeamsToCheck(Settle(b))[c].name == TeamsToCheck(b)[c].name
  {
    ReverseIndex(b.scores, c);
    ReverseIndex(Settle(b).scores, c);
  }

  /** Every action the page allows, and every action of the intended page,
      keeps the invariant. */
  lemma ApplyKeepsInv(b: Board, a: Action)
    requires Inv(b) && EnabledIntended(b, a)
    ensures Inv(Apply(b, a))
  {
    match a
    case FreezeClick =>
    case UnfreezeClick =>
    case Interval(ds) =>
      TickKeepsWellFormed(b, ds);
    case SettleTimer =>
      if b.alert.Some? {
        SettleKeepsCheckNames(b, b.cursor.value);
      }
    case NextClick(ds) =>
      if CursorValid(b) {
        var team := TeamsToCheck(b)[b.cursor.value];
        if |FirstSolves(team.questions)| == 0 {
          ProcessTeamShape(b, team.name, ds);
          ProcessTeamKeepsWellFormed(b, team.name, ds);
        }
      }
    case AlertOk(ds) =>
      var c := b.(alert := None);
      ProcessTeamShape(c, TeamsToCheck(b)[b.cursor.value].name, ds);
      ProcessTeamKeepsWellFormed(c, TeamsToCheck(b)[b.cursor.value].name, ds);
  }

  /** The alert's OK button processes exactly the team the alert names, closes
      the alert and advances the cursor once. */
  lemma ConfirmAlertProcesses(b: Board, ds: seq<seq<int>>)
    requires Inv(b) && b.alert.Some? && ValidDeltas(b.scores, ds)
    ensures ConfirmAlert(b, ds) == ProcessTeam(b.(alert := None), b.alert.value.team, ds)
    ensures ConfirmAlert(b, ds).alert.None? && ConfirmAlert(b, ds).cursor == Some(b.cursor.value + 1)
  {
  }

  /** As written, a reveal never ends: from any unfreezing board, every action
      the page allows leaves it unfreezing, so the periodic update never
      resumes. Once the last team is checked the Next button is gone. */
  lemma RevealNeverEnds(b: Board, a: Action)
    requires Inv(b) && b.unfreezing && Enabled(b, a)
    ensures Apply(b, a).unfreezing
    ensures a.Interval? ==> Apply(b, a) == b
    ensures b.cursor == Some(|b.scores|) ==> !a.NextClick?
  {
  }

  /** With the Next button kept up, the press after the last team ends the
      reveal with the scores kept, and the periodic update resumes unless the
      board was frozen again. */
  lemma RevealEndsAfterLastTeam(b: Board, ds: seq<seq<int>>)
    requires Inv(b) && b.unfreezing && b.alert.None? && b.cursor == Some(|b.scores|)
    requires ValidDeltas(b.scores, ds)
    ensures EnabledIntended(b, NextClick(ds)) && !Enabled(b, NextClick(ds))
    ensures var r := Apply(b, NextClick(ds));
      Inv(r) && !r.unfreezing && r.cursor == None && r.scores == b.scores && r.frozen == b.frozen
    ensures !b.frozen ==>
      Apply(Apply(b, NextClick(ds)), Interval(ds)).scores == UpdateScores(b.scores, ds)
  {
  }
}
