/**
  The order in which a reveal checks teams.

  As written, `teamsToCheck` is recomputed from the live list on every render,
  so after a checked team is re-sorted the cursor indexes a different list:
  a team that climbs past another is checked again and the team it passed is
  skipped. `LiveQueueRevisits` shows this. The intended behaviour is a queue
  of names fixed when the reveal starts (the list reversed at unfreeze); it
  is modelled here as `Reveal`, and `RevealChecksEachTeamOnce` proves that it
  checks every team exactly once, bottom team first.
 */
module RevealQueue {
  import opened Scores
  import opened Ranking
  import opened Scoreboard

  // ---------------------------------------------------------------------
  // The code as written: a team can be checked twice.

  /** Sorting three teams where the third overtakes the second but not the first. */
  lemma SortThree(a: Team, b: Team, c: Team)
    requires b.sum < c.sum <= a.sum
    ensures SortBySum([a, b, c]) == [a, c, b]
  {
    assert [a, b, c][1..] == [b, c];
    assert [b, c][1..] == [c];
    assert SortBySum([c]) == [c];
    assert SortBySum([b, c]) == [c, b];
  }

  /** Processing the bottom team of three, when it climbs past the middle team
      but not the top one, puts it in the middle. */
  lemma ProcessBottomOfThree(b: Board, ds: seq<seq<int>>)
    requires |b.scores| == 3
    requires ValidDeltas(b.scores, ds)
    requires b.scores[0].name != b.scores[2].name && b.scores[1].name != b.scores[2].name
    requires b.scores[1].sum < Rescore(b.scores[2], ds[2]).sum <= b.scores[0].sum
    ensures ProcessTeam(b, b.scores[2].name, ds).scores[1].name == b.scores[2].name
  {
    var a, m, c := b.scores[0], b.scores[1], b.scores[2];
    var n := c.name;
    var lit := Highlight(b.scores, n, true);
    assert lit == [a, m, c.(isHighlighting := true)];
    assert ValidDeltas(lit, ds);
    var c2 := Rescore(lit[2], ds[2]);
    assert c2.sum == Rescore(c, ds[2]).sum;
    assert RescoreNamed(lit, n, ds) == [a, m, c2];
    SortThree(a, m, c2);
  }

  /** On a three-team board whose bottom team climbs past the middle one, the
      first "Next" checks the bottom team and the second "Next" checks that
      same team again, where the list reversed at unfreeze has the middle team
      second. */
  lemma LiveQueueRevisits(b: Board, ds: seq<seq<int>>)
    requires |b.scores| == 3 && b.cursor == Some(0)
    requires ValidDeltas(b.scores, ds)
    requires b.scores[0].name != b.scores[2].name && b.scores[1].name != b.scores[2].name
    requires !HasFirstSolve(b.scores[2].questions)
    requires b.scores[1].sum < Rescore(b.scores[2], ds[2]).sum <= b.scores[0].sum
    ensures TeamsToCheck(b)[0].name == b.scores[2].name
    ensures TeamsToCheck(b)[1].name == b.scores[1].name
    ensures NextCheck(b, ds).cursor == Some(1)
    ensures TeamsToCheck(NextCheck(b, ds))[1].name == b.scores[2].name
  {
    ReverseIndex(b.scores, 0);
    ReverseIndex(b.scores, 1);
    FirstSolvesEmpty(b.scores[2].questions);
    NextCheckProcesses(b, ds);
    ProcessTeamShape(b, b.scores[2].name, ds);
    ProcessBottomOfThree(b, ds);
    ReverseIndex(NextCheck(b, ds).scores, 1);
  }

  // ---------------------------------------------------------------------
  // The intended behaviour: a queue fixed at unfreeze.

  /** The board together with the queue of names to check. */
  datatype Reveal = Reveal(board: Board, queue: seq<string>)

  function Names(ts: seq<Team>): (r: seq<string>)
    ensures |r| == |ts|
    ensures forall i :: 0 <= i < |ts| ==> r[i] == ts[i].name
  {
    seq(|ts|, i requires 0 <= i < |ts| => ts[i].name)
  }

  /** Unfreezing also fixes the queue: the names bottom team first. */
  function StartReveal(r: Reveal): Reveal
  {
    if !r.board.frozen then r
    else Reveal(Unfreeze(r.board), Names(Reverse(r.board.scores)))
  }

  predicate QueueValid(r: Reveal)
  {
    r.board.cursor.Some? && r.board.cursor.value < |r.queue|
  }

  /** The first team called `n`, if any. */
  function Find(ts: seq<Team>, n: string): (r: Option<Team>)
    ensures r.Some? ==> r.value in ts && r.value.name == n
    ensures r.None? ==> forall i :: 0 <= i < |ts| ==> ts[i].name != n
    decreases |ts|
  {
    if |ts| == 0 then None
    else if ts[0].name == n then Some(ts[0])
    else Find(ts[1..], n)
  }

  /** The first-solve questions of the team called `n` (none if it is absent). */
  function FirstSolvesOf(ts: seq<Team>, n: string): seq<nat>
  {
    match Find(ts, n)
    case None => []
    case Some(t) => FirstSolves(t.questions)
  }

  /** "Next" against the fixed queue: the same three outcomes as `NextCheck`,
      for the team the queue names at the cursor. */
  function QueuedNext(r: Reveal, ds: seq<seq<int>>): Reveal
    requires ValidDeltas(r.board.scores, ds)
  {
    if !QueueValid(r) then r.(board := r.board.(unfreezing := false, cursor := None))
    else
      var n := r.queue[r.board.cursor.value];
      var labels := FirstSolvesOf(r.board.scores, n);
      if |labels| > 0 then r.(board := r.board.(alert := Some(Alert(n, labels))))
      else r.(board := ProcessTeam(r.board, n, ds))
  }

  function QueuedConfirm(r: Reveal, ds: seq<seq<int>>): Reveal
    requires ValidDeltas(r.board.scores, ds)
    requires r.board.alert.Some? && QueueValid(r)
  {
    r.(board := ProcessTeam(r.board.(alert := None), r.queue[r.board.cursor.value], ds))
  }

  /** Delta vectors for `m` teams of eight questions each. */
  predicate Fits(m: nat, d: seq<seq<int>>)
  {
    |d| == m &&
    forall i :: 0 <= i < m ==> |d[i]| == NumQuestions && forall k :: 0 <= k < NumQuestions ==> IsDelta(d[i][k])
  }

  lemma FitsValid(ts: seq<Team>, d: seq<seq<int>>)
    requires WellFormed(ts) && Fits(|ts|, d)
    ensures ValidDeltas(ts, d)
  {
  }

  /** One operator step: "Next", and "OK" at once if the alert opened. */
  function Step(r: Reveal, d: seq<seq<int>>): Reveal
    requires WellFormed(r.board.scores) && Fits(|r.board.scores|, d)
  {
    FitsValid(r.board.scores, d);
    if QueueValid(r) && |FirstSolvesOf(r.board.scores, r.queue[r.board.cursor.value])| > 0 then
      QueuedConfirm(QueuedNext(r, d), d)
    else QueuedNext(r, d)
  }

  /** A step from a valid cursor processes the team the queue names there. */
  lemma StepProcesses(r: Reveal, d: seq<seq<int>>)
    requires WellFormed(r.board.scores) && Fits(|r.board.scores|, d)
    requires QueueValid(r) && r.board.alert.None?
    ensures ValidDeltas(r.board.scores, d)
    ensures Step(r, d) == Reveal(ProcessTeam(r.board, r.queue[r.board.cursor.value], d), r.queue)
  {
    FitsValid(r.board.scores, d);
    var n := r.queue[r.board.cursor.value];
    if |FirstSolvesOf(r.board.scores, n)| > 0 {
      var r1 := QueuedNext(r, d);
      assert r1.board.(alert := None) == r.board;
    }
  }

  /** From a valid cursor with no alert open, a step keeps the queue and the
      team count, keeps every team at eight questions, leaves no alert open, and
      advances the cursor by one. */
  lemma StepAdvances(r: Reveal, d: seq<seq<int>>)
    requires WellFormed(r.board.scores) && Fits(|r.board.scores|, d)
    requires QueueValid(r) && r.board.alert.None?
    ensures var s := Step(r, d);
      s.queue == r.queue && s.board.cursor == Some(r.board.cursor.value + 1) &&
      |s.board.scores| == |r.board.scores| && WellFormed(s.board.scores) && s.board.alert.None?
  {
    StepProcesses(r, d);
    var n := r.queue[r.board.cursor.value];
    ProcessTeamShape(r.board, n, d);
    ProcessTeamKeepsWellFormed(r.board, n, d);
  }

  /** The names checked by successive steps, one delta set per step. */
  function Checked(r: Reveal, ds: seq<seq<seq<int>>>): seq<string>
    requires WellFormed(r.board.scores) && r.board.alert.None?
    requires AllFit(|r.board.scores|, ds)
    decreases |ds|
  {
    if |ds| == 0 || !QueueValid(r) then []
    else
      StepAdvances(r, ds[0]);
      [r.queue[r.board.cursor.value]] + Checked(Step(r, ds[0]), ds[1..])
  }

  /** All delta sets fit `m` teams. */
  predicate AllFit(m: nat, ds: seq<seq<seq<int>>>)
  {
    forall k :: 0 <= k < |ds| ==> Fits(m, ds[k])
  }

  /** A step from a valid cursor, seen from `Checked`. */
  lemma CheckedUnfold(r: Reveal, ds: seq<seq<seq<int>>>) returns (s: Reveal)
    requires WellFormed(r.board.scores) && r.board.alert.None?
    requires AllFit(|r.board.scores|, ds)
    requires |ds| > 0 && QueueValid(r)
    ensures s.queue == r.queue && s.board.cursor == Some(r.board.cursor.value + 1)
    ensures WellFormed(s.board.scores) && s.board.alert.None?
    ensures AllFit(|s.board.scores|, ds[1..])
    ensures Checked(r, ds) == [r.queue[r.board.cursor.value]] + Checked(s, ds[1..])
  {
    StepAdvances(r, ds[0]);
    s := Step(r, ds[0]);
  }

  lemma SliceCons<T>(q: seq<T>, c: nat)
    requires c < |q|
    ensures q[c..] == [q[c]] + q[c + 1..]
  {
  }

  /** Once the cursor leaves the queue, nothing more is checked. */
  lemma CheckedDone(r: Reveal, ds: seq<seq<seq<int>>>)
    requires WellFormed(r.board.scores) && r.board.alert.None?
    requires AllFit(|r.board.scores|, ds)
    requires !QueueValid(r)
    ensures Checked(r, ds) == []
  {
  }

  /** From cursor `c`, enough steps check exactly the rest of the queue, in
      order. */
  lemma {:induction false} CheckedIsQueue(r: Reveal, ds: seq<seq<seq<int>>>, c: nat)
    requires WellFormed(r.board.scores) && r.board.alert.None?
    requires AllFit(|r.board.scores|, ds)
    requires r.board.cursor == Some(c) && c <= |r.queue|
    requires |ds| >= |r.queue| - c
    ensures Checked(r, ds) == r.queue[c..]
    decreases |r.queue| - c
  {
    if c < |r.queue| {
      var s := CheckedUnfold(r, ds);
      var rest := ds[1..];
      CheckedIsQueue(s, rest, c + 1);
      SliceCons(r.queue, c);
    } else {
      CheckedDone(r, ds);
    }
  }

  /** Starting a reveal on a frozen board and stepping once per team checks
      every team exactly once, bottom team first: the names of the list as it
      stood at unfreeze, reversed. */
  lemma RevealChecksEachTeamOnce(b: Board, ds: seq<seq<seq<int>>>)
    requires b.frozen && WellFormed(b.scores) && b.alert.None?
    requires AllFit(|b.scores|, ds)
    requires |ds| >= |b.scores|
    ensures Checked(StartReveal(Reveal(b, [])), ds) == Names(Reverse(b.scores))
  {
    CheckedIsQueue(StartReveal(Reveal(b, [])), ds, 0);
  }
}
