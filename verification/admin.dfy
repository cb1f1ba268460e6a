/**
  The admin page (src/app/admin/page.tsx): the team store with its add-team
  form and question editor, and the freeze / unfreeze / next controls with
  their `count` cursor. Every change to the teams is sent to the server as an
  `update-score` event; every control click sends its own event.
 */
module Admin {
  import opened Scores
  import opened Protocol

  /** The page's state. `numProblems` is the number field's value; the edit
      fields hold the question being edited in the modal. */
  datatype AdminState = AdminState(
    count: int,
    frozen: bool,
    unfreezing: bool,
    teams: seq<Team>,
    teamName: string,
    numProblems: int,
    selectedTeam: Option<nat>,
    selectedQuestion: Option<nat>,
    editScore: int,
    editStatus: Status,
    editFirstSolve: bool,
    showModal: bool)

  /** What an action leaves behind: the new state, the event sent to the
      server (if any), and whether the browser alert was raised. */
  datatype Outcome = Outcome(state: AdminState, sent: Option<ClientEvent>, alerted: bool)

  function Initial(): AdminState
  {
    AdminState(0, false, false, [], "", 0, None, None, 0, NoStatus, false, false)
  }

  // ---------------------------------------------------------------------
  // The team store.

  /** `k` fresh questions: score 0, status "none", no first solve. */
  function BlankQuestions(k: nat): (qs: seq<Question>)
    ensures |qs| == k
    ensures forall i :: 0 <= i < k ==> qs[i] == Question(0, false, NoStatus)
  {
    seq(k, _ => Question(0, false, NoStatus))
  }

  lemma {:induction false} BlankTotal(k: nat)
    ensures Total(BlankQuestions(k)) == 0
    decreases k
  {
    if k > 0 {
      assert BlankQuestions(k)[..k - 1] == BlankQuestions(k - 1);
      BlankTotal(k - 1);
    }
  }

  /** `addTeam`: an empty name or a non-positive question count raises the
      alert and changes nothing; otherwise a zeroed team is appended, the name
      field is cleared, and the new list is sent. */
  function AddTeam(s: AdminState): Outcome
  {
    if s.teamName == [] || s.numProblems <= 0 then Outcome(s, None, true)
    else
      var t := Team(s.teamName, BlankQuestions(s.numProblems), 0, 0, false, false);
      var teams := s.teams + [t];
      Outcome(s.(teams := teams, teamName := ""), Some(UpdateScore(teams)), false)
  }

  /** A rejected `addTeam` leaves the state alone and sends nothing. */
  lemma AddTeamRejects(s: AdminState)
    ensures AddTeam(s).sent.None? <==> s.teamName == [] || s.numProblems <= 0
    ensures AddTeam(s).sent.None? ==> AddTeam(s).state == s && AddTeam(s).alerted
  {
  }

  /** An accepted `addTeam` appends exactly one team, with the typed name,
      `numProblems` blank questions and a total of 0 that agrees with them,
      keeps every existing team, and sends the new list. */
  lemma AddTeamAppends(s: AdminState)
    requires s.teamName != [] && s.numProblems > 0
    ensures var r := AddTeam(s).state;
      |r.teams| == |s.teams| + 1 && r.teams[..|s.teams|] == s.teams &&
      AddTeam(s).sent == Some(UpdateScore(r.teams)) && !AddTeam(s).alerted
    ensures var t := AddTeam(s).state.teams[|s.teams|];
      t.name == s.teamName && |t.questions| == s.numProblems && t.sum == 0 &&
      SumConsistent(t) &&
      forall i :: 0 <= i < |t.questions| ==> t.questions[i] == Question(0, false, NoStatus)
  {
    BlankTotal(s.numProblems);
    var teams := AddTeam(s).state.teams;
    assert teams[..|s.teams|] == s.teams;
  }

  /** Clicking question `qi` of team `ti` opens the editor on that question. */
  function OpenEditModal(s: AdminState, ti: nat, qi: nat): (r: AdminState)
    requires ti < |s.teams| && qi < |s.teams[ti].questions|
  {
    var q := s.teams[ti].questions[qi];
    s.(selectedTeam := Some(ti), selectedQuestion := Some(qi), editScore := q.score,
       editStatus := q.status, editFirstSolve := q.isFirstSolve, showModal := true)
  }

  /** Any selection in the editor points at an existing question. */
  predicate SelectionValid(s: AdminState)
  {
    (s.selectedTeam.Some? ==> s.selectedTeam.value < |s.teams|) &&
    (s.selectedTeam.Some? && s.selectedQuestion.Some? ==>
      s.selectedQuestion.value < |s.teams[s.selectedTeam.value].questions|)
  }

  /** `handleUpdateQuestion`: with both selections made, replace the selected
      question by the edit fields, recompute that team's total, close the
      editor and send the list; otherwise do nothing. */
  function UpdateQuestion(s: AdminState): Outcome
    requires SelectionValid(s)
  {
    if s.selectedTeam.None? || s.selectedQuestion.None? then Outcome(s, None, false)
    else
      var ti, qi := s.selectedTeam.value, s.selectedQuestion.value;
      var t := s.teams[ti];
      var qs := t.questions[qi := Question(s.editScore, s.editFirstSolve, s.editStatus)];
      var teams := s.teams[ti := t.(questions := qs, sum := Total(qs))];
      Outcome(s.(teams := teams, showModal := false), Some(UpdateScore(teams)), false)
  }

  /** Without both selections the update does nothing. */
  lemma UpdateQuestionNeedsSelection(s: AdminState)
    requires SelectionValid(s)
    requires s.selectedTeam.None? || s.selectedQuestion.None?
    ensures UpdateQuestion(s) == Outcome(s, None, false)
  {
  }

  /** With both selections, only the selected question changes: it takes the
      edit fields, every other question and every other team is kept, and the
      team's total moves by exactly the score difference, so a total that
      agreed with the scores still does. */
  lemma UpdateQuestionEdits(s: AdminState)
    requires SelectionValid(s)
    requires s.selectedTeam.Some? && s.selectedQuestion.Some?
    ensures var ti, qi := s.selectedTeam.value, s.selectedQuestion.value;
      var r := UpdateQuestion(s).state;
      var t, u := s.teams[ti], r.teams[ti];
      |r.teams| == |s.teams| &&
      (forall j :: 0 <= j < |s.teams| && j != ti ==> r.teams[j] == s.teams[j]) &&
      u.name == t.name && |u.questions| == |t.questions| &&
      u.questions[qi] == Question(s.editScore, s.editFirstSolve, s.editStatus) &&
      (forall k :: 0 <= k < |t.questions| && k != qi ==> u.questions[k] == t.questions[k]) &&
      SumConsistent(u) &&
      (SumConsistent(t) ==> u.sum == t.sum - t.questions[qi].score + s.editScore) &&
      !r.showModal && UpdateQuestion(s).sent == Some(UpdateScore(r.teams))
  {
    var ti, qi := s.selectedTeam.value, s.selectedQuestion.value;
    TotalUpdate(s.teams[ti].questions, qi, Question(s.editScore, s.editFirstSolve, s.editStatus));
  }

  /** Opening the editor on a question and saving without an edit keeps every
      question of every team; only the edited team's total is recomputed, so a
      board whose totals agree with its scores comes back unchanged. */
  lemma OpenThenSaveKeepsQuestions(s: AdminState, ti: nat, qi: nat)
    requires ti < |s.teams| && qi < |s.teams[ti].questions|
    ensures SelectionValid(OpenEditModal(s, ti, qi))
    ensures var r := UpdateQuestion(OpenEditModal(s, ti, qi)).state;
      |r.teams| == |s.teams| &&
      forall j :: 0 <= j < |s.teams| ==>
        r.teams[j].name == s.teams[j].name && r.teams[j].questions == s.teams[j].questions
    ensures SumConsistent(s.teams[ti]) ==> UpdateQuestion(OpenEditModal(s, ti, qi)).state.teams == s.teams
  {
    var q := s.teams[ti].questions[qi];
    assert s.teams[ti].questions[qi := Question(q.score, q.isFirstSolve, q.status)] == s.teams[ti].questions;
  }

  // ---------------------------------------------------------------------
  // Score entry.

  predicate IsDigit(c: char)
  {
    '0' <= c <= '9'
  }

  /** The input filter `/^\d*$/`: only digits, possibly none. */
  predicate IsDigits(s: string)
  {
    forall i :: 0 <= i < |s| ==> IsDigit(s[i])
  }

  /** `Number(val)` on a digit string: its decimal value, 0 for "". */
  function ParseDigits(s: string): nat
    requires IsDigits(s)
    decreases |s|
  {
    if |s| == 0 then 0
    else ParseDigits(s[..|s| - 1]) * 10 + (s[|s| - 1] - '0') as nat
  }

  /** The decimal digits of `n`, as the field displays it. */
  function NatToDigits(n: nat): (s: string)
    ensures |s| > 0 && IsDigits(s)
    decreases n
  {
    if n < 10 then ['0' + n as char] else NatToDigits(n / 10) + ['0' + (n % 10) as char]
  }

  /** Reading back the digits of `n` gives `n`. */
  lemma {:induction false} ParseNatToDigits(n: nat)
    ensures ParseDigits(NatToDigits(n)) == n
    decreases n
  {
    if n >= 10 {
      var s := NatToDigits(n);
      assert s[..|s| - 1] == NatToDigits(n / 10);
      ParseNatToDigits(n / 10);
    }
  }

  /** The status a typed score sets: 100 is correct, 0 incorrect, anything
      else pending. */
  function TypedStatus(score: int): (st: Status)
    ensures st == Correct <==> score == 100
    ensures st == Incorrect <==> score == 0
    ensures st == Pending <==> score != 100 && score != 0
  {
    if score == 100 then Correct else if score == 0 then Incorrect else Pending
  }

  /** Typing into the score field: a digit string sets the score and the
      status it implies; anything else is ignored. */
  function TypeScore(s: AdminState, input: string): (r: AdminState)
  {
    if IsDigits(input) then
      var n := ParseDigits(input);
      s.(editScore := n, editStatus := TypedStatus(n))
    else s
  }

  /** Typed input is accepted exactly when it is a digit string; then the
      score is its value (the empty string gives 0, so "incorrect") and the
      status follows the policy, and nothing else changes. */
  lemma TypeScoreFilter(s: AdminState, input: string)
    ensures !IsDigits(input) ==> TypeScore(s, input) == s
    ensures IsDigits(input) ==> var r := TypeScore(s, input);
      r.editScore >= 0 && r.editStatus == TypedStatus(r.editScore) &&
      r == s.(editScore := r.editScore, editStatus := r.editStatus)
    ensures TypeScore(s, []).editScore == 0 && TypeScore(s, []).editStatus == Incorrect
  {
  }

  /** Typing a number's own digits sets exactly that number. */
  lemma TypeScoreRoundTrip(s: AdminState, n: nat)
    ensures TypeScore(s, NatToDigits(n)).editScore == n
  {
    ParseNatToDigits(n);
  }

  /** The "−" stepper: one less, but never below 0. */
  function StepDown(x: int): (r: int)
    ensures r >= 0
    ensures x >= 1 ==> r == x - 1
    ensures x < 1 ==> r == 0
  {
    if x - 1 > 0 then x - 1 else 0
  }

  /** The "+" stepper. */
  function StepUp(x: int): int
  {
    x + 1
  }

  /** "+" then "−" restores a non-negative score; "−" then "+" restores a
      positive one. */
  lemma SteppersInverse(x: int)
    ensures x >= 0 ==> StepDown(StepUp(x)) == x
    ensures x >= 1 ==> StepUp(StepDown(x)) == x
  {
  }

  // ---------------------------------------------------------------------
  // The freeze / unfreeze / next controls.

  function HandleFreeze(s: AdminState): AdminState
  {
    s.(frozen := true, unfreezing := false)
  }

  function HandleUnfreeze(s: AdminState): AdminState
  {
    if !s.frozen then s else s.(frozen := false, unfreezing := true)
  }

  /** `handleNext`: count up while below the team count, then wrap to 0 and
      end the reveal. */
  function HandleNext(s: AdminState): AdminState
  {
    if s.count < |s.teams| then s.(count := s.count + 1)
    else s.(count := 0, unfreezing := false)
  }

  /** Freeze always leaves the page frozen and not unfreezing; unfreeze acts
      only on a frozen page; both are idempotent and leave the teams and the
      counter alone. */
  lemma FreezeUnfreezeGuards(s: AdminState)
    ensures HandleFreeze(s).frozen && !HandleFreeze(s).unfreezing
    ensures !s.frozen ==> HandleUnfreeze(s) == s
    ensures s.frozen ==> !HandleUnfreeze(s).frozen && HandleUnfreeze(s).unfreezing
    ensures HandleFreeze(HandleFreeze(s)) == HandleFreeze(s)
    ensures HandleUnfreeze(HandleUnfreeze(s)) == HandleUnfreeze(s)
    ensures HandleFreeze(s).teams == s.teams && HandleFreeze(s).count == s.count
    ensures HandleUnfreeze(s).teams == s.teams && HandleUnfreeze(s).count == s.count
  {
  }

  datatype Control = FreezeButton | UnfreezeButton | NextButton

  /** Which control buttons the page shows. */
  predicate Shown(s: AdminState, c: Control)
  {
    match c
    case FreezeButton => !s.frozen && !s.unfreezing
    case UnfreezeButton => s.frozen
    case NextButton => s.unfreezing
  }

  /** A control click: emit the event, then apply the local handler. */
  function Click(s: AdminState, c: Control): Outcome
  {
    match c
    case FreezeButton => Outcome(HandleFreeze(s), Some(AdminFreeze), false)
    case UnfreezeButton => Outcome(HandleUnfreeze(s), Some(AdminUnfreeze), false)
    case NextButton => Outcome(HandleNext(s), Some(AdminNext), false)
  }

  /** The counter stays within the teams and the page is never frozen and
      unfreezing at once. */
  predicate ControlInv(s: AdminState)
  {
    0 <= s.count <= |s.teams| && !(s.frozen && s.unfreezing)
  }

  /** Every control click and every team edit keeps the invariant. */
  lemma ControlInvKept(s: AdminState, c: Control)
    requires ControlInv(s)
    ensures ControlInv(Click(s, c).state)
    ensures ControlInv(AddTeam(s).state)
    ensures SelectionValid(s) ==> ControlInv(UpdateQuestion(s).state)
  {
  }

  /** Under the invariant exactly one control is shown, and clicking it shows
      the next control of the cycle freeze, unfreeze, next ... next, freeze. */
  lemma ShownControlCycle(s: AdminState, c: Control)
    requires ControlInv(s)
    ensures Shown(s, FreezeButton) || Shown(s, UnfreezeButton) || Shown(s, NextButton)
    ensures !(Shown(s, FreezeButton) && Shown(s, UnfreezeButton))
    ensures !(Shown(s, FreezeButton) && Shown(s, NextButton))
    ensures !(Shown(s, UnfreezeButton) && Shown(s, NextButton))
    ensures Shown(s, c) ==>
      var r := Click(s, c).state;
      match c
      case FreezeButton => Shown(r, UnfreezeButton)
      case UnfreezeButton => Shown(r, NextButton)
      case NextButton => if s.count < |s.teams| then Shown(r, NextButton) else Shown(r, FreezeButton)
  {
  }

  /** From a valid count, `count + 1` presses of "Next" go through every team
      index and return the counter to 0, ending the reveal. */
  lemma {:induction false} NextCycles(s: AdminState, k: nat)
    requires ControlInv(s)
    requires s.count + k <= |s.teams|
    ensures PressNext(s, k).count == s.count + k
    ensures PressNext(s, k).teams == s.teams
    ensures PressNext(s, |s.teams| - s.count + 1).count == 0
    ensures !PressNext(s, |s.teams| - s.count + 1).unfreezing
    decreases |s.teams| - s.count
  {
    if k > 0 {
      NextCycles(HandleNext(s), k - 1);
    }
    if s.count < |s.teams| {
      NextCycles(HandleNext(s), 0);
    }
  }

  function PressNext(s: AdminState, k: nat): AdminState
    decreases k
  {
    if k == 0 then s else PressNext(HandleNext(s), k - 1)
  }
}
