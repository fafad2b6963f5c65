/** What the one-time-code protocol guarantees after every history: any number of requests,
    interleaved call by call, on any clock, with any store call failing. */
module OtpTheorems {
  import opened Prelude
  import opened OtpProtocol

  // --- daily budgets ---

  /** A guess that got past the budgets and was not accepted. */
  predicate Failed(g: Guess) {
    g.stage.Ended? && !(g.stage.outcome.Accepted? || g.stage.outcome.BudgetSpent? || g.stage.outcome.Unavailable?)
  }

  ghost function FailedBy(purpose: Purpose, target: string, caller: string): Guess -> bool {
    (g: Guess) => Failed(g) && CallerOf(g) == CallerKey(purpose, target, caller)
  }

  ghost function FailedAt(purpose: Purpose, target: string): Guess -> bool {
    (g: Guess) => Failed(g) && TargetOf(g) == TargetKey(purpose, target)
  }

  /** However many codes are issued in a day, one caller fails at one target at most ten times,
      and all callers together at most fifty. */
  lemma FailedGuessesAreCapped(h: seq<Action>, purpose: Purpose, target: string, caller: string)
    ensures Count(After(Init, h).guesses, FailedBy(purpose, target, caller)) <= 10
    ensures Count(After(Init, h).guesses, FailedAt(purpose, target)) <= 50
  {
    AfterInv(h);
    var s := After(Init, h);
    var mine, all := CallerKey(purpose, target, caller), TargetKey(purpose, target);
    assert GuessBudgetExact(s, mine) && GuessBudgetExact(s, all);
    CountWithin(s.guesses, FailedBy(purpose, target, caller), Holding(mine));
    CountWithin(s.guesses, FailedAt(purpose, target), Holding(all));
  }

  /** A correct guess whose allowance could not be handed back. */
  predicate RefundLost(g: Guess, k: Key) {
    Holds(g, k) && (g.stage == Ended(Accepted) || (g.stage.RefundTarget? && k == CallerOf(g)))
  }

  ghost function Unrefunded(k: Key): Guess -> bool { g => RefundLost(g, k) }

  ghost function Unsuccessful(k: Key): Guess -> bool {
    (g: Guess) => Holds(g, k) && g.stage.Ended? && g.stage != Ended(Accepted)
  }

  ghost function InFlight(k: Key): Guess -> bool {
    (g: Guess) => Holds(g, k) && !g.stage.Ended? && !RefundLost(g, k)
  }

  ghost function NotInFlight(k: Key): Guess -> bool {
    (g: Guess) => Holds(g, k) && (g.stage.Ended? || RefundLost(g, k))
  }

  /** Conservation: a counter is exactly the guesses still holding it, plus those that ended
      unsuccessfully, plus the correct ones whose refund write failed. */
  lemma BudgetConservation(h: seq<Action>, k: Key)
    ensures var s := After(Init, h);
            Used(s.guessed, k)
            == Count(s.guesses, InFlight(k)) + Count(s.guesses, Unsuccessful(k)) + Count(s.guesses, Unrefunded(k))
  {
    AfterInv(h);
    var s := After(Init, h);
    assert GuessBudgetExact(s, k);
    CountSplit(s.guesses, Holding(k), InFlight(k), NotInFlight(k));
    CountSplit(s.guesses, NotInFlight(k), Unsuccessful(k), Unrefunded(k));
  }

  ghost function IssuedFor(k: Key): Send -> bool {
    (d: Send) => d.issued.Some? && (k == PayerOf(d) || k == PayeeOf(d))
  }

  /** Codes issued for a target in a day: at most five per caller, twenty in all. */
  lemma SendsAreCapped(h: seq<Action>, k: Key)
    ensures Count(After(Init, h).sends, IssuedFor(k)) <= if k.CallerKey? then 5 else 20
  {
    AfterInv(h);
    var s := After(Init, h);
    assert SendBudgetExact(s, k);
    CountWithin(s.sends, IssuedFor(k), Charging(k));
  }

  // --- one issued code ---

  ghost function ComparingIssue(n: nat): Guess -> bool {
    (g: Guess) => g.compared && g.claimed == Some(n)
  }

  /** At most five comparisons are ever made against one issued code. */
  lemma ComparisonsAreCapped(h: seq<Action>, n: nat)
    ensures Count(After(Init, h).guesses, ComparingIssue(n)) <= 5
  {
    AfterInv(h);
    var s := After(Init, h);
    assert IssueBounded(s, n);
    CountWithin(s.guesses, ComparingIssue(n), Claiming(n));
  }

  predicate Won(g: Guess) {
    g.stage.RefundCaller? || g.stage.RefundTarget? || g.stage == Ended(Accepted)
  }

  /** Every accepted guess spent an issued code, presented exactly that code, and compared one
      equal to it; two accepted guesses never spent the same issue. */
  lemma EachIssueIsSpentOnce(h: seq<Action>, i: nat, j: nat)
    requires i < |After(Init, h).guesses| && j < |After(Init, h).guesses|
    requires Won(After(Init, h).guesses[i]) && Won(After(Init, h).guesses[j])
    ensures var s := After(Init, h); var g := s.guesses[i];
            && g.spent.Some? && g.spent.value < |s.codes| && s.codes[g.spent.value] == g.code
            && g.claimed.Some? && g.claimed.value < |s.codes| && s.codes[g.claimed.value] == g.code
    ensures After(Init, h).guesses[i].spent == After(Init, h).guesses[j].spent ==> i == j
  {
    AfterInv(h);
    var s := After(Init, h);
    assert GuessCoherent(s.guesses[i]) && CodesMet(s.codes, s.guesses[i]);
    if s.guesses[i].spent == s.guesses[j].spent {
      var n := s.guesses[i].spent.value;
      assert IssueBounded(s, n);
      CountedOnce(s.guesses, Spending(n), i, j);
    }
  }

  ghost function SpentBelow(m: nat): Guess -> bool {
    (g: Guess) => g.spent.Some? && g.spent.value < m
  }

  lemma {:induction false} SpentBelowBound(s: State, m: nat)
    requires Inv(s)
    ensures Count(s.guesses, SpentBelow(m)) <= m
  {
    if m == 0 {
      CountNone(s.guesses, SpentBelow(0));
    } else {
      SpentBelowBound(s, m - 1);
      assert IssueBounded(s, m - 1);
      CountSplit(s.guesses, SpentBelow(m), SpentBelow(m - 1), Spending(m - 1));
    }
  }

  ghost function Winning(): Guess -> bool { g => Won(g) }

  /** There are never more accepted guesses than codes issued. */
  lemma SuccessesNeverExceedIssues(h: seq<Action>)
    ensures Count(After(Init, h).guesses, Winning()) <= |After(Init, h).codes|
  {
    AfterInv(h);
    var s := After(Init, h);
    SpentBelowBound(s, |s.codes|);
    forall g | g in s.guesses && Won(g) ensures SpentBelow(|s.codes|)(g) {
      assert GuessCoherent(g) && CodesMet(s.codes, g);
    }
    CountWithin(s.guesses, Winning(), SpentBelow(|s.codes|));
  }

  // --- histories in which everything works ---

  lemma Extend(h: seq<Action>, a: Action) returns (h': seq<Action>, s': State)
    ensures h' == h + [a] && s' == After(Init, h') == Next(After(Init, h), a)
  {
    h' := h + [a];
    assert h'[..|h|] == h;
    s' := After(Init, h');
  }

  /** Within both allowances and past the cooldown, a send that meets no failure issues its code. */
  lemma SendIssuesItsCode(h: seq<Action>, caller: string, slot: Slot, target: string, now: int, code: nat)
    returns (h': seq<Action>)
    requires Proper(slot, target)
    requires Used(After(Init, h).sent, CallerKey(slot.purpose, target, caller)) < CALLER_SENDS
    requires Used(After(Init, h).sent, TargetKey(slot.purpose, target)) < TARGET_SENDS
    requires slot in After(Init, h).rows ==> now - After(Init, h).rows[slot].created >= RESEND_COOLDOWN
    ensures h < h'
    ensures var s, s' := After(Init, h), After(Init, h');
            && s'.rows == s.rows[slot := Row(|s.codes|, target, code, 0, now, now + CODE_LIFETIME)]
            && s'.codes == s.codes + [code]
            && s'.guesses == s.guesses && s'.guessed == s.guessed
            && (forall k :: Used(s'.sent, k) <= Used(s.sent, k) + 1)
  {
    var s := After(Init, h);
    var i := |s.sends|;
    var s1, s2, s3, s4, s5;
    h', s1 := Extend(h, BeginSend(caller, slot, target));
    h', s2 := Extend(h', SendStep(i, Fine, now, code));
    h', s3 := Extend(h', SendStep(i, Fine, now, code));
    h', s4 := Extend(h', SendStep(i, Fine, now, code));
    h', s5 := Extend(h', SendStep(i, Fine, now, code));
    assert s4.rows == s.rows && s4.codes == s.codes && s4.sends[i].stage == Upsert;
  }

  /** A correct guess for a pending code, within both allowances, gets as far as spending it. */
  lemma GuessReachesConsume(h: seq<Action>, caller: string, slot: Slot, target: string, now: int)
    returns (h': seq<Action>)
    requires Proper(slot, target) && Claimable(After(Init, h).rows, slot, now) && After(Init, h).rows[slot].target == target
    requires Used(After(Init, h).guessed, CallerKey(slot.purpose, target, caller)) < CALLER_GUESSES
    requires Used(After(Init, h).guessed, TargetKey(slot.purpose, target)) < TARGET_GUESSES
    ensures h < h'
    ensures var s, s' := After(Init, h), After(Init, h');
            var row := s.rows[slot].(attempts := s.rows[slot].attempts + 1);
            && s'.rows == s.rows[slot := row]
            && s'.codes == s.codes && s'.sent == s.sent
            && s'.guesses == s.guesses + [Guess(caller, slot, target, row.code, Consume(row), true, true, Some(row.issue), true, None)]
  {
    var s := After(Init, h);
    var i := |s.guesses|;
    var code := s.rows[slot].code;
    var s1, s2, s3, s4, s5;
    h', s1 := Extend(h, BeginGuess(caller, slot, target, code));
    h', s2 := Extend(h', GuessStep(i, Fine, now));
    h', s3 := Extend(h', GuessStep(i, Fine, now));
    assert s3.guesses == s.guesses + [NewGuess(caller, slot, target, code).(holdsCaller := true, holdsTarget := true, stage := Claim)];
    h', s4 := Extend(h', GuessStep(i, Fine, now));
    h', s5 := Extend(h', GuessStep(i, Fine, now));
  }

  /** Without distinct codes the attribution can slip: a guess compared issue 0, the same code was
      issued again, and the guess then spent issue 1. */
  lemma AReissuedCodeIsSpentByAStaleGuess() returns (h: seq<Action>)
    ensures |After(Init, h).guesses| == 1
    ensures var g := After(Init, h).guesses[0]; g.stage == RefundCaller && g.claimed == Some(0) && g.spent == Some(1)
  {
    var slot := TargetSlot(EmailLogin, "a");
    var sent := SendIssuesItsCode([], "me", slot, "a", 0, 7);
    var guessed := GuessReachesConsume(sent, "me", slot, "a", 1);
    var resent := SendIssuesItsCode(guessed, "me", slot, "a", 60, 7);
    var s;
    h, s := Extend(resent, GuessStep(0, Fine, 61));
  }

  // --- two correct submissions at once ---

  /** A guess with the right code for `row` that has not been turned away yet. */
  predicate Contends(g: Guess, slot: Slot, row: Row) {
    && g.slot == slot && g.target == row.target && g.code == row.code
    && match g.stage
       case Claim => true
       case Compare(r) => r.code == row.code && r.target == row.target
       case Consume(r) => r.code == row.code
       case _ => false
  }

  /** Nobody has spent the row, and both guesses still have an attempt or a claim to one. */
  predicate Open(s: State, i: nat, j: nat, slot: Slot, row: Row)
    requires i < |s.guesses| && j < |s.guesses|
  {
    && slot in s.rows && s.rows[slot] == row.(attempts := s.rows[slot].attempts)
    && s.rows[slot].attempts + One(s.guesses[i].stage.Claim?) + One(s.guesses[j].stage.Claim?) <= MAX_ATTEMPTS
    && Contends(s.guesses[i], slot, row) && Contends(s.guesses[j], slot, row)
  }

  /** `w` has spent the row; `l` can only be told that there is no code, or a wrong one. */
  predicate WonBy(s: State, w: nat, l: nat, slot: Slot, row: Row)
    requires w < |s.guesses| && l < |s.guesses|
  {
    && slot !in s.rows
    && Won(s.guesses[w])
    && var g := s.guesses[l];
       g.slot == slot && (Contends(g, slot, row) || g.stage == Explain || g.stage == Ended(NoCode) || g.stage == Ended(WrongCode))
  }

  predicate Race(s: State, i: nat, j: nat, slot: Slot, row: Row)
    requires i < |s.guesses| && j < |s.guesses|
  {
    Open(s, i, j, slot, row) || WonBy(s, i, j, slot, row) || WonBy(s, j, i, slot, row)
  }

  /** What may happen meanwhile: steps of the two guesses that meet no failure, and anything by anybody
      else that leaves the slot as it is. */
  predicate RaceStep(s: State, a: Action, i: nat, j: nat, slot: Slot, row: Row) {
    if a.GuessStep? && (a.i == i || a.i == j) then a.fault.Fine? && a.now < row.expires
    else LeavesAlone(s, Next(s, a), slot)
  }

  predicate LeavesAlone(s: State, s': State, slot: Slot) {
    if slot in s.rows then slot in s'.rows && s'.rows[slot] == s.rows[slot] else slot !in s'.rows
  }

  ghost predicate RaceRun(s: State, i: nat, j: nat, slot: Slot, row: Row, h: seq<Action>)
    decreases |h|
  {
    h == [] || (RaceRun(s, i, j, slot, row, h[..|h| - 1]) && RaceStep(After(s, h[..|h| - 1]), h[|h| - 1], i, j, slot, row))
  }

  lemma OpenRaceMoves(s: State, k: nat, other: nat, slot: Slot, row: Row, now: int)
    requires k < |s.guesses| && other < |s.guesses| && k != other && now < row.expires
    requires Open(s, k, other, slot, row)
    ensures var s' := Next(s, GuessStep(k, Fine, now));
            |s'.guesses| == |s.guesses| && (Open(s', k, other, slot, row) || WonBy(s', k, other, slot, row))
  {
    var g := s.guesses[k];
    if g.stage.Claim? {
      assert Claimable(s.rows, slot, now);
    }
  }

  lemma WonRaceStays(s: State, w: nat, l: nat, slot: Slot, row: Row, k: nat, now: int)
    requires w < |s.guesses| && l < |s.guesses| && w != l && (k == w || k == l)
    requires WonBy(s, w, l, slot, row)
    ensures var s' := Next(s, GuessStep(k, Fine, now));
            |s'.guesses| == |s.guesses| && WonBy(s', w, l, slot, row)
  {
  }

  lemma OthersKeepGuess(s: State, a: Action, i: nat)
    requires i < |s.guesses| && !(a.GuessStep? && a.i == i)
    ensures i < |Next(s, a).guesses| && Next(s, a).guesses[i] == s.guesses[i]
  {
  }

  lemma RaceGoesOn(s: State, i: nat, j: nat, slot: Slot, row: Row, a: Action)
    requires i < |s.guesses| && j < |s.guesses| && i != j
    requires Race(s, i, j, slot, row) && RaceStep(s, a, i, j, slot, row)
    ensures |s.guesses| <= |Next(s, a).guesses| && Race(Next(s, a), i, j, slot, row)
  {
    if !(a.GuessStep? && (a.i == i || a.i == j)) {
      OthersKeepGuess(s, a, i);
      OthersKeepGuess(s, a, j);
    } else if Open(s, i, j, slot, row) {
      OpenRaceMoves(s, a.i, if a.i == i then j else i, slot, row, a.now);
    } else if WonBy(s, i, j, slot, row) {
      WonRaceStays(s, i, j, slot, row, a.i, a.now);
    } else {
      WonRaceStays(s, j, i, slot, row, a.i, a.now);
    }
  }

  lemma {:induction false} RaceStays(s: State, i: nat, j: nat, slot: Slot, row: Row, h: seq<Action>)
    requires i < |s.guesses| && j < |s.guesses| && i != j && Open(s, i, j, slot, row) && RaceRun(s, i, j, slot, row, h)
    ensures |s.guesses| <= |After(s, h).guesses| && Race(After(s, h), i, j, slot, row)
    decreases |h|
  {
    if h != [] {
      RaceStays(s, i, j, slot, row, h[..|h| - 1]);
      RaceGoesOn(After(s, h[..|h| - 1]), i, j, slot, row, h[|h| - 1]);
    }
  }

  /** Two correct submissions of one code, interleaved in any way with each other and with anything that
      leaves the code's slot alone: once both have ended, exactly one was accepted, and the other was told
      there is no code or a wrong one. */
  lemma ParallelCorrectSubmissionsGiveOneSuccess(s: State, i: nat, j: nat, slot: Slot, row: Row, h: seq<Action>)
    requires i < |s.guesses| && j < |s.guesses| && i != j && Open(s, i, j, slot, row) && RaceRun(s, i, j, slot, row, h)
    ensures |s.guesses| <= |After(s, h).guesses|
    ensures var a, b := After(s, h).guesses[i].stage, After(s, h).guesses[j].stage;
            a.Ended? && b.Ended? ==>
              || (a.outcome == Accepted && b.outcome in {NoCode, WrongCode})
              || (b.outcome == Accepted && a.outcome in {NoCode, WrongCode})
  {
    RaceStays(s, i, j, slot, row, h);
  }
}
