/** What the one-time-code answers and the pending codes say about the past: an accepted code was sent to its
    target not ten minutes ago, every other answer has its reason, and a code is pending until it is spent,
    cleared away or replaced. */
module OtpAnswers {
  import opened Prelude
  import opened OtpProtocol
  import opened OtpTheorems

  ghost function Run(): seq<Action> -> State { h => After(Init, h) }

  // --- from the send to the claim ---

  /** A send puts issue `n` into the slot, for `target`, at `t`. */
  ghost predicate IssuedBy(s: State, a: Action, slot: Slot, n: nat, target: string, code: nat, t: int) {
    && a.SendStep? && a.i < |s.sends| && s.sends[a.i].stage.Upsert? && !a.fault.Down?
    && s.sends[a.i].slot == slot && s.sends[a.i].target == target
    && |s.codes| == n && a.code == code && a.now == t
  }

  ghost function Issuing(slot: Slot, n: nat, target: string, code: nat, t: int): (State, Action) -> bool {
    (s: State, a: Action) => IssuedBy(s, a, slot, n, target, code, t)
  }

  /** Guess `i` claims an attempt of the pending issue `n` before `deadline`. */
  ghost function ClaimsBefore(i: nat, n: nat, deadline: int): (State, Action) -> bool {
    (s: State, a: Action) =>
      a.GuessStep? && a.i == i && !a.fault.Down? && i < |s.guesses| && s.guesses[i].stage.Claim?
      && s.guesses[i].slot in s.rows && s.rows[s.guesses[i].slot].issue == n && a.now < deadline
  }

  /** A pending code is as it was sent, and lives for ten minutes from then. */
  ghost predicate RowKnown(h: seq<Action>, slot: Slot) {
    var rows := After(Init, h).rows;
    slot in rows ==>
      && Happened(Run(), h, Issuing(slot, rows[slot].issue, rows[slot].target, rows[slot].code, rows[slot].created))
      && rows[slot].expires == rows[slot].created + 600
  }

  lemma RowAfterNext(s: State, a: Action, slot: Slot)
    ensures slot in Next(s, a).rows ==>
              var row := Next(s, a).rows[slot];
              || (slot in s.rows && s.rows[slot] == row.(attempts := s.rows[slot].attempts))
              || (IssuedBy(s, a, slot, row.issue, row.target, row.code, row.created) && row.expires == row.created + 600)
  {
  }

  lemma {:induction false} PendingCodesAreAsSent(h: seq<Action>, slot: Slot)
    ensures RowKnown(h, slot)
    decreases |h|
  {
    if h != [] && slot in After(Init, h).rows {
      var front, a := h[..|h| - 1], h[|h| - 1];
      var row := After(Init, h).rows[slot];
      assert h == front + [a];
      PendingCodesAreAsSent(front, slot);
      RowAfterNext(After(Init, front), a, slot);
      HappenedGrows(Run(), front, a, Issuing(slot, row.issue, row.target, row.code, row.created));
    }
  }

  /** The code a guess has claimed was sent to `target` and claimed in time; and what the guess has done with
      it agrees with that target. */
  ghost predicate SentTo(h: seq<Action>, i: nat, n: nat, code: nat, target: string, t: int)
    requires i < |After(Init, h).guesses|
  {
    var g := After(Init, h).guesses[i];
    && Happened(Run(), h, Issuing(g.slot, n, target, code, t)) && Happened(Run(), h, ClaimsBefore(i, n, t + 600))
    && (g.stage.Compare? ==> g.stage.row.target == target && g.stage.row.code == code)
    && (g.compared ==> target == g.target)
    && (g.stage == Ended(WrongTarget) ==> target != g.target)
  }

  ghost predicate ClaimKnown(h: seq<Action>, i: nat)
    requires i < |After(Init, h).guesses|
  {
    var claimed := After(Init, h).guesses[i].claimed;
    claimed.Some? ==> exists code, target, t :: SentTo(h, i, claimed.value, code, target, t)
  }

  /** What one step does to a guess that has claimed an attempt. */
  lemma ClaimedStep(s: State, a: Action, i: nat)
    requires i < |s.guesses| && s.guesses[i].claimed.Some? && GuessCoherent(s.guesses[i])
    ensures i < |Next(s, a).guesses|
    ensures var g, g' := s.guesses[i], Next(s, a).guesses[i];
            && g'.claimed == g.claimed && g'.slot == g.slot && g'.target == g.target
            && (g'.stage.Compare? ==> g'.stage == g.stage)
            && (g'.compared && !g.compared ==> g.stage.Compare? && g.stage.row.target == g.target)
            && (g'.stage == Ended(WrongTarget) && g.stage != g'.stage ==> g.stage.Compare? && g.stage.row.target != g.target)
  {
  }

  lemma ClaimingStep(s: State, a: Action, i: nat)
    requires i < |s.guesses| && s.guesses[i].claimed.None? && i < |Next(s, a).guesses| && Next(s, a).guesses[i].claimed.Some?
    requires GuessCoherent(s.guesses[i])
    ensures var g, g' := s.guesses[i], Next(s, a).guesses[i];
            && g'.slot == g.slot && g.slot in s.rows && g'.claimed == Some(s.rows[g.slot].issue)
            && ClaimsBefore(i, s.rows[g.slot].issue, s.rows[g.slot].expires)(s, a)
            && !g'.compared && g'.stage != Ended(WrongTarget)
            && (g'.stage.Compare? ==> g'.stage.row.target == s.rows[g.slot].target && g'.stage.row.code == s.rows[g.slot].code)
  {
  }

  lemma {:induction false} ClaimsAreKnown(h: seq<Action>, i: nat)
    requires i < |After(Init, h).guesses|
    ensures ClaimKnown(h, i)
    decreases |h|
  {
    var front, a := h[..|h| - 1], h[|h| - 1];
    var s := After(Init, front);
    assert h == front + [a];
    AfterInv(front);
    if i < |s.guesses| && After(Init, h).guesses[i].claimed.Some? {
      assert GuessCoherent(s.guesses[i]);
      var n := After(Init, h).guesses[i].claimed.value;
      if s.guesses[i].claimed.Some? {
        ClaimsAreKnown(front, i);
        var code, target, t :| SentTo(front, i, s.guesses[i].claimed.value, code, target, t);
        ClaimedStep(s, a, i);
        StillSent(front, a, i, n, code, target, t);
      } else {
        ClaimingStep(s, a, i);
        PendingCodesAreAsSent(front, s.guesses[i].slot);
        var row := s.rows[s.guesses[i].slot];
        HappenedGrows(Run(), front, a, Issuing(s.guesses[i].slot, n, row.target, row.code, row.created));
        HappenedGrows(Run(), front, a, ClaimsBefore(i, n, row.created + 600));
        assert SentTo(h, i, n, row.code, row.target, row.created);
      }
    }
  }

  lemma StillSent(h: seq<Action>, a: Action, i: nat, n: nat, code: nat, target: string, t: int)
    requires i < |After(Init, h).guesses| && After(Init, h).guesses[i].claimed == Some(n)
    requires GuessCoherent(After(Init, h).guesses[i]) && SentTo(h, i, n, code, target, t)
    ensures After(Init, h + [a]) == Next(After(Init, h), a) && i < |After(Init, h + [a]).guesses|
    ensures SentTo(h + [a], i, n, code, target, t)
  {
    assert (h + [a])[..|h|] == h;
    ClaimedStep(After(Init, h), a, i);
    HappenedGrows(Run(), h, a, Issuing(After(Init, h).guesses[i].slot, n, target, code, t));
    HappenedGrows(Run(), h, a, ClaimsBefore(i, n, t + 600));
  }

  lemma {:induction false} CodesGrow(h: seq<Action>, k: nat)
    requires k <= |h|
    ensures |After(Init, h[..k]).codes| <= |After(Init, h).codes|
    decreases |h|
  {
    if k == |h| {
      assert h[..k] == h;
    } else {
      CodesGrow(h[..|h| - 1], k);
      assert h[..|h| - 1][..k] == h[..k];
    }
  }

  /** Issue numbers are given out once. */
  lemma NumbersAreGivenOnce(h: seq<Action>, j: nat, k: nat)
    requires j < k < |h| && |After(Init, h[..j + 1]).codes| == |After(Init, h[..j]).codes| + 1
    ensures |After(Init, h[..j]).codes| < |After(Init, h[..k]).codes|
  {
    assert h[..k][..j + 1] == h[..j + 1];
    CodesGrow(h[..k], j + 1);
  }

  lemma IssuingTakesANumber(h: seq<Action>, j: nat, n: nat, slot: Slot, target: string, code: nat, t: int)
    requires j < |h| && IssuedBy(After(Init, h[..j]), h[j], slot, n, target, code, t)
    ensures |After(Init, h[..j]).codes| == n && |After(Init, h[..j + 1]).codes| == n + 1
  {
    assert h[..j + 1][..j] == h[..j];
  }

  /** An issue is one send of one code to one target. */
  lemma AnIssueIsOneSend(h: seq<Action>, n: nat, slot: Slot, target: string, code: nat, t: int,
                         slot': Slot, target': string, code': nat, t': int)
    requires Happened(Run(), h, Issuing(slot, n, target, code, t)) && Happened(Run(), h, Issuing(slot', n, target', code', t'))
    ensures slot == slot' && target == target' && code == code' && t == t'
  {
    var j :| 0 <= j < |h| && Issuing(slot, n, target, code, t)(Run()(h[..j]), h[j]);
    var k :| 0 <= k < |h| && Issuing(slot', n, target', code', t')(Run()(h[..k]), h[k]);
    IssuingTakesANumber(h, j, n, slot, target, code, t);
    IssuingTakesANumber(h, k, n, slot', target', code', t');
    if j < k {
      NumbersAreGivenOnce(h, j, k);
    } else if k < j {
      NumbersAreGivenOnce(h, k, j);
    }
  }

  ghost predicate SendOf(s: State, slot: Slot, n: nat, target: string) {
    exists d :: d in s.sends && d.slot == slot && d.issued == Some(n) && d.target == target
  }

  lemma SendStays(s: State, a: Action, slot: Slot, n: nat, target: string)
    requires Inv(s) && n < |s.codes|
    ensures n < |Next(s, a).codes| && Next(s, a).codes[n] == s.codes[n]
    ensures SendOf(s, slot, n, target) ==> SendOf(Next(s, a), slot, n, target)
  {
    if SendOf(s, slot, n, target) {
      var d :| d in s.sends && d.slot == slot && d.issued == Some(n) && d.target == target;
      var k :| 0 <= k < |s.sends| && s.sends[k] == d;
      assert SendCoherent(d);
      assert k < |Next(s, a).sends| && Next(s, a).sends[k] == d;
    }
  }

  lemma IssuedByNext(s: State, a: Action, slot: Slot, n: nat, target: string, code: nat, t: int)
    requires IssuedBy(s, a, slot, n, target, code, t)
    ensures n < |Next(s, a).codes| && Next(s, a).codes[n] == code && SendOf(Next(s, a), slot, n, target)
  {
    var d := NextSend(s, s.sends[a.i], a.fault, a.now);
    assert Next(s, a).sends[a.i] == d;
  }

  lemma {:induction false} AnIssueIsKept(h: seq<Action>, slot: Slot, n: nat, target: string, code: nat, t: int)
    requires Happened(Run(), h, Issuing(slot, n, target, code, t))
    ensures var s := After(Init, h); n < |s.codes| && s.codes[n] == code && SendOf(s, slot, n, target)
    decreases |h|
  {
    var front, a := h[..|h| - 1], h[|h| - 1];
    assert h == front + [a];
    HappenedGrows(Run(), front, a, Issuing(slot, n, target, code, t));
    AfterInv(front);
    if Happened(Run(), front, Issuing(slot, n, target, code, t)) {
      AnIssueIsKept(front, slot, n, target, code, t);
      SendStays(After(Init, front), a, slot, n, target);
    } else {
      IssuedByNext(After(Init, front), a, slot, n, target, code, t);
    }
  }

  /** Every accepted code was sent to the very target it is accepted for, and claimed within ten minutes of
      being sent: for both kinds of slot, whatever else was sent meanwhile. */
  lemma AnAcceptedCodeWasSentToItsTarget(h: seq<Action>, i: nat)
    requires i < |After(Init, h).guesses| && Won(After(Init, h).guesses[i])
    ensures var s := After(Init, h); var g := s.guesses[i];
            && g.claimed.Some? && SendOf(s, g.slot, g.claimed.value, g.target)
            && exists t :: Happened(Run(), h, Issuing(g.slot, g.claimed.value, g.target, g.code, t))
                           && Happened(Run(), h, ClaimsBefore(i, g.claimed.value, t + 600))
  {
    EachIssueIsSpentOnce(h, i, i);
    ClaimsAreKnown(h, i);
    AfterInv(h);
    var s := After(Init, h);
    var g := s.guesses[i];
    assert GuessCoherent(g) && CodesMet(s.codes, g);
    var code, target, t :| SentTo(h, i, g.claimed.value, code, target, t);
    AnIssueIsKept(h, g.slot, g.claimed.value, target, code, t);
  }

  /** A guess is told that its target is a wrong one exactly when the code it claimed was sent to another: of
      the guesses that got as far as an answer about the code. */
  lemma AWrongTargetIsAnothersCode(h: seq<Action>, i: nat)
    requires i < |After(Init, h).guesses|
    requires var g := After(Init, h).guesses[i]; g.claimed.Some? && (g.compared || g.stage == Ended(WrongTarget))
    ensures var s := After(Init, h); var g := s.guesses[i];
            && (g.stage == Ended(WrongTarget) <==> exists target :: target != g.target && SentFor(h, g.slot, g.claimed.value, target))
            && (g.stage == Ended(WrongTarget) <==> !SentFor(h, g.slot, g.claimed.value, g.target))
  {
    ClaimsAreKnown(h, i);
    AfterInv(h);
    var g := After(Init, h).guesses[i];
    assert GuessCoherent(g);
    var n := g.claimed.value;
    var code, target, t :| SentTo(h, i, n, code, target, t);
    assert SentFor(h, g.slot, n, target);
    assert !(g.compared && g.stage == Ended(WrongTarget));
    forall other | SentFor(h, g.slot, n, other) ensures other == target {
      var code', t' :| Happened(Run(), h, Issuing(g.slot, n, other, code', t'));
      AnIssueIsOneSend(h, n, g.slot, target, code, t, g.slot, other, code', t');
    }
  }

  /** Issue `n` was sent to `target`. */
  ghost predicate SentFor(h: seq<Action>, slot: Slot, n: nat, target: string) {
    exists code, t :: Happened(Run(), h, Issuing(slot, n, target, code, t))
  }

  // --- every answer has its reason ---

  datatype Reason = OutOfGuesses | BudgetDown | NothingPending | Late | UsedUp | AnotherTarget | NotTheCode | StoreDown | TheCode

  /** How a guess stands once it has been given the reason; it stays so. */
  predicate Shows(stage: GuessStage, r: Reason) {
    match r
    case OutOfGuesses => stage == Ended(BudgetSpent)
    case BudgetDown => stage == Ended(Unavailable)
    case NothingPending => stage == Ended(NoCode)
    case Late => stage.DropExpired? || stage == Ended(Expired)
    case UsedUp => stage == Ended(TooMany)
    case AnotherTarget => stage == Ended(WrongTarget)
    case NotTheCode => stage.DropSpent? || stage == Ended(WrongCode)
    case StoreDown => stage == Ended(StoreError)
    case TheCode => stage.RefundCaller? || stage.RefundTarget? || stage == Ended(Accepted)
  }

  /** A call of the guess finds the reason. */
  predicate Meets(s: State, g: Guess, f: Fault, now: int, r: Reason) {
    var pending := g.slot in s.rows;
    match r
    case OutOfGuesses =>
      f.Fine? && ((g.stage.TakeCaller? && Used(s.guessed, CallerOf(g)) >= 10)
                  || (g.stage.TakeTarget? && Used(s.guessed, TargetOf(g)) >= 50))
    case BudgetDown => !f.Fine? && (g.stage.TakeCaller? || g.stage.TakeTarget?)
    case NothingPending => f.Fine? && g.stage.Explain? && !pending
    case Late => f.Fine? && g.stage.Explain? && pending && s.rows[g.slot].expires < now
    case UsedUp => f.Fine? && g.stage.Explain? && pending && now <= s.rows[g.slot].expires
    case AnotherTarget => g.stage.Compare? && g.slot.UserSlot? && g.stage.row.target != g.target
    case NotTheCode =>
      || (g.stage.Compare? && g.stage.row.code != g.code && (g.slot.UserSlot? ==> g.stage.row.target == g.target))
      || (f.Fine? && g.stage.Consume? && !(pending && s.rows[g.slot].code == g.stage.row.code))
    case StoreDown => !f.Fine? && (g.stage.Claim? || g.stage.Explain? || g.stage.Consume?)
    case TheCode => f.Fine? && g.stage.Consume? && pending && s.rows[g.slot].code == g.stage.row.code
  }

  predicate Finds(s: State, a: Action, i: nat, r: Reason) {
    a.GuessStep? && a.i == i && i < |s.guesses| && Meets(s, s.guesses[i], a.fault, a.now, r)
  }

  ghost function Finding(i: nat, r: Reason): (State, Action) -> bool {
    (s: State, a: Action) => Finds(s, a, i, r)
  }

  ghost predicate ShownBy(s: State, g: Guess, f: Fault, now: int, r: Reason) {
    Shows(NextGuess(s, g, f, now).stage, r) <==> Shows(g.stage, r) || Meets(s, g, f, now, r)
  }

  lemma BudgetShows(s: State, g: Guess, f: Fault, now: int, r: Reason)
    requires g.stage.TakeCaller? || g.stage.TakeTarget?
    ensures ShownBy(s, g, f, now, r)
  {
  }

  lemma ClaimShows(s: State, g: Guess, f: Fault, now: int, r: Reason)
    requires g.stage.Claim? || g.stage.DropSpent? || g.stage.DropExpired?
    ensures ShownBy(s, g, f, now, r)
  {
  }

  lemma ExplainShows(s: State, g: Guess, f: Fault, now: int, r: Reason)
    requires g.stage.Explain?
    ensures ShownBy(s, g, f, now, r)
  {
  }

  lemma CompareShows(s: State, g: Guess, f: Fault, now: int, r: Reason)
    requires g.stage.Compare?
    ensures ShownBy(s, g, f, now, r)
  {
  }

  lemma ConsumeShows(s: State, g: Guess, f: Fault, now: int, r: Reason)
    requires g.stage.Consume?
    ensures ShownBy(s, g, f, now, r)
  {
  }

  lemma LastShows(s: State, g: Guess, f: Fault, now: int, r: Reason)
    requires g.stage.RefundCaller? || g.stage.RefundTarget? || g.stage.Ended?
    ensures ShownBy(s, g, f, now, r)
  {
  }

  lemma ShownByStep(s: State, g: Guess, f: Fault, now: int, r: Reason)
    ensures ShownBy(s, g, f, now, r)
  {
    match g.stage
    case TakeCaller => BudgetShows(s, g, f, now, r);
    case TakeTarget => BudgetShows(s, g, f, now, r);
    case Explain => ExplainShows(s, g, f, now, r);
    case Compare(_) => CompareShows(s, g, f, now, r);
    case Consume(_) => ConsumeShows(s, g, f, now, r);
    case RefundCaller => LastShows(s, g, f, now, r);
    case RefundTarget => LastShows(s, g, f, now, r);
    case Ended(_) => LastShows(s, g, f, now, r);
    case _ => ClaimShows(s, g, f, now, r);
  }

  lemma ShownByNext(s: State, a: Action, i: nat, r: Reason)
    requires i < |s.guesses|
    ensures i < |Next(s, a).guesses|
    ensures Shows(Next(s, a).guesses[i].stage, r) <==> Shows(s.guesses[i].stage, r) || Finds(s, a, i, r)
  {
    if a.GuessStep? && a.i == i {
      ShownByStep(s, s.guesses[i], a.fault, a.now, r);
    } else {
      OthersKeepGuess(s, a, i);
    }
  }

  lemma {:induction false} GuessesOnlyGrow(h: seq<Action>, k: nat)
    requires k <= |h|
    ensures |After(Init, h[..k]).guesses| <= |After(Init, h).guesses|
    decreases |h|
  {
    if k == |h| {
      assert h[..k] == h;
    } else {
      GuessesOnlyGrow(h[..|h| - 1], k);
      assert h[..|h| - 1][..k] == h[..k];
    }
  }

  lemma NothingFoundYet(h: seq<Action>, i: nat, r: Reason)
    requires |After(Init, h).guesses| <= i
    ensures !Happened(Run(), h, Finding(i, r))
  {
    if Happened(Run(), h, Finding(i, r)) {
      var k :| 0 <= k < |h| && Finding(i, r)(Run()(h[..k]), h[k]);
      GuessesOnlyGrow(h, k);
    }
  }

  lemma BegunByNext(s: State, a: Action, i: nat, r: Reason)
    requires |s.guesses| <= i < |Next(s, a).guesses|
    ensures !Shows(Next(s, a).guesses[i].stage, r) && !Finds(s, a, i, r)
  {
  }

  /** A guess is told each thing exactly when one of its calls found the reason for it. */
  lemma {:induction false} EveryAnswerHasItsReason(h: seq<Action>, i: nat, r: Reason)
    requires i < |After(Init, h).guesses|
    ensures Shows(After(Init, h).guesses[i].stage, r) <==> Happened(Run(), h, Finding(i, r))
    decreases |h|
  {
    var front, a := h[..|h| - 1], h[|h| - 1];
    var s := After(Init, front);
    assert h == front + [a];
    HappenedGrows(Run(), front, a, Finding(i, r));
    if i < |s.guesses| {
      EveryAnswerHasItsReason(front, i, r);
      ShownByNext(s, a, i, r);
    } else {
      NothingFoundYet(front, i, r);
      BegunByNext(s, a, i, r);
    }
  }

  /** The guess asks for an attempt and there is none to be had: no code, an expired one, or all five used. */
  ghost function FindsNoAttempt(i: nat): (State, Action) -> bool {
    (s: State, a: Action) =>
      a.GuessStep? && a.i == i && i < |s.guesses| && s.guesses[i].stage.Claim? && a.fault.Fine?
      && (s.guesses[i].slot in s.rows ==> s.rows[s.guesses[i].slot].attempts >= 5 || s.rows[s.guesses[i].slot].expires <= a.now)
  }

  predicate TurnedAway(stage: GuessStage) {
    stage.Explain? || stage.DropExpired? || stage in {Ended(NoCode), Ended(Expired), Ended(TooMany)}
  }

  lemma TurnedAwayByStep(s: State, g: Guess, f: Fault, now: int)
    ensures TurnedAway(NextGuess(s, g, f, now).stage) ==>
              TurnedAway(g.stage)
              || (g.stage.Claim? && f.Fine? && (g.slot in s.rows ==> s.rows[g.slot].attempts >= 5 || s.rows[g.slot].expires <= now))
  {
    RefusedByStep(s, g, f, now);
    ShownByStep(s, g, f, now, NothingPending);
    ShownByStep(s, g, f, now, Late);
    ShownByStep(s, g, f, now, UsedUp);
  }

  lemma RefusedByStep(s: State, g: Guess, f: Fault, now: int)
    ensures NextGuess(s, g, f, now).stage.Explain?
            <==> g.stage.Claim? && f.Fine? && (g.slot in s.rows ==> s.rows[g.slot].attempts >= 5 || s.rows[g.slot].expires <= now)
  {
  }

  /** A guess is turned away without a comparison only when there was no attempt to be had. */
  lemma {:induction false} NobodyIsTurnedAwayFromAnOpenCode(h: seq<Action>, i: nat)
    requires i < |After(Init, h).guesses| && TurnedAway(After(Init, h).guesses[i].stage)
    ensures Happened(Run(), h, FindsNoAttempt(i))
    decreases |h|
  {
    var front, a := h[..|h| - 1], h[|h| - 1];
    var s := After(Init, front);
    assert h == front + [a];
    HappenedGrows(Run(), front, a, FindsNoAttempt(i));
    if i < |s.guesses| {
      if a.GuessStep? && a.i == i {
        TurnedAwayByStep(s, s.guesses[i], a.fault, a.now);
      } else {
        OthersKeepGuess(s, a, i);
      }
      if TurnedAway(s.guesses[i].stage) {
        NobodyIsTurnedAwayFromAnOpenCode(front, i);
      }
    }
  }

  // --- how long a code is pending ---

  /** What a step says about the slot's pending code: a new issue, or none any more, because the code was
      presented and spent, because a guess clears it away, or with its account. */
  ghost function Pends(slot: Slot): (State, Action) -> Option<Option<nat>> {
    (s: State, a: Action) =>
      if a == DropSlot(slot) then Some(None)
      else if a.SendStep? && a.i < |s.sends| && s.sends[a.i].slot == slot && s.sends[a.i].stage.Upsert? && !a.fault.Down?
      then Some(Some(|s.codes|))
      else if a.GuessStep? && a.i < |s.guesses| && s.guesses[a.i].slot == slot && !a.fault.Down?
              && (s.guesses[a.i].stage.DropExpired? || s.guesses[a.i].stage.DropSpent?
                  || (s.guesses[a.i].stage.Consume? && slot in s.rows && s.rows[slot].code == s.guesses[a.i].code))
      then Some(None)
      else None
  }

  function Pending(s: State, slot: Slot): Option<nat> {
    if slot in s.rows then Some(s.rows[slot].issue) else None
  }

  lemma PendingAfterNext(s: State, a: Action, slot: Slot)
    requires Inv(s)
    ensures Pending(Next(s, a), slot) == if Pends(slot)(s, a).Some? then Pends(slot)(s, a).value else Pending(s, slot)
  {
    if a.GuessStep? && a.i < |s.guesses| {
      assert GuessCoherent(s.guesses[a.i]);
    }
  }

  /** A code stays pending until it is spent by somebody who presents it, cleared away, replaced by a newer one
      or deleted with its account; wrong guesses leave it. */
  lemma {:induction false} ACodeIsPendingUntilItIsGone(h: seq<Action>, slot: Slot)
    ensures var last := LastWritten(Run(), h, Pends(slot));
            Pending(After(Init, h), slot) == if last.Some? then last.value else None
    decreases |h|
  {
    if h != [] {
      AfterInv(h[..|h| - 1]);
      ACodeIsPendingUntilItIsGone(h[..|h| - 1], slot);
      PendingAfterNext(After(Init, h[..|h| - 1]), h[|h| - 1], slot);
    }
  }

  /** A comparison that fails on the code's fifth attempt. */
  ghost function MissesLast(i: nat): (State, Action) -> bool {
    (s: State, a: Action) =>
      a.GuessStep? && a.i == i && i < |s.guesses| && s.guesses[i].stage.Compare? && s.guesses[i].stage.row.attempts >= 5
      && s.guesses[i].stage.row.code != s.guesses[i].code
  }

  lemma ClearingByNext(s: State, g: Guess, f: Fault, now: int)
    ensures NextGuess(s, g, f, now).stage.DropSpent?
            <==> g.stage.Compare? && (g.slot.UserSlot? ==> g.stage.row.target == g.target)
                 && g.stage.row.code != g.code && g.stage.row.attempts >= 5
  {
  }

  /** A guess sets out to clear its code away as used up only when it has spent the code's fifth attempt on a
      wrong one. */
  lemma {:induction false} OnlyTheLastAttemptClears(h: seq<Action>, i: nat)
    requires i < |After(Init, h).guesses| && After(Init, h).guesses[i].stage.DropSpent?
    ensures Happened(Run(), h, MissesLast(i))
    decreases |h|
  {
    var front, a := h[..|h| - 1], h[|h| - 1];
    var s := After(Init, front);
    assert h == front + [a];
    HappenedGrows(Run(), front, a, MissesLast(i));
    if a.GuessStep? && a.i == i && i < |s.guesses| {
      ClearingByNext(s, s.guesses[i], a.fault, a.now);
    } else if i < |s.guesses| {
      OthersKeepGuess(s, a, i);
      OnlyTheLastAttemptClears(front, i);
    }
  }

  // --- sends ---

  datatype SendReason = TooSoon | OutOfSends | SendBudgetDown | NotStored | Stored

  predicate Ends(stage: SendStage, r: SendReason) {
    match r
    case TooSoon => stage == Over(CoolingDown)
    case OutOfSends => stage == Over(BudgetSpent)
    case SendBudgetDown => stage == Over(Unavailable)
    case NotStored => stage == Over(StoreError)
    case Stored => stage == Over(Sent)
  }

  /** A call of the send finds the reason; the code pending for the slot may be less than a minute old. */
  predicate Encounters(s: State, d: Send, f: Fault, now: int, r: SendReason) {
    match r
    case TooSoon => f.Fine? && d.stage.CheckCooldown? && d.slot in s.rows && now < s.rows[d.slot].created + 60
    case OutOfSends =>
      f.Fine? && ((d.stage.ChargeCaller? && Used(s.sent, PayerOf(d)) >= 5) || (d.stage.ChargeTarget? && Used(s.sent, PayeeOf(d)) >= 20))
    case SendBudgetDown => !f.Fine? && (d.stage.ChargeCaller? || d.stage.ChargeTarget?)
    case NotStored => !f.Fine? && (d.stage.CheckCooldown? || d.stage.Upsert?)
    case Stored => f.Fine? && d.stage.Upsert?
  }

  ghost function Encountering(i: nat, r: SendReason): (State, Action) -> bool {
    (s: State, a: Action) => a.SendStep? && a.i == i && i < |s.sends| && Encounters(s, s.sends[i], a.fault, a.now, r)
  }

  /** The check finds no code for the slot that is less than a minute old. */
  ghost function FindsItCool(i: nat): (State, Action) -> bool {
    (s: State, a: Action) =>
      a.SendStep? && a.i == i && i < |s.sends| && s.sends[i].stage.CheckCooldown? && a.fault.Fine?
      && (s.sends[i].slot in s.rows ==> s.rows[s.sends[i].slot].created + 60 <= a.now)
  }

  lemma EndedByStep(s: State, d: Send, f: Fault, now: int, r: SendReason)
    ensures Ends(NextSend(s, d, f, now).stage, r) <==> Ends(d.stage, r) || Encounters(s, d, f, now, r)
  {
  }

  lemma CoolByStep(s: State, d: Send, f: Fault, now: int)
    ensures NextSend(s, d, f, now).stage.ChargeCaller? <==>
              d.stage.CheckCooldown? && f.Fine? && (d.slot in s.rows ==> s.rows[d.slot].created + 60 <= now)
    ensures NextSend(s, d, f, now).stage.ChargeTarget? || NextSend(s, d, f, now).stage.Upsert? || NextSend(s, d, f, now).issued.Some? ==>
              d.stage.ChargeCaller? || d.stage.ChargeTarget? || d.stage.Upsert? || d.issued.Some?
  {
  }

  lemma OthersKeepSend(s: State, a: Action, i: nat)
    requires i < |s.sends| && !(a.SendStep? && a.i == i)
    ensures i < |Next(s, a).sends| && Next(s, a).sends[i] == s.sends[i]
  {
  }

  lemma {:induction false} SendsOnlyGrow(h: seq<Action>, k: nat)
    requires k <= |h|
    ensures |After(Init, h[..k]).sends| <= |After(Init, h).sends|
    decreases |h|
  {
    if k == |h| {
      assert h[..k] == h;
    } else {
      SendsOnlyGrow(h[..|h| - 1], k);
      assert h[..|h| - 1][..k] == h[..k];
    }
  }

  lemma NothingEncounteredYet(h: seq<Action>, i: nat, r: SendReason)
    requires |After(Init, h).sends| <= i
    ensures !Happened(Run(), h, Encountering(i, r))
  {
    if Happened(Run(), h, Encountering(i, r)) {
      var k :| 0 <= k < |h| && Encountering(i, r)(Run()(h[..k]), h[k]);
      SendsOnlyGrow(h, k);
    }
  }

  lemma EndedByNext(s: State, a: Action, i: nat, r: SendReason)
    requires i < |s.sends|
    ensures i < |Next(s, a).sends|
    ensures Ends(Next(s, a).sends[i].stage, r) <==> Ends(s.sends[i].stage, r) || Encountering(i, r)(s, a)
  {
    if a.SendStep? && a.i == i {
      EndedByStep(s, s.sends[i], a.fault, a.now, r);
    } else {
      OthersKeepSend(s, a, i);
    }
  }

  lemma SendBegunByNext(s: State, a: Action, i: nat, r: SendReason)
    requires |s.sends| <= i < |Next(s, a).sends|
    ensures !Ends(Next(s, a).sends[i].stage, r) && !Encountering(i, r)(s, a)
  {
  }

  /** A send is told each thing exactly when one of its calls found the reason for it: it must wait exactly
      when the pending code it read was less than a minute old. */
  lemma {:induction false} EverySendAnswerHasItsReason(h: seq<Action>, i: nat, r: SendReason)
    requires i < |After(Init, h).sends|
    ensures Ends(After(Init, h).sends[i].stage, r) <==> Happened(Run(), h, Encountering(i, r))
    decreases |h|
  {
    var front, a := h[..|h| - 1], h[|h| - 1];
    var s := After(Init, front);
    assert h == front + [a];
    HappenedGrows(Run(), front, a, Encountering(i, r));
    if i < |s.sends| {
      EverySendAnswerHasItsReason(front, i, r);
      EndedByNext(s, a, i, r);
    } else {
      NothingEncounteredYet(front, i, r);
      SendBegunByNext(s, a, i, r);
    }
  }

  /** And no code is issued by a send that did not find its slot cool. */
  lemma {:induction false} NoCodeIsIssuedTooSoon(h: seq<Action>, i: nat)
    requires i < |After(Init, h).sends|
    requires var d := After(Init, h).sends[i]; d.stage.ChargeCaller? || d.stage.ChargeTarget? || d.stage.Upsert? || d.issued.Some?
    ensures Happened(Run(), h, FindsItCool(i))
    decreases |h|
  {
    var front, a := h[..|h| - 1], h[|h| - 1];
    var s := After(Init, front);
    assert h == front + [a];
    HappenedGrows(Run(), front, a, FindsItCool(i));
    if i < |s.sends| {
      if a.SendStep? && a.i == i {
        CoolByStep(s, s.sends[i], a.fault, a.now);
      } else {
        OthersKeepSend(s, a, i);
      }
      var d := s.sends[i];
      if d.stage.ChargeCaller? || d.stage.ChargeTarget? || d.stage.Upsert? || d.issued.Some? {
        NoCodeIsIssuedTooSoon(front, i);
      }
    }
  }
}
