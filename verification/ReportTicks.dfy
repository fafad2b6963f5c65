/** What becomes of one tick's claim of a day: what it delivers when its calls succeed, and what it never does
    when its build failed, when it has died, or when the day is done. */
module ReportTicks {
  import opened Prelude
  import opened DailyReport

  ghost function Run(cfg: Config, start: State): seq<Action> -> State { h => After(cfg, start, h) }

  lemma {:induction false} AfterKeepsInv(cfg: Config, s: State, later: seq<Action>)
    requires Inv(cfg, s)
    ensures Inv(cfg, After(cfg, s, later)) && |s.ticks| <= |After(cfg, s, later).ticks|
    decreases |later|
  {
    if later != [] {
      AfterKeepsInv(cfg, s, later[..|later| - 1]);
      NextInv(cfg, After(cfg, s, later[..|later| - 1]), later[|later| - 1]);
    }
  }

  // --- a tick that delivers nothing ---

  /** The tick has nothing more to deliver: at most its end is still to be recorded, as a failure. */
  predicate Barren(s: State, i: nat) {
    i < |s.ticks| && s.ticks[i].stage in {Finish, Over} && s.ticks[i].email.NotSent? && (s.ticks[i].problem || s.ticks[i].stage.Over?)
  }

  /** A step of tick `i` that sends, stores and records nothing, and marks no day done. */
  ghost predicate DeliversNothing(cfg: Config, s: State, a: Action) {
    var s' := Next(cfg, s, a);
    && s'.stored == s.stored && !Mails(cfg, s, a)
    && (s.run.Some? ==> s'.run.Some? && s'.run.value.emailed == s.run.value.emailed && s'.run.value.uploaded == s.run.value.uploaded
                        && (s'.run.value.status.Done? ==> s.run.value.status.Done?))
  }

  lemma BarrenStep(cfg: Config, s: State, a: Action, i: nat)
    requires Barren(s, i)
    ensures Barren(Next(cfg, s, a), i)
    ensures a.Step? && a.i == i ==> DeliversNothing(cfg, s, a)
  {
  }

  lemma {:induction false} BarrenForGood(cfg: Config, s: State, i: nat, later: seq<Action>)
    requires Barren(s, i)
    ensures Barren(After(cfg, s, later), i)
    decreases |later|
  {
    if later != [] {
      BarrenForGood(cfg, s, i, later[..|later| - 1]);
      BarrenStep(cfg, After(cfg, s, later[..|later| - 1]), later[|later| - 1], i);
    }
  }

  /** A tick whose build failed mails, stores and records nothing, whatever else runs, and never marks the day
      done. */
  lemma ATickWhoseBuildFailedDeliversNothing(cfg: Config, now: int, h: seq<Action>, i: nat, f: Fault, body: nat, later: seq<Action>, k: nat)
    requires i < |After(cfg, Init(now), h).ticks| && After(cfg, Init(now), h).ticks[i].stage.Build? && !f.Fine?
    requires k < |later| && later[k].Step? && later[k].i == i
    ensures var failed := Next(cfg, After(cfg, Init(now), h), Step(i, f, body));
            && DeliversNothing(cfg, After(cfg, Init(now), h), Step(i, f, body))
            && DeliversNothing(cfg, After(cfg, failed, later[..k]), later[k])
            && i < |After(cfg, failed, later).ticks| && After(cfg, failed, later).ticks[i].email.NotSent?
  {
    AfterInv(cfg, now, h);
    var s := After(cfg, Init(now), h);
    assert TickInv(cfg, s.run.value, s.ticks[i]);
    var failed := Next(cfg, s, Step(i, f, body));
    BarrenForGood(cfg, failed, i, later[..k]);
    BarrenStep(cfg, After(cfg, failed, later[..k]), later[k], i);
    BarrenForGood(cfg, failed, i, later);
  }

  lemma {:induction false} OverForGood(cfg: Config, s: State, i: nat, later: seq<Action>)
    requires i < |s.ticks| && s.ticks[i].stage.Over?
    ensures i < |After(cfg, s, later).ticks| && After(cfg, s, later).ticks[i] == s.ticks[i]
    decreases |later|
  {
    if later != [] {
      OverForGood(cfg, s, i, later[..|later| - 1]);
    }
  }

  /** A tick that has died does nothing any more. */
  lemma ADeadTickDoesNothing(cfg: Config, s: State, i: nat, later: seq<Action>, f: Fault, body: nat)
    requires i < |s.ticks|
    ensures var end := After(cfg, Next(cfg, s, Crash(i)), later);
            i < |end.ticks| && end.ticks[i].email == s.ticks[i].email && Next(cfg, end, Step(i, f, body)) == end
  {
    OverForGood(cfg, Next(cfg, s, Crash(i)), i, later);
    var end := After(cfg, Next(cfg, s, Crash(i)), later);
    assert end.ticks[i := end.ticks[i]] == end.ticks;
  }

  // --- a tick that delivers ---

  ghost function StepsOf(i: nat): Action -> bool { (a: Action) => a.Step? && a.i == i }

  /** Tick `i` marks the day done, with every configured delivery on the row. */
  ghost function MarksDone(cfg: Config, i: nat): (State, Action) -> bool {
    (s: State, a: Action) =>
      a.Step? && a.i == i && i < |s.ticks| && s.ticks[i].stage.Finish? && s.run.Some? && Delivered(cfg, s.run.value)
      && Next(cfg, s, a).run == Some(s.run.value.(status := Done, byHand := false))
  }

  /** How many calls a tick has still to make, at most. */
  function CallsLeft(stage: Stage): nat {
    match stage
    case Build => 6
    case Mail => 5
    case RecordMail => 4
    case Store => 3
    case RecordStore => 2
    case Finish => 1
    case Over => 0
  }

  /** Tick `i`, which was told `told` by its claim, has had no trouble so far. */
  ghost predicate WithoutTrouble(cfg: Config, s: State, i: nat, told: Tick) {
    && Inv(cfg, s) && s.run.Some? && i < |s.ticks|
    && var t := s.ticks[i];
       && !t.problem && t.emailed == told.emailed && t.uploaded == told.uploaded
       && (t.stage in {Store, RecordStore, Finish, Over} && cfg.recipients && !told.emailed ==> t.email.Recorded?)
       && (t.stage in {RecordStore, Finish, Over} && cfg.bucket && !told.uploaded ==> s.stored.Some?)
  }

  lemma StepWithoutTrouble(cfg: Config, s: State, a: Action, i: nat, told: Tick)
    requires WithoutTrouble(cfg, s, i, told) && (cfg.recipients ==> cfg.mailer)
    requires a != Crash(i) && (a.Step? && a.i == i ==> a.f.Fine?)
    ensures WithoutTrouble(cfg, Next(cfg, s, a), i, told)
    ensures var stage, stage' := s.ticks[i].stage, Next(cfg, s, a).ticks[i].stage;
            && (if a.Step? && a.i == i then CallsLeft(stage') < CallsLeft(stage) || stage.Over? else stage' == stage)
            && (stage'.Over? && !stage.Over? ==> MarksDone(cfg, i)(s, a))
  {
    NextInv(cfg, s, a);
    assert TickInv(cfg, s.run.value, s.ticks[i]);
  }

  ghost predicate CallsSucceed(later: seq<Action>, i: nat) {
    forall a :: a in later ==> a != Crash(i) && (a.Step? && a.i == i ==> a.f.Fine?)
  }

  lemma {:induction false} RunWithoutTrouble(cfg: Config, s: State, i: nat, later: seq<Action>)
    requires i < |s.ticks| && WithoutTrouble(cfg, s, i, s.ticks[i]) && s.ticks[i].stage.Build? && (cfg.recipients ==> cfg.mailer)
    requires CallsSucceed(later, i)
    ensures WithoutTrouble(cfg, After(cfg, s, later), i, s.ticks[i])
    decreases |later|
  {
    if later != [] {
      var front, a := later[..|later| - 1], later[|later| - 1];
      assert a in later;
      RunWithoutTrouble(cfg, s, i, front);
      StepWithoutTrouble(cfg, After(cfg, s, front), a, i, s.ticks[i]);
    }
  }

  lemma {:induction false} SixCallsAreEnough(cfg: Config, s: State, i: nat, later: seq<Action>)
    requires i < |s.ticks| && WithoutTrouble(cfg, s, i, s.ticks[i]) && s.ticks[i].stage.Build? && (cfg.recipients ==> cfg.mailer)
    requires CallsSucceed(later, i)
    ensures i < |After(cfg, s, later).ticks|
    ensures var stage := After(cfg, s, later).ticks[i].stage; stage.Over? || CallsLeft(stage) + Count(later, StepsOf(i)) <= 6
    decreases |later|
  {
    RunWithoutTrouble(cfg, s, i, later);
    if later != [] {
      var front, a := later[..|later| - 1], later[|later| - 1];
      assert a in later;
      SixCallsAreEnough(cfg, s, i, front);
      RunWithoutTrouble(cfg, s, i, front);
      StepWithoutTrouble(cfg, After(cfg, s, front), a, i, s.ticks[i]);
    }
  }

  lemma {:induction false} OverByMarkingDone(cfg: Config, s: State, i: nat, later: seq<Action>)
    requires i < |s.ticks| && WithoutTrouble(cfg, s, i, s.ticks[i]) && s.ticks[i].stage.Build? && (cfg.recipients ==> cfg.mailer)
    requires CallsSucceed(later, i)
    ensures i < |After(cfg, s, later).ticks|
    ensures After(cfg, s, later).ticks[i].stage.Over? ==> Happened(Run(cfg, s), later, MarksDone(cfg, i))
    decreases |later|
  {
    RunWithoutTrouble(cfg, s, i, later);
    if later != [] {
      var front, a := later[..|later| - 1], later[|later| - 1];
      assert a in later && later == front + [a];
      OverByMarkingDone(cfg, s, i, front);
      RunWithoutTrouble(cfg, s, i, front);
      StepWithoutTrouble(cfg, After(cfg, s, front), a, i, s.ticks[i]);
      HappenedGrows(Run(cfg, s), front, a, MarksDone(cfg, i));
    }
  }

  /** A tick whose six calls succeed delivers, whatever runs between them: it ends without a problem, having
      marked the day done with everything configured on the row; its own email is recorded unless its claim
      said one was, and the object is in the bucket. */
  lemma ATickWhoseCallsSucceedDelivers(cfg: Config, now: int, h: seq<Action>, i: nat, later: seq<Action>)
    requires var s := After(cfg, Init(now), h); i < |s.ticks| && s.ticks[i].stage.Build?
    requires cfg.recipients ==> cfg.mailer
    requires CallsSucceed(later, i)
    requires Count(later, StepsOf(i)) >= 6
    ensures var s := After(cfg, Init(now), h); var end := After(cfg, s, later);
            && i < |end.ticks| && end.ticks[i].stage.Over? && !end.ticks[i].problem
            && Happened(Run(cfg, s), later, MarksDone(cfg, i))
            && (cfg.recipients && !s.ticks[i].emailed ==> end.ticks[i].email.Recorded?)
            && (cfg.bucket && !s.ticks[i].uploaded ==> end.stored.Some?)
  {
    AfterInv(cfg, now, h);
    var s := After(cfg, Init(now), h);
    assert TickInv(cfg, s.run.value, s.ticks[i]);
    RunWithoutTrouble(cfg, s, i, later);
    SixCallsAreEnough(cfg, s, i, later);
    OverByMarkingDone(cfg, s, i, later);
  }

  // --- what was delivered, and by whom ---

  /** A tick puts the object into the bucket, which has none yet; its claim did not say that it was there. */
  ghost function PutsObject(cfg: Config, body: nat): (State, Action) -> bool {
    (s: State, a: Action) =>
      a.Step? && a.body == body && !a.f.Down? && cfg.bucket && s.stored.None? && s.run.Some?
      && a.i < |s.ticks| && s.ticks[a.i].stage.Store? && !s.ticks[a.i].uploaded
  }

  lemma ANewObject(cfg: Config, s: State, a: Action)
    ensures Next(cfg, s, a).stored != s.stored ==>
              Next(cfg, s, a).stored.Some? && PutsObject(cfg, Next(cfg, s, a).stored.value)(s, a)
  {
  }

  /** Nothing is mailed without recipients and a mailer, or by a tick whose claim said it was; and the object
      is what the first tick to store one built. */
  lemma {:induction false} DeliveriesAreByTicksToldToMakeThem(cfg: Config, now: int, h: seq<Action>, i: nat)
    ensures var s := After(cfg, Init(now), h);
            && (i < |s.ticks| && !s.ticks[i].email.NotSent? ==> cfg.recipients && cfg.mailer && !s.ticks[i].emailed)
            && (s.stored.Some? ==> Happened(Run(cfg, Init(now)), h, PutsObject(cfg, s.stored.value)))
  {
    AfterInv(cfg, now, h);
    var s := After(cfg, Init(now), h);
    assert i < |s.ticks| ==> TickInv(cfg, s.run.value, s.ticks[i]);
    if s.stored.Some? {
      TheObjectWasPut(cfg, now, h);
    }
  }

  lemma {:induction false} TheObjectWasPut(cfg: Config, now: int, h: seq<Action>)
    requires After(cfg, Init(now), h).stored.Some?
    ensures Happened(Run(cfg, Init(now)), h, PutsObject(cfg, After(cfg, Init(now), h).stored.value))
    decreases |h|
  {
    var front, a := h[..|h| - 1], h[|h| - 1];
    var s := After(cfg, Init(now), front);
    assert h == front + [a];
    ANewObject(cfg, s, a);
    HappenedGrows(Run(cfg, Init(now)), front, a, PutsObject(cfg, After(cfg, Init(now), h).stored.value));
    if Next(cfg, s, a).stored == s.stored {
      TheObjectWasPut(cfg, now, front);
    }
  }

  /** The mailer takes the email of tick `i`, whether or not the tick hears of it. */
  ghost function SendsMail(cfg: Config, i: nat): (State, Action) -> bool {
    (s: State, a: Action) =>
      a.Step? && a.i == i && i < |s.ticks| && s.run.Some? && s.ticks[i].stage.Mail? && !s.ticks[i].emailed
      && cfg.recipients && cfg.mailer && !a.f.Down?
  }

  /** The row takes the record of it. */
  ghost function RecordsMail(i: nat): (State, Action) -> bool {
    (s: State, a: Action) =>
      a.Step? && a.i == i && i < |s.ticks| && s.run.Some? && s.ticks[i].stage.RecordMail? && !a.f.Down?
  }

  lemma MailedByNext(cfg: Config, s: State, a: Action, i: nat)
    requires Inv(cfg, s) && i < |Next(cfg, s, a).ticks|
    ensures var t' := Next(cfg, s, a).ticks[i];
            if i < |s.ticks| then
              && (t'.email.NotSent? <==> s.ticks[i].email.NotSent? && !SendsMail(cfg, i)(s, a))
              && (t'.email.Recorded? <==> s.ticks[i].email.Recorded? || RecordsMail(i)(s, a))
            else t'.email.NotSent?
  {
    assert i < |s.ticks| ==> TickInv(cfg, s.run.value, s.ticks[i]);
  }

  lemma {:induction false} TicksOnlyGrow(cfg: Config, now: int, h: seq<Action>, k: nat)
    requires k <= |h|
    ensures |After(cfg, Init(now), h[..k]).ticks| <= |After(cfg, Init(now), h).ticks|
    decreases |h|
  {
    if k == |h| {
      assert h[..k] == h;
    } else {
      TicksOnlyGrow(cfg, now, h[..|h| - 1], k);
      assert h[..|h| - 1][..k] == h[..k];
    }
  }

  lemma NoTickYet(cfg: Config, now: int, h: seq<Action>, i: nat)
    requires |After(cfg, Init(now), h).ticks| <= i
    ensures !Happened(Run(cfg, Init(now)), h, SendsMail(cfg, i)) && !Happened(Run(cfg, Init(now)), h, RecordsMail(i))
  {
    if k :| 0 <= k < |h| && (SendsMail(cfg, i)(Run(cfg, Init(now))(h[..k]), h[k]) || RecordsMail(i)(Run(cfg, Init(now))(h[..k]), h[k])) {
      TicksOnlyGrow(cfg, now, h, k);
    }
  }

  /** A tick has mailed exactly when the mailer took its email, heard of or not, and its email is recorded
      exactly when the row took the record. */
  lemma {:induction false} ATickHasMailedWhenTheMailerTookIt(cfg: Config, now: int, h: seq<Action>, i: nat)
    requires i < |After(cfg, Init(now), h).ticks|
    ensures var t := After(cfg, Init(now), h).ticks[i];
            && (!t.email.NotSent? <==> Happened(Run(cfg, Init(now)), h, SendsMail(cfg, i)))
            && (t.email.Recorded? <==> Happened(Run(cfg, Init(now)), h, RecordsMail(i)))
    decreases |h|
  {
    var front, a := h[..|h| - 1], h[|h| - 1];
    var s := After(cfg, Init(now), front);
    assert h == front + [a];
    AfterInv(cfg, now, front);
    MailedByNext(cfg, s, a, i);
    HappenedGrows(Run(cfg, Init(now)), front, a, SendsMail(cfg, i));
    HappenedGrows(Run(cfg, Init(now)), front, a, RecordsMail(i));
    if i < |s.ticks| {
      ATickHasMailedWhenTheMailerTookIt(cfg, now, front, i);
    } else {
      NoTickYet(cfg, now, front, i);
    }
  }

  // --- a day that is done, and one that is given up ---

  ghost predicate AllOver(s: State) {
    forall i :: 0 <= i < |s.ticks| ==> s.ticks[i].stage.Over?
  }

  lemma {:induction false} DoneForGood(cfg: Config, s: State, later: seq<Action>)
    requires s.run.Some? && s.run.value.status.Done? && AllOver(s)
    ensures var end := After(cfg, s, later);
            end.ticks == s.ticks && end.stored == s.stored && end.run.Some? && end.run.value.status.Done?
    decreases |later|
  {
    if later != [] {
      DoneForGood(cfg, s, later[..|later| - 1]);
      var end := After(cfg, s, later[..|later| - 1]);
      assert forall i :: 0 <= i < |end.ticks| ==> end.ticks[i := end.ticks[i]] == end.ticks && end.ticks[i].stage.Over?;
    }
  }

  /** A day done, or regenerated by hand, with no tick under way is never claimed again. */
  lemma ADoneDayIsNotClaimedAgain(cfg: Config, s: State, later: seq<Action>)
    requires AllOver(s)
    ensures After(cfg, Next(cfg, s, Regenerate), later).ticks == s.ticks
    ensures s.run.Some? && s.run.value.status.Done? ==> After(cfg, s, later).ticks == s.ticks
  {
    DoneForGood(cfg, Next(cfg, s, Regenerate), later);
    if s.run.Some? && s.run.value.status.Done? {
      DoneForGood(cfg, s, later);
    }
  }

  /** A day that keeps failing is tried as many as 24 times, and then no more. */
  lemma {:induction false} AFailingDayIsTried24Times(cfg: Config, n: nat) returns (h: seq<Action>)
    requires 1 <= n <= 24
    ensures var s := After(cfg, Init(0), h);
            && |s.ticks| == n && s.byHand == 0 && s.run.Some? && s.run.value.status.Failed? && s.run.value.attempts == n
            && (Claimable(s) <==> n < 24)
  {
    var before: seq<Action> := [];
    if n > 1 {
      before := AFailingDayIsTried24Times(cfg, n - 1);
    }
    var claimed := Extend(cfg, before, Claim(Fine));
    assert After(cfg, Init(0), claimed).ticks[n - 1].stage.Build?;
    var failed := Extend(cfg, claimed, Step(n - 1, Down, 0));
    assert After(cfg, Init(0), failed).ticks[n - 1].stage.Finish? && After(cfg, Init(0), failed).ticks[n - 1].problem;
    h := Extend(cfg, failed, Step(n - 1, Fine, 0));
  }
}
