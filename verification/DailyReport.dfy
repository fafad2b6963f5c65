/** One day's report: claimed by a tick, built, mailed, stored, and recorded, with any call failing, any
    tick dying, ticks overlapping, and regenerations by hand. */
module DailyReport {
  import opened Prelude

  const MAX_REPORT_ATTEMPTS := 24
  const TAKEOVER := 900   // a running claim older than fifteen minutes may be taken over

  datatype Config = Config(recipients: bool, mailer: bool, bucket: bool)

  datatype Status = Running | Failed | Done

  /** The day's row. `byHand` is history: the row was last set to done by a regeneration. */
  datatype Run = Run(status: Status, started: int, attempts: nat, emailed: bool, uploaded: bool, byHand: bool)

  datatype Stage = Build | Mail | RecordMail | Store | RecordStore | Finish | Over

  /** What became of the email a tick sent: `Unrecorded` until the row says so, if it ever does. */
  datatype Email = NotSent | Unrecorded | Recorded

  /** One claim of the day; `emailed` and `uploaded` are what the claim returned. */
  datatype Tick = Tick(started: int, emailed: bool, uploaded: bool, stage: Stage, email: Email, problem: bool)

  datatype State = State(now: int, run: Option<Run>, stored: Option<nat>, ticks: seq<Tick>, byHand: nat)

  datatype Action =
    | Wait(seconds: nat)
    | Claim(f: Fault)
    | Step(i: nat, f: Fault, body: nat)
    | Crash(i: nat)
    | Regenerate
    | MarkEmailedByHand
    | MarkUploadedByHand

  function Init(now: int): State {
    State(now, None, None, [], 0)
  }

  // --- the transition function ---

  predicate Claimable(s: State) {
    match s.run
    case None => true
    case Some(r) =>
      r.attempts < MAX_REPORT_ATTEMPTS && (r.status.Failed? || (r.status.Running? && r.started < s.now - TAKEOVER))
  }

  function Claimed(s: State): Run {
    match s.run
    case None => Run(Running, s.now, 1, false, false, false)
    case Some(r) => r.(status := Running, started := s.now, attempts := r.attempts + 1, byHand := false)
  }

  /** The tick after one step. A lost send has reached its reader all the same; a lost write has landed. */
  function NextTick(cfg: Config, t: Tick, f: Fault): Tick {
    match t.stage
    case Build => if f.Fine? then t.(stage := Mail) else t.(stage := Finish, problem := true)
    case Mail =>
      if !cfg.recipients || t.emailed then t.(stage := Store)
      else if !cfg.mailer then t.(stage := Store, problem := true)
      else if f.Fine? then t.(stage := RecordMail, email := Unrecorded)
      else t.(stage := Store, email := if f.Lost? then Unrecorded else t.email, problem := true)
    case RecordMail =>
      t.(stage := Store, email := if f.Down? then t.email else Recorded, problem := t.problem || !f.Fine?)
    case Store =>
      if !cfg.bucket || t.uploaded then t.(stage := Finish)
      else if f.Fine? then t.(stage := RecordStore)
      else t.(stage := Finish, problem := true)
    case RecordStore => t.(stage := Finish, problem := t.problem || !f.Fine?)
    case Finish => t.(stage := Over)
    case Over => t
  }

  function NextRun(r: Run, t: Tick, f: Fault): Run {
    if f.Down? then r
    else match t.stage
      case RecordMail => r.(emailed := true)
      case RecordStore => r.(uploaded := true)
      case Finish => r.(status := if t.problem then Failed else Done, byHand := false)
      case _ => r
  }

  /** The object is create-only: a second upload finds it there and counts as done. */
  function NextStored(cfg: Config, stored: Option<nat>, t: Tick, f: Fault, body: nat): Option<nat> {
    if t.stage.Store? && cfg.bucket && !t.uploaded && !f.Down? && stored.None? then Some(body) else stored
  }

  function Next(cfg: Config, s: State, a: Action): State {
    match a
    case Wait(seconds) => s.(now := s.now + seconds)
    case Claim(f) =>
      if f.Down? || !Claimable(s) then s
      else
        var r := Claimed(s);
        var stage := if f.Fine? then Build else Over;   // a claim whose answer is lost starts nothing
        s.(run := Some(r), ticks := s.ticks + [Tick(s.now, r.emailed, r.uploaded, stage, NotSent, false)])
    case Step(i, f, body) =>
      if i >= |s.ticks| || s.run.None? then s
      else
        var t := s.ticks[i];
        s.(run := Some(NextRun(s.run.value, t, f)), stored := NextStored(cfg, s.stored, t, f, body),
           ticks := s.ticks[i := NextTick(cfg, t, f)])
    case Crash(i) => if i >= |s.ticks| then s else s.(ticks := s.ticks[i := s.ticks[i].(stage := Over)])
    case Regenerate =>
      var r := match s.run
        case None => Run(Done, s.now, 1, false, false, true)
        case Some(r) => r.(status := Done, attempts := r.attempts + 1, byHand := true);
      s.(run := Some(r), byHand := s.byHand + 1)
    case MarkEmailedByHand => if s.run.None? then s else s.(run := Some(s.run.value.(emailed := true)))
    case MarkUploadedByHand => if s.run.None? then s else s.(run := Some(s.run.value.(uploaded := true)))
  }

  function After(cfg: Config, s: State, h: seq<Action>): State
    decreases |h|
  {
    if h == [] then s else Next(cfg, After(cfg, s, h[..|h| - 1]), h[|h| - 1])
  }

  lemma AfterOne(cfg: Config, s: State, h: seq<Action>, a: Action)
    ensures After(cfg, s, h + [a]) == Next(cfg, After(cfg, s, h), a)
  {
    assert (h + [a])[..|h|] == h;
  }

  // --- invariants of every history ---

  /** What a tick has got done without a problem is on the row. */
  ghost predicate TickInv(cfg: Config, r: Run, t: Tick) {
    && (t.email.Recorded? ==> r.emailed)
    && (t.emailed ==> r.emailed) && (t.uploaded ==> r.uploaded)
    && (!t.problem && t.stage in {Store, RecordStore, Finish} && cfg.recipients ==> r.emailed)
    && (!t.problem && t.stage.Finish? && cfg.bucket ==> r.uploaded)
    && (t.email.NotSent? || (cfg.recipients && cfg.mailer && !t.emailed))
    && (t.stage in {Build, Mail} ==> t.email.NotSent? && !t.problem)
    && (t.stage.RecordMail? ==> t.email.Unrecorded? && !t.problem)
  }

  predicate Delivered(cfg: Config, r: Run) {
    (cfg.recipients ==> r.emailed) && (cfg.bucket ==> r.uploaded)
  }

  ghost predicate RunInv(cfg: Config, s: State) {
    if s.run.None? then s.ticks == [] && s.byHand == 0
    else
      && s.run.value.attempts == |s.ticks| + s.byHand
      && |s.ticks| <= MAX_REPORT_ATTEMPTS
      && (s.run.value.status.Done? && !s.run.value.byHand ==> Delivered(cfg, s.run.value))
  }

  ghost predicate Inv(cfg: Config, s: State) {
    RunInv(cfg, s) && (s.run.Some? ==> forall i :: 0 <= i < |s.ticks| ==> TickInv(cfg, s.run.value, s.ticks[i]))
  }

  lemma StepInv(cfg: Config, s: State, i: nat, f: Fault, body: nat)
    requires Inv(cfg, s)
    ensures Inv(cfg, Next(cfg, s, Step(i, f, body)))
  {
    if i < |s.ticks| && s.run.Some? {
      var r, r' := s.run.value, NextRun(s.run.value, s.ticks[i], f);
      assert TickInv(cfg, r', NextTick(cfg, s.ticks[i], f));
      forall j | 0 <= j < |s.ticks| ensures TickInv(cfg, r', s.ticks[j]) {
        assert TickInv(cfg, r, s.ticks[j]);
      }
    }
  }

  lemma NextInv(cfg: Config, s: State, a: Action)
    requires Inv(cfg, s)
    ensures Inv(cfg, Next(cfg, s, a))
  {
    match a
    case Step(i, f, body) => StepInv(cfg, s, i, f, body);
    case Claim(f) =>
    case Wait(_) =>
    case Crash(i) =>
    case Regenerate =>
    case MarkEmailedByHand =>
    case MarkUploadedByHand =>
  }

  lemma {:induction false} AfterInv(cfg: Config, now: int, h: seq<Action>)
    ensures Inv(cfg, After(cfg, Init(now), h))
    decreases |h|
  {
    if h != [] {
      AfterInv(cfg, now, h[..|h| - 1]);
      NextInv(cfg, After(cfg, Init(now), h[..|h| - 1]), h[|h| - 1]);
    }
  }

  // --- counting emails ---

  ghost function Mailed(): Tick -> bool { (t: Tick) => !t.email.NotSent? }

  ghost function MailedUnrecorded(): Tick -> bool { (t: Tick) => t.email.Unrecorded? }

  ghost function MailedRecorded(): Tick -> bool { (t: Tick) => t.email.Recorded? }

  /** Whether a step puts an email on its way. */
  predicate Mails(cfg: Config, s: State, a: Action) {
    a.Step? && a.i < |s.ticks| && s.run.Some? && s.ticks[a.i].email.NotSent? && !NextTick(cfg, s.ticks[a.i], a.f).email.NotSent?
  }

  lemma MailedAfterNext(cfg: Config, s: State, a: Action)
    ensures Count(Next(cfg, s, a).ticks, Mailed()) == Count(s.ticks, Mailed()) + One(Mails(cfg, s, a))
  {
    match a
    case Claim(f) =>
      if !f.Down? && Claimable(s) {
        var r := Claimed(s);
        CountAfterAppend(s.ticks, Tick(s.now, r.emailed, r.uploaded, if f.Fine? then Build else Over, NotSent, false), Mailed());
      }
    case Step(i, f, body) => if i < |s.ticks| { MailedAfterStep(cfg, s.ticks, i, NextTick(cfg, s.ticks[i], f)); }
    case Crash(i) => if i < |s.ticks| { MailedAfterStep(cfg, s.ticks, i, s.ticks[i].(stage := Over)); }
    case _ =>
  }

  lemma MailedAfterStep(cfg: Config, ticks: seq<Tick>, i: nat, t: Tick)
    requires i < |ticks|
    ensures Count(ticks[i := t], Mailed()) == Count(ticks, Mailed()) - One(!ticks[i].email.NotSent?) + One(!t.email.NotSent?)
  {
    CountAfterUpdate(ticks, i, t, Mailed());
  }

  // --- theorems over every history ---

  /** Ticks claim a day at most 24 times, however often the day is also regenerated by hand, and the row's
      own count is the claims and the regenerations together. */
  lemma ClaimsAreCapped(cfg: Config, now: int, h: seq<Action>)
    ensures var s := After(cfg, Init(now), h);
            && |s.ticks| <= 24
            && (s.run.Some? ==> s.run.value.attempts == |s.ticks| + s.byHand)
  {
    AfterInv(cfg, now, h);
  }

  /** What the row says about a delivery has happened, as long as nobody marked it by hand: the object is in
      the bucket, and some tick's email went out. */
  ghost predicate RowIsTrue(s: State, emailedByHand: bool, uploadedByHand: bool) {
    && (s.run.Some? && s.run.value.uploaded && !uploadedByHand ==> s.stored.Some?)
    && (forall i :: 0 <= i < |s.ticks| && s.ticks[i].stage.RecordStore? ==> s.stored.Some?)
    && (s.run.Some? && s.run.value.emailed && !emailedByHand ==> exists i :: 0 <= i < |s.ticks| && s.ticks[i].email.Recorded?)
  }

  lemma NextKeepsRecorded(cfg: Config, s: State, a: Action, i: nat)
    requires Inv(cfg, s) && i < |s.ticks| && s.ticks[i].email.Recorded?
    ensures i < |Next(cfg, s, a).ticks| && Next(cfg, s, a).ticks[i].email.Recorded?
  {
    assert s.run.Some? ==> TickInv(cfg, s.run.value, s.ticks[i]);
  }

  lemma NextRowIsTrue(cfg: Config, s: State, a: Action, emailedByHand: bool, uploadedByHand: bool)
    requires Inv(cfg, s) && RowIsTrue(s, emailedByHand, uploadedByHand)
    ensures RowIsTrue(Next(cfg, s, a), emailedByHand || a.MarkEmailedByHand?, uploadedByHand || a.MarkUploadedByHand?)
  {
    var s' := Next(cfg, s, a);
    if s.run.Some? && s.run.value.emailed && !emailedByHand {
      var i :| 0 <= i < |s.ticks| && s.ticks[i].email.Recorded?;
      NextKeepsRecorded(cfg, s, a, i);
    } else if s'.run.Some? && s'.run.value.emailed && !emailedByHand && !a.MarkEmailedByHand? {
      assert a.Step? && s'.ticks[a.i].email.Recorded?;
    }
  }

  lemma {:induction false} AfterRowIsTrue(cfg: Config, now: int, h: seq<Action>)
    ensures RowIsTrue(After(cfg, Init(now), h), MarkEmailedByHand in h, MarkUploadedByHand in h)
    decreases |h|
  {
    if h != [] {
      var front, a := h[..|h| - 1], h[|h| - 1];
      AfterRowIsTrue(cfg, now, front);
      AfterInv(cfg, now, front);
      NextRowIsTrue(cfg, After(cfg, Init(now), front), a, MarkEmailedByHand in front, MarkUploadedByHand in front);
      assert h == front + [a];
    }
  }

  /** A day a tick has marked done has every configured delivery recorded, and unless somebody recorded it
      by hand, it has been made: the object is in the bucket and an email went out. A regeneration marks a
      day done before it delivers anything. */
  lemma DoneMeansDelivered(cfg: Config, now: int, h: seq<Action>)
    ensures var s := After(cfg, Init(now), h);
            s.run.Some? && s.run.value.status.Done? && !s.run.value.byHand ==>
              && Delivered(cfg, s.run.value)
              && (cfg.bucket && MarkUploadedByHand !in h ==> s.stored.Some?)
              && (cfg.recipients && MarkEmailedByHand !in h ==> Count(s.ticks, Mailed()) >= 1)
  {
    AfterInv(cfg, now, h);
    AfterRowIsTrue(cfg, now, h);
    var s := After(cfg, Init(now), h);
    if i :| 0 <= i < |s.ticks| && s.ticks[i].email.Recorded? {
      CountPositive(s.ticks, i, Mailed());
    }
  }

  lemma {:induction false} StoredStays(cfg: Config, s: State, later: seq<Action>)
    requires s.stored.Some?
    ensures After(cfg, s, later).stored == s.stored
    decreases |later|
  {
    if later != [] {
      StoredStays(cfg, s, later[..|later| - 1]);
    }
  }

  /** Once the row says that the report is uploaded, and nobody said so by hand, the bucket holds the day's
      object, and it is the same one for good, whatever any tick uploads later. */
  lemma AnUploadedReportIsInTheBucketForGood(cfg: Config, now: int, h: seq<Action>, later: seq<Action>)
    requires var s := After(cfg, Init(now), h); s.run.Some? && s.run.value.uploaded && MarkUploadedByHand !in h
    ensures var s := After(cfg, Init(now), h);
            s.stored.Some? && After(cfg, s, later).stored == s.stored
  {
    AfterRowIsTrue(cfg, now, h);
    StoredStays(cfg, After(cfg, Init(now), h), later);
  }

  /** A mark by hand is about another object, the regenerated one: with it the row can say uploaded while
      the day's own object is not there. */
  lemma AHandMarkSaysNothingAboutTheObject(cfg: Config) returns (h: seq<Action>)
    ensures var s := After(cfg, Init(0), h); s.run.Some? && s.run.value.uploaded && s.stored.None?
  {
    h := Extend(cfg, [], Regenerate);
    h := Extend(cfg, h, MarkUploadedByHand);
  }

  // --- ticks that end within fifteen minutes ---

  /** No tick acts on the day later than fifteen minutes after it claimed it. */
  ghost predicate Prompt(cfg: Config, now: int, h: seq<Action>)
    decreases |h|
  {
    h == [] || (Prompt(cfg, now, h[..|h| - 1]) && PromptStep(After(cfg, Init(now), h[..|h| - 1]), h[|h| - 1]))
  }

  predicate PromptStep(s: State, a: Action) {
    a.Step? && a.i < |s.ticks| ==> s.now <= s.ticks[a.i].started + TAKEOVER
  }

  predicate Live(s: State, i: nat)
    requires i < |s.ticks|
  {
    !s.ticks[i].stage.Over? && s.now <= s.ticks[i].started + TAKEOVER
  }

  /** A live tick holds the day, alone; and if it may still mail, no recorded email is older than it. */
  ghost predicate Holds(s: State, i: nat)
    requires i < |s.ticks| && s.run.Some?
  {
    && (s.run.value.status.Done? || (s.run.value.status.Running? && s.run.value.started == s.ticks[i].started))
    && (forall j :: 0 <= j < |s.ticks| && Live(s, j) ==> j == i)
    && (!s.ticks[i].emailed ==> forall j :: 0 <= j < |s.ticks| && s.ticks[j].email.Recorded? ==> j == i)
  }

  ghost predicate Exclusive(s: State) {
    && (s.run.None? ==> s.ticks == [])
    && (s.run.Some? ==> forall i :: 0 <= i < |s.ticks| && Live(s, i) ==> Holds(s, i))
    && (forall i, j :: 0 <= i < |s.ticks| && 0 <= j < |s.ticks| && s.ticks[i].email.Recorded? && s.ticks[j].email.Recorded? ==> i == j)
  }

  lemma ExclusiveStep(cfg: Config, s: State, i: nat, f: Fault, body: nat)
    requires Inv(cfg, s) && Exclusive(s) && i < |s.ticks| && s.run.Some? && s.now <= s.ticks[i].started + TAKEOVER
    ensures Exclusive(Next(cfg, s, Step(i, f, body)))
  {
    var s' := Next(cfg, s, Step(i, f, body));
    assert TickInv(cfg, s.run.value, s.ticks[i]);
    if s.ticks[i].stage.Over? {
      assert s'.ticks == s.ticks && s' == s;
    } else {
      assert Live(s, i) && Holds(s, i);
      forall j | 0 <= j < |s'.ticks| && Live(s', j) ensures j == i {
        assert Live(s, j);
      }
    }
  }

  lemma ExclusiveClaim(cfg: Config, s: State, f: Fault)
    requires Inv(cfg, s) && Exclusive(s)
    ensures Exclusive(Next(cfg, s, Claim(f)))
  {
    if !f.Down? && Claimable(s) {
      var s' := Next(cfg, s, Claim(f));
      forall j | 0 <= j < |s.ticks| ensures !Live(s', j) && (s.ticks[j].email.Recorded? ==> s'.ticks[|s.ticks|].emailed) {
        assert Live(s, j) ==> Holds(s, j);
        assert s'.ticks[j] == s.ticks[j];
        assert TickInv(cfg, s.run.value, s.ticks[j]);
      }
      forall j | 0 <= j < |s'.ticks| && Live(s', j) ensures Holds(s', j) {
        assert j == |s.ticks|;
      }
    }
  }

  lemma ExclusiveNext(cfg: Config, s: State, a: Action)
    requires Inv(cfg, s) && Exclusive(s) && PromptStep(s, a)
    ensures Exclusive(Next(cfg, s, a))
  {
    var s' := Next(cfg, s, a);
    match a
    case Step(i, f, body) => if i < |s.ticks| && s.run.Some? { ExclusiveStep(cfg, s, i, f, body); }
    case Claim(f) => ExclusiveClaim(cfg, s, f);
    case _ =>
      forall j | 0 <= j < |s'.ticks| && Live(s', j) ensures s.run.Some? && Holds(s', j) {
        assert Live(s, j) && Holds(s, j);
        forall k | 0 <= k < |s'.ticks| && Live(s', k) ensures k == j {
          assert Live(s, k);
        }
      }
  }

  lemma {:induction false} AfterExclusive(cfg: Config, now: int, h: seq<Action>)
    requires Prompt(cfg, now, h)
    ensures Exclusive(After(cfg, Init(now), h))
    decreases |h|
  {
    if h != [] {
      var front := h[..|h| - 1];
      AfterExclusive(cfg, now, front);
      AfterInv(cfg, now, front);
      ExclusiveNext(cfg, After(cfg, Init(now), front), h[|h| - 1]);
    }
  }

  lemma {:induction false} AtMostOneRecorded(ticks: seq<Tick>)
    requires forall i, j :: 0 <= i < |ticks| && 0 <= j < |ticks| && ticks[i].email.Recorded? && ticks[j].email.Recorded? ==> i == j
    ensures Count(ticks, MailedRecorded()) <= 1
    decreases |ticks|
  {
    if ticks != [] {
      var front := ticks[..|ticks| - 1];
      AtMostOneRecorded(front);
      if ticks[|ticks| - 1].email.Recorded? {
        forall t | t in front ensures !MailedRecorded()(t) {
          var i :| 0 <= i < |front| && front[i] == t;
        }
        CountNone(front, MailedRecorded());
      }
    }
  }

  /** Readers get the report once, and once more for each email that was sent but could not be recorded:
      as long as no tick outlives its claim, whatever fails and whichever ticks die. */
  lemma EmailsAreOneAndTheUnrecorded(cfg: Config, now: int, h: seq<Action>)
    requires Prompt(cfg, now, h)
    ensures var ticks := After(cfg, Init(now), h).ticks;
            && Count(ticks, Mailed()) == Count(ticks, MailedUnrecorded()) + Count(ticks, MailedRecorded())
            && Count(ticks, MailedRecorded()) <= 1
  {
    AfterExclusive(cfg, now, h);
    var ticks := After(cfg, Init(now), h).ticks;
    CountSplit(ticks, Mailed(), MailedUnrecorded(), MailedRecorded());
    AtMostOneRecorded(ticks);
  }

  // --- no email after a recorded one ---

  /** With an email recorded by a tick, no prompt step sends another. */
  lemma NoMoreMail(cfg: Config, s: State, a: Action, k: nat)
    requires Inv(cfg, s) && Exclusive(s) && PromptStep(s, a) && k < |s.ticks| && s.ticks[k].email.Recorded?
    ensures !Mails(cfg, s, a)
  {
    if a.Step? && a.i < |s.ticks| && s.run.Some? {
      assert Live(s, a.i) ==> Holds(s, a.i);
    }
  }

  lemma {:induction false} MailStops(cfg: Config, now: int, h: seq<Action>, later: seq<Action>, k: nat)
    requires Prompt(cfg, now, h + later) && k < |After(cfg, Init(now), h).ticks| && After(cfg, Init(now), h).ticks[k].email.Recorded?
    ensures k < |After(cfg, Init(now), h + later).ticks| && After(cfg, Init(now), h + later).ticks[k].email.Recorded?
    ensures Count(After(cfg, Init(now), h + later).ticks, Mailed()) == Count(After(cfg, Init(now), h).ticks, Mailed())
    decreases |later|
  {
    if later == [] {
      assert h + later == h;
    } else {
      var front, a := later[..|later| - 1], later[|later| - 1];
      assert (h + later)[..|h + later| - 1] == h + front;
      MailStops(cfg, now, h, front, k);
      var s := After(cfg, Init(now), h + front);
      AfterInv(cfg, now, h + front);
      AfterExclusive(cfg, now, h + front);
      NoMoreMail(cfg, s, a, k);
      MailedAfterNext(cfg, s, a);
      NextKeepsRecorded(cfg, s, a, k);
    }
  }

  /** Once the row records an email, and nobody recorded it by hand, no email is ever sent again: not by
      later claims, and not by ticks that had claimed the day before, as long as every step is prompt. */
  lemma NoEmailAfterARecordedOne(cfg: Config, now: int, h: seq<Action>, later: seq<Action>)
    requires Prompt(cfg, now, h + later) && MarkEmailedByHand !in h
    requires After(cfg, Init(now), h).run.Some? && After(cfg, Init(now), h).run.value.emailed
    ensures Count(After(cfg, Init(now), h + later).ticks, Mailed()) == Count(After(cfg, Init(now), h).ticks, Mailed())
  {
    AfterRowIsTrue(cfg, now, h);
    var k :| 0 <= k < |After(cfg, Init(now), h).ticks| && After(cfg, Init(now), h).ticks[k].email.Recorded?;
    MailStops(cfg, now, h, later, k);
  }

  /** What a mark by hand does: a prompt step that mails while the row already records an email follows such
      a mark, is of the one tick that holds the day, which claimed it before the mark, and is the first
      recorded or unrecorded email of that tick; no tick had recorded one. */
  lemma AnEmailAfterTheRecordFollowsAHandMark(cfg: Config, now: int, h: seq<Action>, a: Action)
    requires Prompt(cfg, now, h) && PromptStep(After(cfg, Init(now), h), a) && Mails(cfg, After(cfg, Init(now), h), a)
    requires After(cfg, Init(now), h).run.value.emailed
    ensures var s := After(cfg, Init(now), h);
            && MarkEmailedByHand in h && !s.ticks[a.i].emailed
            && (forall j :: 0 <= j < |s.ticks| && Live(s, j) ==> j == a.i)
            && (forall j :: 0 <= j < |s.ticks| ==> !s.ticks[j].email.Recorded?)
  {
    AfterInv(cfg, now, h);
    AfterExclusive(cfg, now, h);
    AfterRowIsTrue(cfg, now, h);
    var s := After(cfg, Init(now), h);
    forall k | 0 <= k < |s.ticks| ensures !s.ticks[k].email.Recorded? {
      if s.ticks[k].email.Recorded? {
        NoMoreMail(cfg, s, a, k);
        assert false;
      }
    }
    assert Live(s, a.i) && Holds(s, a.i);
  }

  /** And there is such a step: the mark falls between a tick's claim and its email. */
  lemma AHandMarkDoesNotStopATick(cfg: Config) returns (h: seq<Action>, a: Action)
    requires cfg.recipients && cfg.mailer
    ensures Prompt(cfg, 0, h) && PromptStep(After(cfg, Init(0), h), a)
    ensures Mails(cfg, After(cfg, Init(0), h), a) && After(cfg, Init(0), h).run.value.emailed
  {
    h := ExtendPromptly(cfg, [], Claim(Fine));
    h := ExtendPromptly(cfg, h, Step(0, Fine, 0));
    h := ExtendPromptly(cfg, h, MarkEmailedByHand);
    a := Step(0, Fine, 0);
  }

  lemma ExtendPromptly(cfg: Config, h: seq<Action>, a: Action) returns (h': seq<Action>)
    requires Prompt(cfg, 0, h) && PromptStep(After(cfg, Init(0), h), a)
    ensures h' == h + [a] && Prompt(cfg, 0, h') && After(cfg, Init(0), h') == Next(cfg, After(cfg, Init(0), h), a)
  {
    h' := Extend(cfg, h, a);
    assert h'[..|h|] == h;
  }

  lemma Extend(cfg: Config, h: seq<Action>, a: Action) returns (h': seq<Action>)
    ensures h' == h + [a] && After(cfg, Init(0), h') == Next(cfg, After(cfg, Init(0), h), a)
  {
    h' := h + [a];
    AfterOne(cfg, Init(0), h, a);
  }

  // --- a finish that comes late ---

  const SWEEP_BUDGET := 120

  /** All a tick does ends with its sweep's budget, but for the record of how it ended, which is written
      even after that. */
  predicate BudgetedStep(s: State, a: Action) {
    a.Step? && a.i < |s.ticks| && !s.ticks[a.i].stage.Finish? ==> s.now <= s.ticks[a.i].started + SWEEP_BUDGET
  }

  ghost predicate Budgeted(cfg: Config, h: seq<Action>)
    decreases |h|
  {
    h == [] || (Budgeted(cfg, h[..|h| - 1]) && BudgetedStep(After(cfg, Init(0), h[..|h| - 1]), h[|h| - 1]))
  }

  lemma ExtendInBudget(cfg: Config, h: seq<Action>, a: Action) returns (h': seq<Action>)
    requires Budgeted(cfg, h) && BudgetedStep(After(cfg, Init(0), h), a)
    ensures h' == h + [a] && Budgeted(cfg, h') && After(cfg, Init(0), h') == Next(cfg, After(cfg, Init(0), h), a)
  {
    h' := Extend(cfg, h, a);
    assert h'[..|h|] == h;
  }

  /** A tick whose email failed has its record of that still to write. */
  lemma FailedButNotRecorded(cfg: Config) returns (h: seq<Action>)
    requires cfg.recipients && cfg.mailer
    ensures Budgeted(cfg, h)
    ensures After(cfg, Init(0), h) ==
            State(0, Some(Run(Running, 0, 1, false, false, false)), None, [Tick(0, false, false, Finish, NotSent, true)], 0)
  {
    var row := Some(Run(Running, 0, 1, false, false, false));
    h := ExtendInBudget(cfg, [], Claim(Fine));
    h := ExtendInBudget(cfg, h, Step(0, Fine, 0));
    assert After(cfg, Init(0), h) == State(0, row, None, [Tick(0, false, false, Mail, NotSent, false)], 0);
    h := ExtendInBudget(cfg, h, Step(0, Down, 0));
    assert After(cfg, Init(0), h) == State(0, row, None, [Tick(0, false, false, Store, NotSent, true)], 0);
    h := ExtendInBudget(cfg, h, Step(0, Down, 0));
  }

  /** Fifteen minutes on, a second tick has taken the day over and its email is on the way. */
  lemma TakenOver(cfg: Config) returns (h: seq<Action>)
    requires cfg.recipients && cfg.mailer
    ensures Budgeted(cfg, h)
    ensures After(cfg, Init(0), h) ==
            State(901, Some(Run(Running, 901, 2, false, false, false)), None,
                  [Tick(0, false, false, Finish, NotSent, true), Tick(901, false, false, RecordMail, Unrecorded, false)], 0)
  {
    h := FailedButNotRecorded(cfg);
    var first := Tick(0, false, false, Finish, NotSent, true);
    var row := Some(Run(Running, 901, 2, false, false, false));
    h := ExtendInBudget(cfg, h, Wait(TAKEOVER + 1));
    h := ExtendInBudget(cfg, h, Claim(Fine));
    assert After(cfg, Init(0), h) == State(901, row, None, [first, Tick(901, false, false, Build, NotSent, false)], 0);
    h := ExtendInBudget(cfg, h, Step(1, Fine, 0));
    assert After(cfg, Init(0), h) == State(901, row, None, [first, Tick(901, false, false, Mail, NotSent, false)], 0);
    h := ExtendInBudget(cfg, h, Step(1, Fine, 0));
  }

  /** Then the first tick's late record frees the row, and a third tick claims the day and mails as well. */
  lemma FreedByALateFinish(cfg: Config) returns (h: seq<Action>)
    requires cfg.recipients && cfg.mailer
    ensures Budgeted(cfg, h) && !Prompt(cfg, 0, h)
    ensures After(cfg, Init(0), h) ==
            State(901, Some(Run(Running, 901, 3, false, false, false)), None,
                  [Tick(0, false, false, Over, NotSent, true), Tick(901, false, false, RecordMail, Unrecorded, false),
                   Tick(901, false, false, RecordMail, Unrecorded, false)], 0)
  {
    h := TakenOver(cfg);
    var first, second := Tick(0, false, false, Over, NotSent, true), Tick(901, false, false, RecordMail, Unrecorded, false);
    var row := Some(Run(Running, 901, 3, false, false, false));
    ALateStepIsNotPrompt(cfg, h, Step(0, Fine, 0));
    h := ExtendInBudget(cfg, h, Step(0, Fine, 0));
    NotPromptEither(cfg, h, Claim(Fine));
    h := ExtendInBudget(cfg, h, Claim(Fine));
    assert After(cfg, Init(0), h) == State(901, row, None, [first, second, Tick(901, false, false, Build, NotSent, false)], 0);
    NotPromptEither(cfg, h, Step(2, Fine, 0));
    h := ExtendInBudget(cfg, h, Step(2, Fine, 0));
    assert After(cfg, Init(0), h) == State(901, row, None, [first, second, Tick(901, false, false, Mail, NotSent, false)], 0);
    NotPromptEither(cfg, h, Step(2, Fine, 0));
    h := ExtendInBudget(cfg, h, Step(2, Fine, 0));
  }

  lemma ALateStepIsNotPrompt(cfg: Config, h: seq<Action>, a: Action)
    requires !PromptStep(After(cfg, Init(0), h), a)
    ensures !Prompt(cfg, 0, h + [a])
  {
    assert (h + [a])[..|h|] == h;
  }

  lemma NotPromptEither(cfg: Config, h: seq<Action>, a: Action)
    requires !Prompt(cfg, 0, h)
    ensures !Prompt(cfg, 0, h + [a])
  {
    assert (h + [a])[..|h|] == h;
  }

  /** So a record written late is enough for two emails, both recorded, although every other step of every
      tick is within its sweep's budget. */
  lemma ALateFinishMailsTwice(cfg: Config) returns (h: seq<Action>)
    requires cfg.recipients && cfg.mailer
    ensures var ticks := After(cfg, Init(0), h).ticks;
            |ticks| == 3 && ticks[1].email.Recorded? && ticks[2].email.Recorded?
    ensures Budgeted(cfg, h) && !Prompt(cfg, 0, h)
  {
    h := FreedByALateFinish(cfg);
    NotPromptEither(cfg, h, Step(1, Fine, 0));
    h := ExtendInBudget(cfg, h, Step(1, Fine, 0));
    var s := After(cfg, Init(0), h);
    assert s.now == 901 && |s.ticks| == 3 && s.ticks[2] == Tick(901, false, false, RecordMail, Unrecorded, false);
    NotPromptEither(cfg, h, Step(2, Fine, 0));
    h := ExtendInBudget(cfg, h, Step(2, Fine, 0));
  }

  // --- exactly when two emails can be recorded ---

  /** A tick whose email is recorded or still can be. */
  predicate MayRecord(t: Tick) {
    t.email.Recorded? || (!t.emailed && t.stage in {Build, Mail, RecordMail})
  }

  /** Two ticks may each record an email of the day. */
  ghost predicate Crowded(s: State) {
    exists i, j :: 0 <= i < j < |s.ticks| && MayRecord(s.ticks[i]) && MayRecord(s.ticks[j])
  }

  ghost predicate TwoRecorded(s: State) {
    exists i, j :: 0 <= i < j < |s.ticks| && s.ticks[i].email.Recorded? && s.ticks[j].email.Recorded?
  }

  ghost predicate NoClaims(h: seq<Action>) {
    forall a :: a in h ==> !a.Claim?
  }

  /** Only a claim lets one more tick record an email. */
  lemma MayRecordBefore(cfg: Config, s: State, a: Action, i: nat)
    requires Inv(cfg, s) && !a.Claim? && i < |Next(cfg, s, a).ticks| && MayRecord(Next(cfg, s, a).ticks[i])
    ensures i < |s.ticks| && MayRecord(s.ticks[i])
  {
    assert s.run.Some? ==> TickInv(cfg, s.run.value, s.ticks[i]);
  }

  lemma {:induction false} CrowdedBefore(cfg: Config, s: State, later: seq<Action>, i: nat)
    requires Inv(cfg, s) && NoClaims(later)
    ensures Inv(cfg, After(cfg, s, later))
    ensures i < |After(cfg, s, later).ticks| && MayRecord(After(cfg, s, later).ticks[i]) ==> i < |s.ticks| && MayRecord(s.ticks[i])
    decreases |later|
  {
    if later != [] {
      var front, a := later[..|later| - 1], later[|later| - 1];
      assert a in later;
      CrowdedBefore(cfg, s, front, i);
      NextInv(cfg, After(cfg, s, front), a);
      if i < |After(cfg, s, later).ticks| && MayRecord(After(cfg, s, later).ticks[i]) {
        MayRecordBefore(cfg, After(cfg, s, front), a, i);
      }
    }
  }

  /** How many calls a tick is from having its email recorded. */
  function CallsToRecord(t: Tick): nat {
    match t.stage
    case Build => 3
    case Mail => 2
    case RecordMail => 1
    case _ => 0
  }

  lemma AfterBoth(cfg: Config, s: State, a: Action, later: seq<Action>)
    ensures After(cfg, s, [a] + later) == After(cfg, Next(cfg, s, a), later)
    decreases |later|
  {
    if later == [] {
      assert ([a] + later)[..0] == [];
    } else {
      AfterBoth(cfg, s, a, later[..|later| - 1]);
      assert ([a] + later)[..|later|] == [a] + later[..|later| - 1];
    }
  }

  /** A tick that may record its email does, if its next calls succeed; nothing of another tick changes. */
  lemma {:induction false} RecordIt(cfg: Config, s: State, i: nat) returns (later: seq<Action>)
    requires cfg.recipients && cfg.mailer && Inv(cfg, s) && i < |s.ticks| && MayRecord(s.ticks[i])
    ensures NoClaims(later) && Inv(cfg, After(cfg, s, later))
    ensures var s' := After(cfg, s, later);
            && |s'.ticks| == |s.ticks| && s'.ticks[i].email.Recorded?
            && forall j :: 0 <= j < |s.ticks| && j != i ==> s'.ticks[j] == s.ticks[j]
    decreases CallsToRecord(s.ticks[i])
  {
    if s.ticks[i].email.Recorded? {
      later := [];
    } else {
      var a := Step(i, Fine, 0);
      assert TickInv(cfg, s.run.value, s.ticks[i]);
      NextInv(cfg, s, a);
      var rest := RecordIt(cfg, Next(cfg, s, a), i);
      later := [a] + rest;
      AfterBoth(cfg, s, a, rest);
    }
  }

  /** In every state: two ticks may record an email exactly when the day can end with two recorded ones
      without anybody claiming it again. */
  lemma TwoEmailsExactlyWhenCrowded(cfg: Config, now: int, h: seq<Action>)
    requires cfg.recipients && cfg.mailer
    ensures var s := After(cfg, Init(now), h);
            Crowded(s) <==> exists later :: NoClaims(later) && TwoRecorded(After(cfg, s, later))
  {
    AfterInv(cfg, now, h);
    var s := After(cfg, Init(now), h);
    if Crowded(s) {
      var i, j :| 0 <= i < j < |s.ticks| && MayRecord(s.ticks[i]) && MayRecord(s.ticks[j]);
      var one := RecordIt(cfg, s, i);
      var two := RecordIt(cfg, After(cfg, s, one), j);
      AfterJoined(cfg, s, one, two);
      assert TwoRecorded(After(cfg, s, one + two));
      assert NoClaims(one + two);
    }
    if later :| NoClaims(later) && TwoRecorded(After(cfg, s, later)) {
      var i, j :| 0 <= i < j < |After(cfg, s, later).ticks|
        && After(cfg, s, later).ticks[i].email.Recorded? && After(cfg, s, later).ticks[j].email.Recorded?;
      CrowdedBefore(cfg, s, later, i);
      CrowdedBefore(cfg, s, later, j);
    }
  }

  lemma {:induction false} AfterJoined(cfg: Config, s: State, one: seq<Action>, two: seq<Action>)
    ensures After(cfg, s, one + two) == After(cfg, After(cfg, s, one), two)
    decreases |two|
  {
    if two == [] {
      assert one + two == one;
    } else {
      AfterJoined(cfg, s, one, two[..|two| - 1]);
      assert (one + two)[..|one + two| - 1] == one + two[..|two| - 1];
    }
  }

  /** What a claim can look at before it is made: the row records no email, and the email of a tick that
      claimed it before is recorded or on its way. */
  ghost predicate ClaimWouldCrowd(s: State) {
    s.run.Some? && !s.run.value.emailed && exists i :: 0 <= i < |s.ticks| && MayRecord(s.ticks[i])
  }

  /** Exactly the claims that crowd a day: those made while an email of an earlier tick may still be recorded
      and none is. */
  lemma WhenAClaimCrowdsTheDay(cfg: Config, s: State)
    requires Inv(cfg, s) && Claimable(s) && !Crowded(s)
    ensures Crowded(Next(cfg, s, Claim(Fine))) <==> ClaimWouldCrowd(s)
    ensures !Crowded(Next(cfg, s, Claim(Lost)))
  {
    var s' := Next(cfg, s, Claim(Fine));
    var n := |s.ticks|;
    assert s'.ticks[n] == Tick(s.now, Claimed(s).emailed, Claimed(s).uploaded, Build, NotSent, false);
    if ClaimWouldCrowd(s) {
      var i :| 0 <= i < n && MayRecord(s.ticks[i]);
      assert MayRecord(s'.ticks[i]) && MayRecord(s'.ticks[n]);
    }
  }

  /** So two emails of a day are recorded only if some claim was made while an earlier tick's email was on
      its way and the row recorded none. */
  lemma {:induction false} TwoEmailsFollowACrowdingClaim(cfg: Config, now: int, h: seq<Action>)
    requires Crowded(After(cfg, Init(now), h))
    ensures exists k :: 0 <= k < |h| && h[k].Claim? && ClaimWouldCrowd(After(cfg, Init(now), h[..k]))
    decreases |h|
  {
    if h != [] {
      var n := |h| - 1;
      var s := After(cfg, Init(now), h[..n]);
      AfterInv(cfg, now, h[..n]);
      if Crowded(s) {
        TwoEmailsFollowACrowdingClaim(cfg, now, h[..n]);
        var k :| 0 <= k < n && h[..n][k].Claim? && ClaimWouldCrowd(After(cfg, Init(now), h[..n][..k]));
        assert h[..n][..k] == h[..k] && h[k].Claim?;
      } else if h[n].Claim? && Claimable(s) {
        WhenAClaimCrowdsTheDay(cfg, s);
      } else if !h[n].Claim? {
        var i, j :| 0 <= i < j < |Next(cfg, s, h[n]).ticks| && MayRecord(Next(cfg, s, h[n]).ticks[i]) && MayRecord(Next(cfg, s, h[n]).ticks[j]);
        MayRecordBefore(cfg, s, h[n], i);
        MayRecordBefore(cfg, s, h[n], j);
        assert false;
      }
    }
  }

  /** And without such a claim readers get the report once, and once more for each email that could not be
      recorded, however late any step comes. */
  lemma EmailsAreOneUnlessAClaimCrowds(cfg: Config, now: int, h: seq<Action>)
    requires forall k :: 0 <= k < |h| && h[k].Claim? ==> !ClaimWouldCrowd(After(cfg, Init(now), h[..k]))
    ensures var ticks := After(cfg, Init(now), h).ticks;
            && Count(ticks, Mailed()) == Count(ticks, MailedUnrecorded()) + Count(ticks, MailedRecorded())
            && Count(ticks, MailedRecorded()) <= 1
  {
    var ticks := After(cfg, Init(now), h).ticks;
    CountSplit(ticks, Mailed(), MailedUnrecorded(), MailedRecorded());
    if Crowded(After(cfg, Init(now), h)) {
      TwoEmailsFollowACrowdingClaim(cfg, now, h);
    }
    forall i, j | 0 <= i < |ticks| && 0 <= j < |ticks| && ticks[i].email.Recorded? && ticks[j].email.Recorded? ensures i == j {
      assert MayRecord(ticks[i]) && MayRecord(ticks[j]);
    }
    AtMostOneRecorded(ticks);
  }

  /** Regenerating a day takes its row past 24 attempts, though never its claims. */
  lemma {:induction false} RegenerationPassesTheCap(cfg: Config, n: nat) returns (h: seq<Action>)
    requires n >= 1
    ensures var s := After(cfg, Init(0), h); s.run.Some? && s.run.value.attempts == n && s.ticks == []
  {
    if n == 1 {
      h := Extend(cfg, [], Regenerate);
    } else {
      h := RegenerationPassesTheCap(cfg, n - 1);
      h := Extend(cfg, h, Regenerate);
    }
  }
}
