/** The report sweep's own code over one day's row, the bucket and the mailer, call by call. */
module DailyReportService {
  import opened Prelude
  import opened DailyReport
  import Retention

  const REPORT_HOUR := 6

  /** After six in the morning in Colombo, the day to report is yesterday. */
  predicate ReportDue(now: int, day: int) {
    var local := now + Retention.COLOMBO_OFFSET;
    local % Retention.DAY / 3600 >= REPORT_HOUR && local / Retention.DAY - 1 == day
  }

  datatype Problem = NoMailer | EmailFailed | EmailUnrecorded | UploadFailed | UploadUnrecorded

  class Sweeper {
    const cfg: Config
    const day: int
    const from: int
    var now: int
    var run: Option<Run>
    var stored: Option<nat>
    var mailbox: nat   // emails that have reached the recipients, other than by hand
    var ticks: seq<Tick>
    var byHand: nat
    ghost var log: seq<Action>

    function View(): State
      reads this
    {
      State(now, run, stored, ticks, byHand)
    }

    ghost predicate Valid()
      reads this
    {
      View() == After(cfg, Init(from), log) && mailbox == Count(ticks, Mailed())
    }

    constructor (config: Config, reportDay: int, start: int)
      ensures Valid() && cfg == config && day == reportDay && View() == Init(start)
    {
      cfg, day, from, now := config, reportDay, start, start;
      run, stored, mailbox := None, None, 0;
      ticks, byHand, log := [], 0, [];
    }

    // --- one call each ---

    method ClaimReportRun() returns (claim: Option<Run>, f: Fault)
      modifies this`run
      ensures claim == (if f.Fine? && old(Claimable(View())) then run else None)
      ensures run == if !f.Down? && old(Claimable(View())) then Some(old(Claimed(View()))) else old(run)
    {
      var fault: Fault := *;
      f, claim := fault, None;
      if !fault.Down? {
        if run.None? {
          run := Some(Run(Running, now, 1, false, false, false));
          claim := if f.Fine? then run else None;
        } else if run.value.attempts < MAX_REPORT_ATTEMPTS
                  && (run.value.status.Failed? || (run.value.status.Running? && run.value.started < now - TAKEOVER)) {
          run := Some(run.value.(status := Running, started := now, attempts := run.value.attempts + 1, byHand := false));
          claim := if f.Fine? then run else None;
        }
      }
    }

    method MarkReportEmailed() returns (f: Fault)
      requires run.Some?
      modifies this`run
      ensures run == if f.Down? then old(run) else Some(old(run).value.(emailed := true))
    {
      var fault: Fault := *;
      f := fault;
      run := if f.Down? then run else Some(run.value.(emailed := true));
    }

    method MarkReportUploaded() returns (f: Fault)
      requires run.Some?
      modifies this`run
      ensures run == if f.Down? then old(run) else Some(old(run).value.(uploaded := true))
    {
      var fault: Fault := *;
      f := fault;
      run := if f.Down? then run else Some(run.value.(uploaded := true));
    }

    method FinishReportRun(status: Status) returns (f: Fault)
      requires run.Some?
      modifies this`run
      ensures run == if f.Down? then old(run) else Some(old(run).value.(status := status, byHand := false))
    {
      var fault: Fault := *;
      f := fault;
      run := if f.Down? then run else Some(run.value.(status := status, byHand := false));
    }

    method SendReport() returns (f: Fault)
      modifies this`mailbox
      ensures mailbox == old(mailbox) + One(!f.Down?)
    {
      var fault: Fault := *;
      f := fault;
      mailbox := mailbox + One(!f.Down?);
    }

    method Upload(body: nat) returns (f: Fault)
      modifies this`stored
      ensures stored == if f.Down? || old(stored).Some? then old(stored) else Some(body)
    {
      var fault: Fault := *;
      f := fault;
      if !f.Down? && stored.None? {
        stored := Some(body);
      }
    }

    // --- history ---

    /** Writes down the step the last call made in state `s`. */
    method Note(s: State, a: Action)
      requires s == After(cfg, Init(from), log) && s.ticks == ticks && s.byHand == byHand
      requires Next(cfg, s, a).run == run && Next(cfg, s, a).stored == stored && Next(cfg, s, a).now == now
      requires mailbox == Count(s.ticks, Mailed()) + One(Mails(cfg, s, a))
      modifies this`ticks, this`byHand, this`log
      ensures Valid() && log == old(log) + [a] && View() == Next(cfg, s, a)
    {
      MailedAfterNext(cfg, s, a);
      AfterOne(cfg, Init(from), log, a);
      ticks, byHand, log := Next(cfg, s, a).ticks, Next(cfg, s, a).byHand, log + [a];
    }

    /** The same for a step of tick `i`. */
    method NoteStep(s: State, i: nat, f: Fault, body: nat)
      requires s == After(cfg, Init(from), log) && i < |s.ticks| && s.run.Some? && run.Some?
      requires s.ticks == ticks && s.byHand == byHand && s.now == now
      requires run.value == NextRun(s.run.value, s.ticks[i], f) && stored == NextStored(cfg, s.stored, s.ticks[i], f, body)
      requires mailbox == Count(s.ticks, Mailed()) + One(Mails(cfg, s, Step(i, f, body)))
      modifies this`ticks, this`byHand, this`log
      ensures Valid() && log == old(log) + [Step(i, f, body)] && |ticks| == |s.ticks|
      ensures ticks[i] == NextTick(cfg, s.ticks[i], f)
    {
      Note(s, Step(i, f, body));
    }

    /** Other ticks, crashes of theirs, the clock and regenerations by hand: nothing that tick `i` does. */
    method Others(i: nat)
      requires Valid() && i < |ticks|
      modifies this
      ensures Valid() && old(log) <= log && i < |ticks| && ticks[i] == old(ticks)[i] && run.Some?
    {
      AfterInv(cfg, from, log);
      var steps: nat := *;
      while steps > 0
        invariant Valid() && old(log) <= log && i < |ticks| && ticks[i] == old(ticks)[i] && run.Some?
      {
        var a: Action := *;
        if !((a.Step? || a.Crash?) && a.i == i) {
          var s := View();
          var s' := Next(cfg, s, a);
          now, run, stored, mailbox := s'.now, s'.run, s'.stored, mailbox + One(Mails(cfg, s, a));
          Note(s, a);
        }
        steps := steps - 1;
      }
    }

    // --- report_run.go ---

    /** Delivers what the claim says is still to be delivered, and says what failed. */
    method DeliverReport(i: nat, emailed: bool, uploaded: bool, body: nat) returns (problems: seq<Problem>)
      requires Valid() && i < |ticks| && run.Some? && ticks[i].stage.Mail? && ticks[i].emailed == emailed && ticks[i].uploaded == uploaded
      requires !ticks[i].problem
      modifies this
      ensures Valid() && old(log) <= log && i < |ticks| && run.Some?
      ensures ticks[i].stage.Finish? && ticks[i].problem == (problems != [])
    {
      problems := DeliverEmail(i, emailed);
      var more := DeliverUpload(i, uploaded, body);
      problems := problems + more;
    }

    method DeliverEmail(i: nat, emailed: bool) returns (problems: seq<Problem>)
      requires Valid() && i < |ticks| && run.Some? && ticks[i].stage.Mail? && ticks[i].emailed == emailed && !ticks[i].problem
      modifies this
      ensures Valid() && old(log) <= log && i < |ticks| && run.Some?
      ensures ticks[i].stage.Store? && ticks[i].uploaded == old(ticks)[i].uploaded && ticks[i].problem == (problems != [])
    {
      Others(i);
      AfterInv(cfg, from, log);
      assert TickInv(cfg, run.value, ticks[i]);
      problems := [];
      var s := View();
      if !cfg.recipients || emailed {
        NoteStep(s, i, Fine, 0);
        return;
      }
      if !cfg.mailer {
        NoteStep(s, i, Fine, 0);
        return [NoMailer];
      }
      var f := SendReport();
      NoteStep(s, i, f, 0);
      if f.Fine? {
        problems := RecordEmail(i);
      } else {
        problems := [EmailFailed];
      }
    }

    method RecordEmail(i: nat) returns (problems: seq<Problem>)
      requires Valid() && i < |ticks| && run.Some? && ticks[i].stage.RecordMail? && !ticks[i].problem
      modifies this
      ensures Valid() && old(log) <= log && i < |ticks| && run.Some?
      ensures ticks[i].stage.Store? && ticks[i].uploaded == old(ticks)[i].uploaded && ticks[i].problem == (problems != [])
    {
      Others(i);
      AfterInv(cfg, from, log);
      assert TickInv(cfg, run.value, ticks[i]);
      var s := View();
      var f := MarkReportEmailed();
      NoteStep(s, i, f, 0);
      problems := if f.Fine? then [] else [EmailUnrecorded];
    }

    method DeliverUpload(i: nat, uploaded: bool, body: nat) returns (problems: seq<Problem>)
      requires Valid() && i < |ticks| && run.Some? && ticks[i].stage.Store? && ticks[i].uploaded == uploaded
      modifies this
      ensures Valid() && old(log) <= log && i < |ticks| && run.Some?
      ensures ticks[i].stage.Finish? && ticks[i].problem == (old(ticks)[i].problem || problems != [])
    {
      Others(i);
      problems := [];
      var s := View();
      if !cfg.bucket || uploaded {
        NoteStep(s, i, Fine, body);
        return;
      }
      var f := Upload(body);
      NoteStep(s, i, f, body);
      if f.Fine? {
        problems := RecordUpload(i);
      } else {
        problems := [UploadFailed];
      }
    }

    method RecordUpload(i: nat) returns (problems: seq<Problem>)
      requires Valid() && i < |ticks| && run.Some? && ticks[i].stage.RecordStore?
      modifies this
      ensures Valid() && old(log) <= log && i < |ticks| && run.Some?
      ensures ticks[i].stage.Finish? && ticks[i].problem == (old(ticks)[i].problem || problems != [])
    {
      Others(i);
      var s := View();
      var f := MarkReportUploaded();
      NoteStep(s, i, f, 0);
      problems := if f.Fine? then [] else [UploadUnrecorded];
    }

    /** Records how the run ended; that this fails is only logged. */
    method FinishReport(i: nat, status: Status)
      requires Valid() && i < |ticks| && run.Some? && ticks[i].stage.Finish?
      requires status == if ticks[i].problem then Failed else Done
      modifies this
      ensures Valid() && old(log) <= log && i < |ticks| && run.Some?
      ensures ticks[i] == old(ticks)[i].(stage := Over)
      ensures status.Done? ==> Delivered(cfg, run.value)
    {
      Others(i);
      AfterInv(cfg, from, log);
      assert TickInv(cfg, run.value, ticks[i]);
      var s := View();
      var f := FinishReportRun(status);
      NoteStep(s, i, f, 0);
    }

    /** Claims the day; a claim whose answer is lost holds it all the same. */
    method ClaimDay() returns (i: nat, claim: Option<Run>, failed: bool)
      requires Valid()
      modifies this
      ensures Valid() && old(log) <= log
      ensures claim.None? && !failed ==> !old(Claimable(View()))
      ensures claim.Some? ==> i < |ticks| && run.Some? && ticks[i].stage.Build? && !ticks[i].problem
                              && ticks[i].emailed == claim.value.emailed && ticks[i].uploaded == claim.value.uploaded
    {
      var s := View();
      var f;
      claim, f := ClaimReportRun();
      i, failed := |ticks|, !f.Fine?;
      Note(s, Claim(f));
    }

    /** Reports one day finished only when every configured delivery of it is recorded; before the report
        hour, or for a day it cannot claim, it does nothing. `mine` is the claim it made. */
    method SweepReport(body: nat) returns (made: nat, failed: bool, ghost mine: Option<nat>)
      requires Valid()
      modifies this
      ensures Valid() && old(log) <= log && made <= 1
      ensures made == 1 ==> run.Some? && Delivered(cfg, run.value)
      ensures mine.Some? ==> mine.value < |ticks| && ticks[mine.value].stage.Over?
      ensures made == 1 <==> mine.Some? && !ticks[mine.value].problem
      ensures !ReportDue(old(now), day) ==> log == old(log) && made == 0 && !failed
      ensures ReportDue(old(now), day) && old(Claimable(View())) && !failed ==> mine.Some?
      ensures mine.Some? ==> Built(old(log), log, mine.value, failed)
    {
      if !ReportDue(now, day) {
        return 0, false, None;
      }
      var i, claim, down := ClaimDay();
      if claim.None? {
        return 0, down, None;
      }
      made, failed := BuildAndDeliver(i, claim.value.emailed, claim.value.uploaded, body);
      mine := Some(i);
    }

    /** Step `k` is the build of tick `i`, which fails or not. */
    ghost predicate Builds(h: seq<Action>, k: nat, i: nat, failed: bool) {
      k < |h| && h[k].Step? && h[k].i == i && (failed <==> !h[k].f.Fine?)
      && i < |After(cfg, Init(from), h[..k]).ticks| && After(cfg, Init(from), h[..k]).ticks[i].stage.Build?
    }

    ghost predicate Built(before: seq<Action>, h: seq<Action>, i: nat, failed: bool) {
      exists k :: |before| <= k < |h| && Builds(h, k, i, failed)
    }

    /** What a tick does with a day it has claimed. */
    method BuildAndDeliver(i: nat, emailed: bool, uploaded: bool, body: nat) returns (made: nat, failed: bool)
      requires Valid() && i < |ticks| && run.Some?
      requires ticks[i].stage.Build? && !ticks[i].problem && ticks[i].emailed == emailed && ticks[i].uploaded == uploaded
      modifies this
      ensures Valid() && old(log) <= log && made <= 1
      ensures made == 1 ==> run.Some? && Delivered(cfg, run.value)
      ensures i < |ticks| && ticks[i].stage.Over? && (made == 1 <==> !ticks[i].problem)
      ensures Built(old(log), log, i, failed)
    {
      var built := Build(i);
      ghost var after := log;
      if !built {
        FinishReport(i, Failed);
        BuiltBefore(old(log), after, log, i, true);
        return 0, true;
      }
      var problems := DeliverReport(i, emailed, uploaded, body);
      FinishReport(i, if problems == [] then Done else Failed);
      made, failed := if problems == [] then 1 else 0, false;
      BuiltBefore(old(log), after, log, i, false);
    }

    /** The report's first call: nothing is delivered unless it succeeds. */
    method Build(i: nat) returns (built: bool)
      requires Valid() && i < |ticks| && run.Some? && ticks[i].stage.Build? && !ticks[i].problem
      modifies this
      ensures Valid() && old(log) <= log && i < |ticks| && run.Some?
      ensures ticks[i] == if built then old(ticks)[i].(stage := Mail) else old(ticks)[i].(stage := Finish, problem := true)
      ensures Built(old(log), log, i, !built)
    {
      Others(i);
      ghost var before := log;
      var fault: Fault := *;
      NoteStep(View(), i, fault, 0);
      built := fault.Fine?;
      assert log[..|before|] == before;
      assert Builds(log, |before|, i, !built);
    }

    lemma BuiltBefore(before: seq<Action>, h: seq<Action>, h': seq<Action>, i: nat, failed: bool)
      requires h <= h' && Built(before, h, i, failed)
      ensures Built(before, h', i, failed)
    {
      var k :| |before| <= k < |h| && Builds(h, k, i, failed);
      assert h'[..k] == h[..k];
      assert Builds(h', k, i, failed);
    }
  }
}
