/** The verification service's own code over its store, call by call. Between any two store
    calls other requests may run, and any store call may fail; `Valid` says that what has
    happened so far is a history of the protocol, so every theorem about histories holds here. */
module OtpService {
  import opened Prelude
  import opened OtpProtocol

  class Service {
    // the store
    var guessed: map<Key, nat>
    var sent: map<Key, nat>
    var rows: map<Slot, Row>
    var codes: seq<nat>
    // every request so far, and the history
    var guesses: seq<Guess>
    var sends: seq<Send>
    ghost var log: seq<Action>

    function View(): State
      reads this
    {
      State(guessed, sent, rows, codes, guesses, sends)
    }

    ghost predicate Valid()
      reads this
    {
      View() == After(Init, log)
    }

    constructor ()
      ensures Valid() && View() == Init
    {
      guessed, sent, rows, codes := map[], map[], map[], [];
      guesses, sends, log := [], [], [];
    }

    // --- the repositories' atomic statements ---

    method TakeGuess(key: Key, cap: nat) returns (ok: bool, failed: bool, f: Fault)
      modifies this`guessed
      ensures guessed == Take(old(guessed), key, cap, f)
      ensures ok <==> f.Fine? && Used(old(guessed), key) < cap
      ensures failed <==> !f.Fine?
    {
      var fault: Fault := *;
      var used := if key in guessed then guessed[key] else 0;
      ok, failed, f := used < cap && fault.Fine?, !fault.Fine?, fault;
      if used < cap && !fault.Down? {
        guessed := guessed[key := used + 1];
      }
    }

    method RefundGuess(key: Key) returns (f: Fault)
      modifies this`guessed
      ensures guessed == Refund(old(guessed), key, f)
    {
      var fault: Fault := *;
      f := fault;
      if !fault.Down? && key in guessed && guessed[key] > 0 {
        guessed := guessed[key := guessed[key] - 1];
      }
    }

    method TakeSend(key: Key, cap: nat) returns (ok: bool, failed: bool, f: Fault)
      modifies this`sent
      ensures sent == Take(old(sent), key, cap, f)
      ensures ok <==> f.Fine? && Used(old(sent), key) < cap
      ensures failed <==> !f.Fine?
    {
      var fault: Fault := *;
      var used := if key in sent then sent[key] else 0;
      ok, failed, f := used < cap && fault.Fine?, !fault.Fine?, fault;
      if used < cap && !fault.Down? {
        sent := sent[key := used + 1];
      }
    }

    /** The row as it stands, with the moment it was read. */
    method Get(slot: Slot) returns (found: Option<Row>, failed: bool, now: int, f: Fault)
      ensures failed <==> !f.Fine?
      ensures !failed ==> found == if slot in rows then Some(rows[slot]) else None
    {
      var fault: Fault := *;
      now := *;
      failed, f := !fault.Fine?, fault;
      found := if slot in rows then Some(rows[slot]) else None;
    }

    /** One attempt is spent and the row as it then is comes back, or nothing is claimable. */
    method ClaimRow(slot: Slot) returns (claimed: Option<Row>, failed: bool, f: Fault, now: int)
      modifies this`rows
      ensures rows == ClaimAttempt(old(rows), slot, now, f)
      ensures failed <==> !f.Fine?
      ensures !failed ==> claimed == if Claimable(old(rows), slot, now) then Some(rows[slot]) else None
    {
      var fault: Fault := *;
      var clock: int := *;
      failed, f, now, claimed := !fault.Fine?, fault, clock, None;
      if !fault.Down? && slot in rows && rows[slot].attempts < MAX_ATTEMPTS && rows[slot].expires > clock {
        rows := rows[slot := rows[slot].(attempts := rows[slot].attempts + 1)];
        claimed := Some(rows[slot]);
      }
    }

    method DeleteRow(slot: Slot) returns (f: Fault)
      modifies this`rows
      ensures rows == Delete(old(rows), slot, f)
    {
      var fault: Fault := *;
      f := fault;
      if !fault.Down? {
        rows := rows - {slot};
      }
    }

    method ConsumeRow(slot: Slot, code: nat) returns (spent: bool, failed: bool, f: Fault)
      modifies this`rows
      ensures rows == ConsumeCode(old(rows), slot, code, f)
      ensures failed <==> !f.Fine?
      ensures spent <==> f.Fine? && Consumable(old(rows), slot, code)
    {
      var fault: Fault := *;
      var there := slot in rows && rows[slot].code == code;
      spent, failed, f := there && fault.Fine?, !fault.Fine?, fault;
      if there && !fault.Down? {
        rows := rows - {slot};
      }
    }

    method UpsertRow(slot: Slot, target: string, code: nat) returns (failed: bool, f: Fault, now: int)
      modifies this`rows, this`codes
      ensures failed <==> !f.Fine?
      ensures f.Down? ==> rows == old(rows) && codes == old(codes)
      ensures !f.Down? ==> codes == old(codes) + [code]
      ensures !f.Down? ==> rows == old(rows)[slot := Row(|old(codes)|, target, code, 0, now, now + CODE_LIFETIME)]
    {
      var fault: Fault := *;
      var clock: int := *;
      failed, f, now := !fault.Fine?, fault, clock;
      if !fault.Down? {
        rows := rows[slot := Row(|codes|, target, code, 0, clock, clock + CODE_LIFETIME)];
        codes := codes + [code];
      }
    }

    // --- history ---

    /** Writes down the step that a store call just made in state `s`. */
    method Note(s: State, a: Action)
      requires s == After(Init, log) && s.guesses == guesses && s.sends == sends
      requires var s' := Next(s, a); s'.guessed == guessed && s'.sent == sent && s'.rows == rows && s'.codes == codes
      modifies this`guesses, this`sends, this`log
      ensures Valid() && log == old(log) + [a] && View() == Next(s, a)
    {
      var s' := Next(s, a);
      guesses, sends := s'.guesses, s'.sends;
      log := log + [a];
      assert log[..|log| - 1] == old(log);
    }

    /** The same for a step of guess `i`: the call has already changed the store as `NextGuessed` and `NextRows` say. */
    method NoteGuess(s: State, i: nat, f: Fault, now: int)
      requires s == After(Init, log) && s.guesses == guesses && s.sends == sends && i < |guesses|
      requires guessed == NextGuessed(s, guesses[i], f) && rows == NextRows(s, guesses[i], f, now)
      requires sent == s.sent && codes == s.codes
      modifies this`guesses, this`sends, this`log
      ensures Valid() && old(log) <= log
      ensures guesses == s.guesses[i := NextGuess(s, s.guesses[i], f, now)]
    {
      Note(s, GuessStep(i, f, now));
    }

    /** The same for a step of send `i`. */
    method NoteSend(s: State, i: nat, f: Fault, now: int, code: nat)
      requires s == After(Init, log) && s.guesses == guesses && s.sends == sends && i < |sends|
      requires sent == NextSentBudget(s, sends[i], f) && guessed == s.guessed
      requires var s' := Next(s, SendStep(i, f, now, code)); rows == s'.rows && codes == s'.codes
      modifies this`guesses, this`sends, this`log
      ensures Valid() && old(log) <= log
      ensures sends == s.sends[i := NextSend(s, s.sends[i], f, now)]
    {
      Note(s, SendStep(i, f, now, code));
    }

    /** Other requests run between two calls of guess `g` or send `d`: any number of steps, not theirs. */
    method Others(g: Option<nat>, d: Option<nat>)
      requires Valid()
      requires g.Some? ==> g.value < |guesses|
      requires d.Some? ==> d.value < |sends|
      modifies this
      ensures Valid() && old(log) <= log
      ensures |old(guesses)| <= |guesses| && |old(sends)| <= |sends|
      ensures g.Some? ==> guesses[g.value] == old(guesses)[g.value]
      ensures d.Some? ==> sends[d.value] == old(sends)[d.value]
    {
      var steps: nat := *;
      while steps > 0
        invariant Valid() && old(log) <= log
        invariant |old(guesses)| <= |guesses| && |old(sends)| <= |sends|
        invariant g.Some? ==> guesses[g.value] == old(guesses)[g.value]
        invariant d.Some? ==> sends[d.value] == old(sends)[d.value]
      {
        var a: Action := *;
        if !(a.GuessStep? && g == Some(a.i)) && !(a.SendStep? && d == Some(a.i)) {
          var s := View();
          var s' := Next(s, a);
          guessed, sent, rows, codes := s'.guessed, s'.sent, s'.rows, s'.codes;
          Note(s, a);
        }
        steps := steps - 1;
      }
    }

    // --- verification.go and otp_budget.go, the guess ---

    /** Spends the caller's allowance, then the target's; `refused` is what the caller is told otherwise. */
    method TakeOtpGuess(i: nat) returns (refused: Option<Outcome>)
      requires Valid() && i < |guesses| && guesses[i].stage.TakeCaller?
      modifies this
      ensures Valid() && old(log) <= log && i < |guesses|
      ensures SameRequest(guesses[i], old(guesses)[i])
      ensures guesses[i].stage == if refused.Some? then Ended(refused.value) else Claim
    {
      var g := guesses[i];
      var s := View();
      var ok, failed, f := TakeGuess(CallerOf(g), CALLER_GUESSES);
      NoteGuess(s, i, f, 0);
      if !failed && ok {
        Others(Some(i), None);
        s := View();
        ok, failed, f := TakeGuess(TargetOf(g), TARGET_GUESSES);
        NoteGuess(s, i, f, 0);
      }
      if failed {
        return Some(Unavailable);
      }
      refused := if ok then None else Some(BudgetSpent);
    }

    /** Hands both allowances back; a failed write is only logged. */
    method RefundBoth(i: nat)
      requires Valid() && i < |guesses| && guesses[i].stage.RefundCaller?
      modifies this
      ensures Valid() && old(log) <= log && i < |guesses|
      ensures SameRequest(guesses[i], old(guesses)[i]) && guesses[i].stage == Ended(Accepted)
    {
      var g := guesses[i];
      var keys := [CallerOf(g), TargetOf(g)];
      for k := 0 to |keys|
        invariant Valid() && old(log) <= log && i < |guesses|
        invariant SameRequest(guesses[i], old(guesses)[i])
        invariant guesses[i].stage == if k == 0 then RefundCaller else if k == 1 then RefundTarget else Ended(Accepted)
      {
        Others(Some(i), None);
        var s := View();
        var f := RefundGuess(keys[k]);
        NoteGuess(s, i, f, 0);
      }
    }

    /** The per-code half: claim an attempt, compare, consume. `None` means the code was right and is spent. */
    method ClaimAndConsume(i: nat) returns (refused: Option<Outcome>)
      requires Valid() && i < |guesses| && guesses[i].stage.Claim?
      modifies this
      ensures Valid() && old(log) <= log && i < |guesses|
      ensures SameRequest(guesses[i], old(guesses)[i])
      ensures guesses[i].stage == if refused.Some? then Ended(refused.value) else RefundCaller
    {
      var g := guesses[i];
      Others(Some(i), None);
      var s := View();
      var claimed, failed, f, now := ClaimRow(g.slot);
      NoteGuess(s, i, f, now);
      if failed {
        return Some(StoreError);
      }
      if claimed.None? {
        refused := ExplainUnclaimable(i);
        return;
      }
      refused := CompareAndConsume(i, claimed.value);
    }

    /** The comparison with the claimed row, and the two ways it can go on. */
    method CompareAndConsume(i: nat, row: Row) returns (refused: Option<Outcome>)
      requires Valid() && i < |guesses| && guesses[i].stage == Compare(row)
      modifies this
      ensures Valid() && old(log) <= log && i < |guesses|
      ensures SameRequest(guesses[i], old(guesses)[i])
      ensures guesses[i].stage == if refused.Some? then Ended(refused.value) else RefundCaller
    {
      var g := guesses[i];
      NoteGuess(View(), i, Fine, 0);
      if g.slot.UserSlot? && row.target != g.target {
        return Some(WrongTarget);
      }
      if row.code == g.code {
        refused := ConsumeMatched(i, row);
        return;
      }
      if row.attempts >= MAX_ATTEMPTS {
        Others(Some(i), None);
        var s := View();
        var f := DeleteRow(g.slot);
        NoteGuess(s, i, f, 0);
      }
      refused := Some(WrongCode);
    }

    /** Spends the code that matched, unless the row is gone or carries another code by now. */
    method ConsumeMatched(i: nat, row: Row) returns (refused: Option<Outcome>)
      requires Valid() && i < |guesses| && guesses[i].stage == Consume(row)
      modifies this
      ensures Valid() && old(log) <= log && i < |guesses|
      ensures SameRequest(guesses[i], old(guesses)[i])
      ensures guesses[i].stage == if refused.Some? then Ended(refused.value) else RefundCaller
    {
      var g := guesses[i];
      Others(Some(i), None);
      var s := View();
      var spent, failed, f := ConsumeRow(g.slot, row.code);
      NoteGuess(s, i, f, 0);
      refused := if failed then Some(StoreError) else if spent then None else Some(WrongCode);
    }

    /** Why no attempt could be claimed: wording only, except that an expired row is cleared. */
    method ExplainUnclaimable(i: nat) returns (refused: Option<Outcome>)
      requires Valid() && i < |guesses| && guesses[i].stage.Explain?
      modifies this
      ensures Valid() && old(log) <= log && i < |guesses|
      ensures SameRequest(guesses[i], old(guesses)[i])
      ensures refused.Some? && guesses[i].stage == Ended(refused.value)
    {
      var g := guesses[i];
      Others(Some(i), None);
      var pending, failed, now, f := Get(g.slot);
      NoteGuess(View(), i, f, now);
      if failed {
        return Some(StoreError);
      }
      if pending.None? {
        return Some(NoCode);
      }
      if now > pending.value.expires {
        Others(Some(i), None);
        var s := View();
        f := DeleteRow(g.slot);
        NoteGuess(s, i, f, now);
        return Some(Expired);
      }
      return Some(TooMany);
    }

    /** One guess from start to end, for either kind of slot. What it answers is how guess `i` of the
        history ended. */
    method VerifyAndConsume(caller: string, slot: Slot, target: string, code: nat) returns (outcome: Outcome, i: nat)
      requires Valid() && Proper(slot, target)
      modifies this
      ensures Valid() && old(log) <= log && i < |guesses|
      ensures SameRequest(guesses[i], NewGuess(caller, slot, target, code)) && guesses[i].stage == Ended(outcome)
    {
      i := |guesses|;
      Note(View(), BeginGuess(caller, slot, target, code));
      Others(Some(i), None);
      var refused := TakeOtpGuess(i);
      if refused.Some? {
        return refused.value, i;
      }
      refused := ClaimAndConsume(i);
      if refused.Some? {
        return refused.value, i;
      }
      RefundBoth(i);
      outcome := Accepted;
    }

    // --- the send ---

    /** Spends a send of the caller's, then of the target's. */
    method TakeOtpSend(i: nat) returns (refused: Option<Outcome>)
      requires Valid() && i < |sends| && sends[i].stage.ChargeCaller?
      modifies this
      ensures Valid() && old(log) <= log && i < |sends|
      ensures SameSend(sends[i], old(sends)[i])
      ensures sends[i].stage == if refused.Some? then Over(refused.value) else Upsert
    {
      var d := sends[i];
      Others(None, Some(i));
      var s := View();
      var ok, failed, f := TakeSend(PayerOf(d), CALLER_SENDS);
      NoteSend(s, i, f, 0, 0);
      if !failed && ok {
        Others(None, Some(i));
        s := View();
        ok, failed, f := TakeSend(PayeeOf(d), TARGET_SENDS);
        NoteSend(s, i, f, 0, 0);
      }
      if failed {
        return Some(Unavailable);
      }
      refused := if ok then None else Some(BudgetSpent);
    }

    /** One send from start to end: cooldown, budgets, then the upsert that replaces any pending row. */
    method StartVerification(caller: string, slot: Slot, target: string) returns (outcome: Outcome, i: nat)
      requires Valid() && Proper(slot, target)
      modifies this
      ensures Valid() && old(log) <= log && i < |sends|
      ensures SameSend(sends[i], NewSend(caller, slot, target)) && sends[i].stage == Over(outcome)
    {
      i := |sends|;
      Note(View(), BeginSend(caller, slot, target));
      var refused := CheckResendCooldown(i);
      if refused.None? {
        refused := TakeOtpSend(i);
      }
      if refused.Some? {
        return refused.value, i;
      }
      outcome := StoreNewCode(i);
    }

    /** A code issued less than a minute ago must be waited for. */
    method CheckResendCooldown(i: nat) returns (refused: Option<Outcome>)
      requires Valid() && i < |sends| && sends[i].stage.CheckCooldown?
      modifies this
      ensures Valid() && old(log) <= log && i < |sends|
      ensures SameSend(sends[i], old(sends)[i])
      ensures sends[i].stage == if refused.Some? then Over(refused.value) else ChargeCaller
    {
      var d := sends[i];
      Others(None, Some(i));
      var existing, failed, now, f := Get(d.slot);
      NoteSend(View(), i, f, now, 0);
      if failed {
        return Some(StoreError);
      }
      if existing.Some? && now - existing.value.created < RESEND_COOLDOWN {
        return Some(CoolingDown);
      }
      refused := None;
    }

    /** A fresh code of the generator's choice replaces whatever is pending. */
    method StoreNewCode(i: nat) returns (outcome: Outcome)
      requires Valid() && i < |sends| && sends[i].stage.Upsert?
      modifies this
      ensures Valid() && old(log) <= log && i < |sends|
      ensures SameSend(sends[i], old(sends)[i]) && sends[i].stage == Over(outcome)
    {
      var d := sends[i];
      var code: nat := *;
      Others(None, Some(i));
      var s := View();
      var failed, f, now := UpsertRow(d.slot, d.target, code);
      NoteSend(s, i, f, now, code);
      outcome := if failed then StoreError else Sent;
    }
  }

  predicate SameRequest(a: Guess, b: Guess) {
    a.caller == b.caller && a.slot == b.slot && a.target == b.target && a.code == b.code
  }

  predicate SameSend(a: Send, b: Send) {
    a.caller == b.caller && a.slot == b.slot && a.target == b.target
  }
}
