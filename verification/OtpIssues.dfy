/** Which issue of a code a guess works on: the one it claimed an attempt of, and the one it spends. */
module OtpIssues {
  import opened Prelude
  import opened OtpProtocol
  import OtpTheorems

  /** Some send put issue `n` into the slot. */
  ghost predicate IssuedTo(s: State, slot: Slot, n: nat) {
    exists d :: d in s.sends && d.slot == slot && d.issued == Some(n)
  }

  /** The pending code of a slot is the slot's newest issue. */
  ghost predicate NewestPending(s: State, slot: Slot)
    requires slot in s.rows
  {
    IssuedTo(s, slot, s.rows[slot].issue) && forall n: nat :: IssuedTo(s, slot, n) ==> n <= s.rows[slot].issue
  }

  /** A guess only ever meets issues of its own slot, and spends none older than the one it claimed. */
  ghost predicate MeetsOwnIssues(s: State, g: Guess) {
    && (g.claimed.Some? ==> IssuedTo(s, g.slot, g.claimed.value))
    && (g.stage.DropExpired? ==> IssuedTo(s, g.slot, g.stage.row.issue))
    && (g.spent.Some? ==> IssuedTo(s, g.slot, g.spent.value) && g.claimed.Some? && g.claimed.value <= g.spent.value)
  }

  ghost predicate SlotsInv(s: State) {
    && (forall d :: d in s.sends && d.issued.Some? ==> d.issued.value < |s.codes| && d.stage.Over?)
    && (forall slot :: slot in s.rows ==> NewestPending(s, slot))
    && (forall g :: g in s.guesses ==> MeetsOwnIssues(s, g))
  }

  lemma SameSendsKeepIssues(s: State, s': State)
    requires s'.sends == s.sends
    ensures forall slot, n: nat :: IssuedTo(s', slot, n) <==> IssuedTo(s, slot, n)
  {
  }

  lemma GuessMeetsOwn(s: State, g: Guess, f: Fault, now: int)
    requires GuessCoherent(g) && MeetsOwnIssues(s, g) && (g.slot in s.rows ==> NewestPending(s, g.slot))
    ensures MeetsOwnIssues(s, NextGuess(s, g, f, now)) && NextGuess(s, g, f, now).slot == g.slot
  {
  }

  lemma SameIssuesSlots(s: State, s': State)
    requires SlotsInv(s) && s'.sends == s.sends && s'.codes == s.codes
    requires forall slot :: slot in s'.rows ==> slot in s.rows && s'.rows[slot].issue == s.rows[slot].issue
    requires forall g :: g in s'.guesses ==> MeetsOwnIssues(s, g)
    ensures SlotsInv(s')
  {
    SameSendsKeepIssues(s, s');
    forall slot | slot in s'.rows ensures NewestPending(s', slot) { assert NewestPending(s, slot); }
    forall g | g in s'.guesses ensures MeetsOwnIssues(s', g) { assert MeetsOwnIssues(s, g); }
  }

  lemma GuessStepSlots(s: State, i: nat, f: Fault, now: int)
    requires Inv(s) && SlotsInv(s) && i < |s.guesses|
    ensures SlotsInv(Next(s, GuessStep(i, f, now)))
  {
    var s' := Next(s, GuessStep(i, f, now));
    var g' := NextGuess(s, s.guesses[i], f, now);
    assert GuessCoherent(s.guesses[i]);
    GuessMeetsOwn(s, s.guesses[i], f, now);
    forall g | g in s'.guesses ensures MeetsOwnIssues(s, g) { assert g == g' || g in s.guesses; }
    SameIssuesSlots(s, s');
  }

  /** A send keeps every issue there was, and adds at most one, newer than all of them. */
  lemma SendStepIssues(s: State, i: nat, f: Fault, now: int, code: nat, slot: Slot, n: nat)
    requires SlotsInv(s) && i < |s.sends|
    ensures var s' := Next(s, SendStep(i, f, now, code));
            IssuedTo(s', slot, n)
            <==> IssuedTo(s, slot, n) || (Issues(s.sends[i], f) && slot == s.sends[i].slot && n == |s.codes|)
  {
    var s' := Next(s, SendStep(i, f, now, code));
    var d, d' := s.sends[i], NextSend(s, s.sends[i], f, now);
    assert d' == s'.sends[i] && d' in s'.sends;
    if IssuedTo(s, slot, n) {
      var e :| e in s.sends && e.slot == slot && e.issued == Some(n);
      var k :| 0 <= k < |s.sends| && s.sends[k] == e;
      assert s'.sends[k] == if k == i then d' else e;
    }
    if IssuedTo(s', slot, n) {
      var e :| e in s'.sends && e.slot == slot && e.issued == Some(n);
      assert e == d' || e in s.sends;
    }
  }

  lemma SendStepSlots(s: State, i: nat, f: Fault, now: int, code: nat)
    requires Inv(s) && SlotsInv(s) && i < |s.sends|
    ensures SlotsInv(Next(s, SendStep(i, f, now, code)))
  {
    var s' := Next(s, SendStep(i, f, now, code));
    var d := s.sends[i];
    assert SendCoherent(d);
    forall slot, n: nat ensures IssuedTo(s', slot, n) <==> IssuedTo(s, slot, n) || (Issues(d, f) && slot == d.slot && n == |s.codes|) {
      SendStepIssues(s, i, f, now, code, slot, n);
    }
    forall slot, n: nat | IssuedTo(s, slot, n) ensures n < |s.codes| { }
    forall e | e in s'.sends && e.issued.Some? ensures e.issued.value < |s'.codes| && e.stage.Over? {
      assert e == NextSend(s, d, f, now) || e in s.sends;
    }
    forall slot | slot in s'.rows ensures NewestPending(s', slot) {
      assert slot in s.rows ==> NewestPending(s, slot);
    }
    forall g | g in s'.guesses ensures MeetsOwnIssues(s', g) {
      assert MeetsOwnIssues(s, g);
    }
  }

  lemma NewRequestSlots(s: State, s': State)
    requires SlotsInv(s) && s'.rows == s.rows && s'.codes == s.codes
    requires (s'.sends == s.sends && (exists g :: s'.guesses == s.guesses + [g] && g.stage.TakeCaller? && g.claimed.None? && g.spent.None?))
             || (s'.guesses == s.guesses && exists d :: s'.sends == s.sends + [d] && d.issued.None?)
    ensures SlotsInv(s')
  {
    forall slot, n: nat ensures IssuedTo(s', slot, n) <==> IssuedTo(s, slot, n) { }
    forall slot | slot in s'.rows ensures NewestPending(s', slot) { assert NewestPending(s, slot); }
    forall g | g in s'.guesses ensures MeetsOwnIssues(s', g) { assert g in s.guesses ==> MeetsOwnIssues(s, g); }
  }

  lemma DropSlotSlots(s: State, slot: Slot)
    requires SlotsInv(s)
    ensures SlotsInv(Next(s, DropSlot(slot)))
  {
    SameIssuesSlots(s, Next(s, DropSlot(slot)));
  }

  lemma NextSlots(s: State, a: Action)
    requires Inv(s) && SlotsInv(s)
    ensures SlotsInv(Next(s, a))
  {
    match a
    case BeginGuess(caller, slot, target, code) =>
      if Proper(slot, target) {
        assert Next(s, a).guesses == s.guesses + [NewGuess(caller, slot, target, code)];
        NewRequestSlots(s, Next(s, a));
      }
    case BeginSend(caller, slot, target) =>
      if Proper(slot, target) {
        assert Next(s, a).sends == s.sends + [NewSend(caller, slot, target)];
        NewRequestSlots(s, Next(s, a));
      }
    case GuessStep(i, f, now) => if i < |s.guesses| { GuessStepSlots(s, i, f, now); }
    case SendStep(i, f, now, code) => if i < |s.sends| { SendStepSlots(s, i, f, now, code); }
    case DropSlot(slot) => DropSlotSlots(s, slot);
  }

  lemma {:induction false} AfterSlots(h: seq<Action>)
    ensures SlotsInv(After(Init, h)) && Inv(After(Init, h))
    decreases |h|
  {
    AfterInv(h);
    if h != [] {
      AfterSlots(h[..|h| - 1]);
      NextSlots(After(Init, h[..|h| - 1]), h[|h| - 1]);
    }
  }

  // --- which issue is spent ---

  /** Two issues of the guess's own slot never carry the same code. */
  ghost predicate DistinctInSlot(s: State, slot: Slot) {
    forall m: nat, n: nat :: IssuedTo(s, slot, m) && IssuedTo(s, slot, n) && m < n && n < |s.codes| ==> s.codes[m] != s.codes[n]
  }

  /** When the codes issued to its slot are distinct, an accepted guess spent the very issue it compared;
      whatever other slots were sent does not matter. */
  lemma DistinctCodesAreSpentByTheirOwnGuess(h: seq<Action>, i: nat)
    requires i < |After(Init, h).guesses| && OtpTheorems.Won(After(Init, h).guesses[i])
    requires DistinctInSlot(After(Init, h), After(Init, h).guesses[i].slot)
    ensures After(Init, h).guesses[i].spent == After(Init, h).guesses[i].claimed
  {
    AfterSlots(h);
    OtpTheorems.EachIssueIsSpentOnce(h, i, i);
    assert MeetsOwnIssues(After(Init, h), After(Init, h).guesses[i]);
  }

  /** Exactly when the attribution slips: at its consume, a newer issue of the guess's own slot with the same
      code is pending. Then that one is spent; otherwise the guess spends the issue it compared, or none. */
  lemma WhenAGuessSpendsAnotherIssue(h: seq<Action>, i: nat, f: Fault, now: int)
    requires i < |After(Init, h).guesses| && After(Init, h).guesses[i].stage.Consume? && !f.Down?
    ensures var s := After(Init, h); var g, g' := s.guesses[i], Next(s, GuessStep(i, f, now)).guesses[i];
            && g.claimed.Some?
            && (g'.spent.Some? && g'.spent != g.claimed
                <==> g.slot in s.rows && s.rows[g.slot].code == g.code && s.rows[g.slot].issue > g.claimed.value)
            && (g'.spent == g.claimed <==> g.slot in s.rows && s.rows[g.slot].issue == g.claimed.value)
            && (g'.spent.Some? ==> g'.spent == Some(s.rows[g.slot].issue))
  {
    AfterSlots(h);
    var s := After(Init, h);
    var g := s.guesses[i];
    assert GuessCoherent(g) && CodesMet(s.codes, g) && MeetsOwnIssues(s, g);
    if g.slot in s.rows {
      assert NewestPending(s, g.slot) && RowExact(s, g.slot);
    }
  }

  // --- stale guesses ---

  /** The issue a guess is about to clear away: the one whose last attempt it spent, or which it read as
      expired. */
  function Clearing(g: Guess): Option<nat> {
    match g.stage
    case DropSpent => g.claimed
    case DropExpired(row) => Some(row.issue)
    case _ => None
  }

  /** A guess clears away another issue than the one it means exactly when a newer one is pending in its slot
      by then; it never touches another slot. */
  lemma WhenAGuessClearsAnotherIssue(h: seq<Action>, i: nat, f: Fault, now: int)
    requires i < |After(Init, h).guesses| && !f.Down?
    requires After(Init, h).guesses[i].stage.DropSpent? || After(Init, h).guesses[i].stage.DropExpired?
    ensures var s := After(Init, h); var g := s.guesses[i]; var rows' := Next(s, GuessStep(i, f, now)).rows;
            && Clearing(g).Some? && IssuedTo(s, g.slot, Clearing(g).value)
            && ((exists slot :: slot in s.rows && slot !in rows' && s.rows[slot].issue != Clearing(g).value)
                <==> g.slot in s.rows && s.rows[g.slot].issue > Clearing(g).value)
            && (forall slot :: slot in s.rows && slot != g.slot ==> slot in rows' && rows'[slot] == s.rows[slot])
  {
    AfterSlots(h);
    var s := After(Init, h);
    var g := s.guesses[i];
    assert GuessCoherent(g) && MeetsOwnIssues(s, g);
    if g.slot in s.rows {
      assert NewestPending(s, g.slot);
      assert g.slot !in Next(s, GuessStep(i, f, now)).rows;
    }
  }

  /** And there is such a guess: it reads an expired code, a new one is issued, and its deletion removes the
      new one, which nobody has tried. */
  lemma AStaleGuessDeletesANewerCode() returns (h: seq<Action>, i: nat)
    ensures i < |After(Init, h).guesses|
    ensures var s := After(Init, h); var g := s.guesses[i];
            && Clearing(g) == Some(0) && g.slot in s.rows && s.rows[g.slot].issue == 1 && s.rows[g.slot].attempts == 0
            && s.rows[g.slot].expires > 601 && g.slot !in Next(s, GuessStep(i, Fine, 601)).rows
  {
    var slot := TargetSlot(EmailLogin, "a");
    var sent := OtpTheorems.SendIssuesItsCode([], "me", slot, "a", 0, 7);
    var read;
    read, i := GuessReadsExpired(sent, "me", slot, "a", 601);
    h := OtpTheorems.SendIssuesItsCode(read, "me", slot, "a", 601, 8);
  }

  lemma GuessReadsExpired(h: seq<Action>, caller: string, slot: Slot, target: string, now: int) returns (h': seq<Action>, i: nat)
    requires Proper(slot, target) && slot in After(Init, h).rows && now > After(Init, h).rows[slot].expires
    requires Used(After(Init, h).guessed, CallerKey(slot.purpose, target, caller)) < CALLER_GUESSES
    requires Used(After(Init, h).guessed, TargetKey(slot.purpose, target)) < TARGET_GUESSES
    ensures var s, s' := After(Init, h), After(Init, h');
            && s'.rows == s.rows && s'.codes == s.codes && s'.sent == s.sent && s'.sends == s.sends
            && i < |s'.guesses| && s'.guesses[i].slot == slot && s'.guesses[i].stage == DropExpired(s.rows[slot])
  {
    var s := After(Init, h);
    i := |s.guesses|;
    var s1, s2, s3, s4, s5;
    h', s1 := OtpTheorems.Extend(h, BeginGuess(caller, slot, target, 0));
    h', s2 := OtpTheorems.Extend(h', GuessStep(i, Fine, now));
    h', s3 := OtpTheorems.Extend(h', GuessStep(i, Fine, now));
    assert s3.guesses[i].stage == Claim && s3.rows == s.rows;
    h', s4 := OtpTheorems.Extend(h', GuessStep(i, Fine, now));
    assert s4.guesses[i].stage == Explain && s4.rows == s.rows;
    h', s5 := OtpTheorems.Extend(h', GuessStep(i, Fine, now));
  }

  lemma NextKeepsClaim(s: State, a: Action, i: nat)
    requires Inv(s) && i < |s.guesses| && s.guesses[i].claimed.Some?
    ensures i < |Next(s, a).guesses| && Next(s, a).guesses[i].claimed == s.guesses[i].claimed
  {
    assert GuessCoherent(s.guesses[i]);
  }

  lemma {:induction false} AfterKeepsClaim(s: State, later: seq<Action>, i: nat)
    requires Inv(s) && i < |s.guesses| && s.guesses[i].claimed.Some?
    ensures Inv(After(s, later)) && i < |After(s, later).guesses|
    ensures After(s, later).guesses[i].claimed == s.guesses[i].claimed
    decreases |later|
  {
    if later != [] {
      AfterKeepsClaim(s, later[..|later| - 1], i);
      NextInv(After(s, later[..|later| - 1]), later[|later| - 1]);
      NextKeepsClaim(After(s, later[..|later| - 1]), later[|later| - 1], i);
    }
  }

  /** The other guesses. */
  function Without(guesses: seq<Guess>, i: nat): seq<Guess>
    requires i < |guesses|
  {
    guesses[..i] + guesses[i + 1..]
  }

  lemma {:induction false} CountWithout(guesses: seq<Guess>, i: nat, p: Guess -> bool)
    requires i < |guesses|
    ensures Count(guesses, p) == Count(Without(guesses, i), p) + One(p(guesses[i]))
    decreases |guesses|
  {
    var n := |guesses| - 1;
    if i == n {
      assert Without(guesses, i) == guesses[..n];
    } else {
      CountWithout(guesses[..n], i, p);
      assert Without(guesses, i) == Without(guesses[..n], i) + [guesses[n]];
      CountAfterAppend(Without(guesses[..n], i), guesses[n], p);
    }
  }

  /** Whatever runs from there on, a guess that has claimed an attempt of issue `n` never has one of another
      issue: a pending code's attempts, unless it is issue `n` itself, are the other guesses' alone. And it
      never adds a success: it spends at most one issue, which no other guess spends. */
  lemma AClaimedGuessAddsNoOtherAttempt(h: seq<Action>, later: seq<Action>, i: nat, slot: Slot)
    requires i < |After(Init, h).guesses| && After(Init, h).guesses[i].claimed.Some?
    ensures var s := After(After(Init, h), later);
            i < |s.guesses| && s.guesses[i].claimed == After(Init, h).guesses[i].claimed
            && (slot in s.rows && Some(s.rows[slot].issue) != s.guesses[i].claimed ==>
                  s.rows[slot].attempts == Count(Without(s.guesses, i), Claiming(s.rows[slot].issue)))
            && (s.guesses[i].spent.Some? ==> Count(Without(s.guesses, i), Spending(s.guesses[i].spent.value)) == 0)
  {
    AfterInv(h);
    AfterKeepsClaim(After(Init, h), later, i);
    var s := After(After(Init, h), later);
    if slot in s.rows {
      assert RowExact(s, slot);
      CountWithout(s.guesses, i, Claiming(s.rows[slot].issue));
    }
    if s.guesses[i].spent.Some? {
      assert IssueBounded(s, s.guesses[i].spent.value);
      CountWithout(s.guesses, i, Spending(s.guesses[i].spent.value));
    }
  }
}
