/** What the token table and the answers say about the past: every fact about a token, and every answer a
    refresh was given, is there exactly when the event that accounts for it has happened. */
module RefreshOrigins {
  import opened Prelude
  import opened RefreshTokens

  ghost function Run(): seq<Action> -> State { h => After(Init, h) }

  // --- the table ---

  /** A logout with the token, or the write of a revocation of its user. */
  ghost function Revokes(id: nat): (State, Action) -> bool {
    (s: State, a: Action) => id in s.tokens
      && (a == Logout(id)
          || (a.Step? && a.i < |s.refreshes| && s.refreshes[a.i].stage == RevokeFamily(s.tokens[id].user) && !a.fault.Down?))
  }

  /** A claim of the token by a refresh that presents it: not spent, not expired. */
  ghost predicate ClaimedBy(s: State, a: Action, id: nat, child: nat) {
    && id in s.tokens && s.next == child
    && a.Step? && a.i < |s.refreshes| && s.refreshes[a.i].presented == id && s.refreshes[a.i].stage.Rotate? && !a.fault.Down?
    && !s.tokens[id].revoked && s.tokens[id].replacedBy.None? && a.now < s.tokens[id].expires
  }

  ghost function Replaces(id: nat, child: nat): (State, Action) -> bool {
    (s: State, a: Action) => ClaimedBy(s, a, id, child)
  }

  /** Its user's erasure, or a sweep that found it revoked or expired before the cut-off, and pointed at by
      nothing. */
  ghost function Removes(id: nat): (State, Action) -> bool {
    (s: State, a: Action) => id in s.tokens
      && (a == EraseUser(s.tokens[id].user)
          || (a.SweepRow? && a.id == id && (s.tokens[id].revoked || s.tokens[id].expires < a.cutoff)
              && forall r :: r in s.tokens ==> s.tokens[r].replacedBy != Some(id)))
  }

  /** A login of the user, or a rotation of another token of the same user and login. */
  ghost function Makes(id: nat, tok: Token): (State, Action) -> bool {
    (s: State, a: Action) => s.next == id
      && ((a == Login(tok.user, tok.expires) && tok.root == id)
          || (a.Step? && a.expires == tok.expires && a.i < |s.refreshes| && s.refreshes[a.i].presented in s.tokens
              && s.tokens[s.refreshes[a.i].presented].user == tok.user && s.tokens[s.refreshes[a.i].presented].root == tok.root
              && ClaimedBy(s, a, s.refreshes[a.i].presented, id)))
  }

  lemma RevokedByNext(s: State, a: Action, id: nat)
    requires Inv(s) && id in Next(s, a).tokens
    ensures id in s.tokens ==> (Next(s, a).tokens[id].revoked <==> s.tokens[id].revoked || Revokes(id)(s, a))
    ensures id !in s.tokens ==> !Next(s, a).tokens[id].revoked && id == s.next
  {
    if Mints(s, a) { assert Linked(s.tokens, s.next, s.refreshes[a.i].presented); }
    assert s.next in s.tokens ==> Linked(s.tokens, s.next, s.next);
  }

  lemma ReplacedByNext(s: State, a: Action, id: nat, child: nat)
    requires Inv(s) && id in Next(s, a).tokens
    ensures id in s.tokens ==>
              (Next(s, a).tokens[id].replacedBy == Some(child)
               <==> s.tokens[id].replacedBy == Some(child) || Replaces(id, child)(s, a))
    ensures id !in s.tokens ==> Next(s, a).tokens[id].replacedBy.None? && id == s.next
  {
    assert s.next in s.tokens ==> Linked(s.tokens, s.next, s.next);
    if Mints(s, a) { assert Linked(s.tokens, s.next, s.refreshes[a.i].presented); }
  }

  lemma ThereAfterNext(s: State, a: Action, id: nat)
    requires Inv(s) && id < Next(s, a).next
    ensures id in Next(s, a).tokens <==> id == s.next || (id in s.tokens && !Removes(id)(s, a))
  {
    assert s.next in s.tokens ==> Linked(s.tokens, s.next, s.next);
    if Mints(s, a) { assert Linked(s.tokens, s.next, s.refreshes[a.i].presented); }
    if a.SweepRow? && id in s.tokens && a.id == id {
      assert Referenced(s.tokens, id) <==> !forall r :: r in s.tokens ==> s.tokens[r].replacedBy != Some(id);
    }
  }

  lemma MadeByNext(s: State, a: Action, id: nat)
    requires Inv(s) && id in Next(s, a).tokens && id !in s.tokens
    ensures Makes(id, Next(s, a).tokens[id])(s, a)
  {
    if a.Step? {
      assert Mints(s, a) && id == s.next;
      assert ClaimedBy(s, a, s.refreshes[a.i].presented, id);
    }
  }

  /** For every number given out so far, its token is in the table exactly until it is removed: by its
      user's erasure, or by a sweep that found it unusable and pointed at by nothing. */
  lemma {:induction false} ATokenIsThereUntilRemoved(h: seq<Action>, id: nat)
    requires id < After(Init, h).next
    ensures id in After(Init, h).tokens <==> !Happened(Run(), h, Removes(id))
    decreases |h|
  {
    var front, a := h[..|h| - 1], h[|h| - 1];
    var s := After(Init, front);
    AfterInv(front);
    ThereAfterNext(s, a, id);
    RemovedSoFar(front, a, id);
    assert h == front + [a];
    if id < s.next {
      ATokenIsThereUntilRemoved(front, id);
    } else {
      assert id in s.tokens ==> Linked(s.tokens, s.next, id);
    }
  }

  lemma RemovedSoFar(h: seq<Action>, a: Action, id: nat)
    ensures Happened(Run(), h + [a], Removes(id)) <==> Happened(Run(), h, Removes(id)) || Removes(id)(After(Init, h), a)
    ensures After(Init, h).next <= id ==> !Happened(Run(), h, Removes(id))
  {
    HappenedGrows(Run(), h, a, Removes(id));
    if After(Init, h).next <= id {
      NeverBeforeItsNumber(h, id);
    }
  }

  lemma {:induction false} NeverBeforeItsNumber(h: seq<Action>, id: nat)
    requires After(Init, h).next <= id
    ensures !Happened(Run(), h, Removes(id)) && !Happened(Run(), h, Revokes(id)) && forall child :: !Happened(Run(), h, Replaces(id, child))
    decreases |h|
  {
    if h != [] {
      var front, a := h[..|h| - 1], h[|h| - 1];
      var s := After(Init, front);
      AfterInv(front);
      NeverBeforeItsNumber(front, id);
      assert id in s.tokens ==> Linked(s.tokens, s.next, id);
      assert h == front + [a];
      HappenedGrows(Run(), front, a, Removes(id));
      HappenedGrows(Run(), front, a, Revokes(id));
      forall child ensures !Happened(Run(), h, Replaces(id, child)) {
        HappenedGrows(Run(), front, a, Replaces(id, child));
      }
    }
  }

  /** A token is revoked exactly when somebody logged out with it or a revocation of its user's sessions was
      written while it was there. */
  lemma {:induction false} ATokenIsRevokedExactlyByARevocation(h: seq<Action>, id: nat)
    requires id in After(Init, h).tokens
    ensures After(Init, h).tokens[id].revoked <==> Happened(Run(), h, Revokes(id))
    decreases |h|
  {
    var front, a := h[..|h| - 1], h[|h| - 1];
    AfterInv(front);
    RevokedByNext(After(Init, front), a, id);
    HappenedGrows(Run(), front, a, Revokes(id));
    assert h == front + [a];
    if id in After(Init, front).tokens {
      ATokenIsRevokedExactlyByARevocation(front, id);
    } else {
      NeverBeforeItsNumber(front, id);
    }
  }

  /** And it is replaced by `child` exactly when it was claimed, unspent and before its expiry, in the step
      that gave out that number. */
  lemma {:induction false} ATokenIsReplacedExactlyByAClaim(h: seq<Action>, id: nat, child: nat)
    requires id in After(Init, h).tokens
    ensures After(Init, h).tokens[id].replacedBy == Some(child) <==> Happened(Run(), h, Replaces(id, child))
    decreases |h|
  {
    var front, a := h[..|h| - 1], h[|h| - 1];
    AfterInv(front);
    ReplacedByNext(After(Init, front), a, id, child);
    HappenedGrows(Run(), front, a, Replaces(id, child));
    assert h == front + [a];
    if id in After(Init, front).tokens {
      ATokenIsReplacedExactlyByAClaim(front, id, child);
    } else {
      NeverBeforeItsNumber(front, id);
    }
  }

  /** What a token is made with, it was given by a login, or by the rotation of a token of the same user and
      login. */
  lemma {:induction false} ATokenWasIssued(h: seq<Action>, id: nat)
    requires id in After(Init, h).tokens
    ensures var tok := After(Init, h).tokens[id];
            exists made :: made == tok.(revoked := false, replacedBy := None) && Happened(Run(), h, Makes(id, made))
    decreases |h|
  {
    var front, a := h[..|h| - 1], h[|h| - 1];
    var s := After(Init, front);
    AfterInv(front);
    assert h == front + [a];
    var made := After(Init, h).tokens[id].(revoked := false, replacedBy := None);
    HappenedGrows(Run(), front, a, Makes(id, made));
    if id in s.tokens {
      assert Linked(s.tokens, s.next, id);
      TokensOnlyAge(s, a, id);
      ATokenWasIssued(front, id);
    } else {
      MadeByNext(s, a, id);
    }
  }

  // --- the answers ---

  /** The read of refresh `i`, the store answering; and what it found. */
  ghost function Reads(i: nat, outcome: Outcome): (State, Action) -> bool {
    (s: State, a: Action) => a.Step? && a.i == i && i < |s.refreshes| && s.refreshes[i].stage.Find? && a.fault.Fine?
      && (outcome.Unknown? ==> s.refreshes[i].presented !in s.tokens)
      && (outcome.TooOld? ==> s.refreshes[i].presented in s.tokens && Unspent(s.tokens[s.refreshes[i].presented])
                              && s.tokens[s.refreshes[i].presented].expires < a.now)
      && (outcome.Rotated? ==> s.refreshes[i].presented in s.tokens && Unspent(s.tokens[s.refreshes[i].presented])
                               && a.now <= s.tokens[s.refreshes[i].presented].expires)
  }

  predicate Unspent(tok: Token) { !tok.revoked && tok.replacedBy.None? }

  ghost function Loads(i: nat): (State, Action) -> bool {
    (s: State, a: Action) => a.Step? && a.i == i && i < |s.refreshes| && s.refreshes[i].stage.LoadUser? && a.fault.Fine?
  }

  ghost function Claims(i: nat, id: nat, child: nat): (State, Action) -> bool {
    (s: State, a: Action) => a.Step? && a.i == i && a.fault.Fine? && ClaimedBy(s, a, id, child)
  }

  /** A call of refresh `i` that failed, or the claim of a token that is gone. */
  ghost function Fails(i: nat): (State, Action) -> bool {
    (s: State, a: Action) => a.Step? && a.i == i && i < |s.refreshes|
      && (s.refreshes[i].stage in {Find} || s.refreshes[i].stage.LoadUser? || s.refreshes[i].stage.Rotate?)
      && (!a.fault.Fine? || (s.refreshes[i].stage.Rotate? && s.refreshes[i].presented !in s.tokens))
  }

  /** How far a refresh has come says which of its calls have succeeded. */
  ghost predicate Accounted(h: seq<Action>, i: nat)
    requires i < |After(Init, h).refreshes|
  {
    var r := After(Init, h).refreshes[i];
    && (r.stage.LoadUser? || r.stage.Rotate? ==> Happened(Run(), h, Reads(i, Rotated(0))))
    && (r.stage.Rotate? ==> Happened(Run(), h, Loads(i)))
  }

  /** The answer of a refresh, and the event it is given for. */
  ghost predicate Answered(h: seq<Action>, i: nat)
    requires i < |After(Init, h).refreshes|
  {
    var r := After(Init, h).refreshes[i];
    && (r.stage == Ended(Unknown) <==> Happened(Run(), h, Reads(i, Unknown)))
    && (r.stage == Ended(TooOld) <==> Happened(Run(), h, Reads(i, TooOld)))
    && (r.stage == Ended(Failed) <==> Happened(Run(), h, Fails(i)))
    && (forall child :: r.stage == Ended(Rotated(child)) <==> Happened(Run(), h, Claims(i, r.presented, child)))
    && (r.stage.Ended? && r.stage.outcome.Rotated? ==> Happened(Run(), h, Reads(i, Rotated(0))) && Happened(Run(), h, Loads(i)))
  }

  lemma StepAnswers(s: State, a: Action, i: nat)
    requires i < |s.refreshes|
    ensures var r, r' := s.refreshes[i], Next(s, a).refreshes[i];
            && r'.presented == r.presented
            && (r'.stage == Ended(Unknown) <==> r.stage == Ended(Unknown) || Reads(i, Unknown)(s, a))
            && (r'.stage == Ended(TooOld) <==> r.stage == Ended(TooOld) || Reads(i, TooOld)(s, a))
            && (r'.stage == Ended(Failed) <==> r.stage == Ended(Failed) || Fails(i)(s, a))
  {
  }

  lemma StepClaims(s: State, a: Action, i: nat, child: nat)
    requires i < |s.refreshes|
    ensures var r, r' := s.refreshes[i], Next(s, a).refreshes[i];
            r'.stage == Ended(Rotated(child)) <==> r.stage == Ended(Rotated(child)) || Claims(i, r.presented, child)(s, a)
  {
    var r := s.refreshes[i];
    assert Claims(i, r.presented, child)(s, a) <==>
           a.Step? && a.i == i && a.fault.Fine? && r.stage.Rotate? && s.next == child && Rotatable(s, r.presented, a.now);
  }

  lemma StepAccounts(s: State, a: Action, i: nat)
    requires i < |s.refreshes|
    ensures var r, r' := s.refreshes[i], Next(s, a).refreshes[i];
            && (r'.stage.LoadUser? ==> r.stage.LoadUser? || Reads(i, Rotated(0))(s, a))
            && (r'.stage.Rotate? ==> r.stage.Rotate? || (r.stage.LoadUser? && Loads(i)(s, a)))
            && (RotatedToken(r') ==> RotatedToken(r) || r.stage.Rotate?)
  {
  }

  lemma {:induction false} RefreshesOnlyGrow(h: seq<Action>, k: nat)
    requires k <= |h|
    ensures |After(Init, h[..k]).refreshes| <= |After(Init, h).refreshes|
    decreases |h|
  {
    if k == |h| {
      assert h[..k] == h;
    } else {
      RefreshesOnlyGrow(h[..|h| - 1], k);
      assert h[..|h| - 1][..k] == h[..k];
    }
  }

  /** Nothing has happened to a refresh that has not begun. */
  lemma NothingYet(h: seq<Action>, i: nat, p: (State, Action) -> bool)
    requires |After(Init, h).refreshes| <= i && forall s, a :: p(s, a) ==> i < |s.refreshes|
    ensures !Happened(Run(), h, p)
  {
    if Happened(Run(), h, p) {
      var k :| 0 <= k < |h| && p(After(Init, h[..k]), h[k]);
      RefreshesOnlyGrow(h, k);
    }
  }

  lemma {:induction false} AfterAccounts(h: seq<Action>, i: nat)
    requires i < |After(Init, h).refreshes|
    ensures Accounted(h, i)
    ensures RotatedToken(After(Init, h).refreshes[i]) ==> Happened(Run(), h, Reads(i, Rotated(0))) && Happened(Run(), h, Loads(i))
    decreases |h|
  {
    var front, a := h[..|h| - 1], h[|h| - 1];
    var s := After(Init, front);
    assert h == front + [a];
    if i < |s.refreshes| {
      AfterAccounts(front, i);
      StepAccounts(s, a, i);
      HappenedGrows(Run(), front, a, Reads(i, Rotated(0)));
      HappenedGrows(Run(), front, a, Loads(i));
    }
  }

  /** A new token is given exactly when the old one is claimed, unspent and unexpired. */
  lemma {:induction false} RotatedExactlyByAClaim(h: seq<Action>, i: nat, child: nat)
    requires i < |After(Init, h).refreshes|
    ensures var r := After(Init, h).refreshes[i];
            r.stage == Ended(Rotated(child)) <==> Happened(Run(), h, Claims(i, r.presented, child))
    decreases |h|
  {
    var front, a := h[..|h| - 1], h[|h| - 1];
    var s, p := After(Init, front), Claims(i, After(Init, h).refreshes[i].presented, child);
    assert h == front + [a];
    HappenedGrows(Run(), front, a, p);
    if i < |s.refreshes| {
      StepAnswers(s, a, i);
      RotatedExactlyByAClaim(front, i, child);
      StepClaims(s, a, i, child);
    } else {
      NothingYet(front, i, p);
      assert Next(s, a).refreshes[i].stage.Find? && !p(s, a);
    }
  }

  lemma {:induction false} OtherAnswers(h: seq<Action>, i: nat)
    requires i < |After(Init, h).refreshes|
    ensures var stage := After(Init, h).refreshes[i].stage;
            && (stage == Ended(Unknown) <==> Happened(Run(), h, Reads(i, Unknown)))
            && (stage == Ended(TooOld) <==> Happened(Run(), h, Reads(i, TooOld)))
            && (stage == Ended(Failed) <==> Happened(Run(), h, Fails(i)))
    decreases |h|
  {
    var front, a := h[..|h| - 1], h[|h| - 1];
    var s := After(Init, front);
    assert h == front + [a];
    HappenedGrows(Run(), front, a, Reads(i, Unknown));
    HappenedGrows(Run(), front, a, Reads(i, TooOld));
    HappenedGrows(Run(), front, a, Fails(i));
    if i < |s.refreshes| {
      OtherAnswers(front, i);
      StepAnswers(s, a, i);
    } else {
      NothingYet(front, i, Reads(i, Unknown));
      NothingYet(front, i, Reads(i, TooOld));
      NothingYet(front, i, Fails(i));
    }
  }

  /** Every answer but reuse, and what it is given for: an unknown token was not there when it was read, an
      expired one was unspent and read after its expiry, a failure followed a failed call or a token gone at
      its claim; and a new token was given exactly when the old one was claimed unspent and unexpired, after
      it had been read in time and its user loaded. */
  lemma EveryAnswerHasItsReason(h: seq<Action>, i: nat)
    requires i < |After(Init, h).refreshes|
    ensures Answered(h, i)
  {
    OtherAnswers(h, i);
    AfterAccounts(h, i);
    forall child
      ensures After(Init, h).refreshes[i].stage == Ended(Rotated(child))
              <==> Happened(Run(), h, Claims(i, After(Init, h).refreshes[i].presented, child))
    {
      RotatedExactlyByAClaim(h, i, child);
    }
  }
}
