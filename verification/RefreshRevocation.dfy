/** What sets a family revocation off, over whole runs, and what it misses: the database revokes the rows
    its snapshot saw, so a rotation in flight can leave a live child behind. */
module RefreshRevocation {
  import opened Prelude
  import opened RefreshTokens
  import opened RefreshTheorems

  // --- runs ---

  ghost function From(s: State): seq<Action> -> State { h => After(s, h) }

  lemma {:induction false} AfterParts(s: State, h: seq<Action>, k: nat)
    requires k <= |h|
    ensures After(s, h) == After(After(s, h[..k]), h[k..])
    decreases |h|
  {
    if k == |h| {
      assert h[..k] == h;
    } else {
      var n := |h| - 1;
      AfterParts(s, h[..n], k);
      assert h[..n][..k] == h[..k] && h[..n][k..] == h[k..][..n - k];
    }
  }

  lemma OneMore(s: State, h: seq<Action>, k: nat)
    requires k < |h|
    ensures After(s, h[..k + 1]) == Next(After(s, h[..k]), h[k])
  {
    assert h[..k + 1][..k] == h[..k];
  }

  lemma {:induction false} TokensOnlyAgeAlong(s: State, h: seq<Action>, id: nat)
    requires Inv(s) && id < s.next
    ensures id in After(s, h).tokens ==>
              && id in s.tokens
              && var was, later := s.tokens[id], After(s, h).tokens[id];
                 && later.user == was.user && later.root == was.root
                 && (was.revoked ==> later.revoked)
    decreases |h|
  {
    if h != [] {
      AfterKeepsInv(s, h[..|h| - 1]);
      TokensOnlyAgeAlong(s, h[..|h| - 1], id);
      TokensOnlyAge(After(s, h[..|h| - 1]), h[|h| - 1], id);
    }
  }

  lemma {:induction false} RefreshesStay(s: State, h: seq<Action>, i: nat)
    requires i < |s.refreshes|
    ensures i < |After(s, h).refreshes| && After(s, h).refreshes[i].presented == s.refreshes[i].presented
    decreases |h|
  {
    if h != [] { RefreshesStay(s, h[..|h| - 1], i); }
  }

  // --- what is taken for reuse ---

  predicate TakenForReuse(r: Refresh) {
    r.stage.RevokeFamily? || r.stage == Ended(Reused)
  }

  /** Refresh `i` reads, or fails to claim, a token that is spent or, at the claim, has expired. */
  predicate MeetsReuse(s: State, a: Action, i: nat) {
    a.Step? && a.i == i && a.fault.Fine? && i < |s.refreshes|
    && var r := s.refreshes[i];
       && (r.stage.Find? || r.stage.Rotate?) && r.presented in s.tokens
       && (s.tokens[r.presented].revoked || s.tokens[r.presented].replacedBy.Some?
           || (r.stage.Rotate? && s.tokens[r.presented].expires <= a.now))
  }

  ghost predicate HasMetReuse(s: State, i: nat, h: seq<Action>) {
    Happened(From(s), h, (was: State, a: Action) => MeetsReuse(was, a, i))
  }

  lemma OneStepTakesForReuse(s: State, a: Action, i: nat)
    requires i < |s.refreshes|
    ensures TakenForReuse(Next(s, a).refreshes[i]) <==> TakenForReuse(s.refreshes[i]) || MeetsReuse(s, a, i)
  {
  }

  lemma {:induction false} TakenForReuseExactlyByMeetingIt(s: State, i: nat, h: seq<Action>)
    requires i < |s.refreshes| && s.refreshes[i].stage.Find?
    ensures i < |After(s, h).refreshes|
    ensures TakenForReuse(After(s, h).refreshes[i]) <==> HasMetReuse(s, i, h)
    decreases |h|
  {
    if h != [] {
      var front, a := h[..|h| - 1], h[|h| - 1];
      TakenForReuseExactlyByMeetingIt(s, i, front);
      OneStepTakesForReuse(After(s, front), a, i);
      HappenedGrows(From(s), front, a, (was: State, a: Action) => MeetsReuse(was, a, i));
      assert h == front + [a];
    }
  }

  /** Nothing but refresh `i` itself changes its token: no other refresh, logout, revocation, sweep or
      erasure touches it. */
  ghost predicate Untouched(s: State, i: nat, h: seq<Action>)
    requires i < |s.refreshes| && s.refreshes[i].presented in s.tokens
  {
    var id := s.refreshes[i].presented;
    forall k :: 0 <= k < |h| && !(h[k].Step? && h[k].i == i) && Same(s, After(s, h[..k]), id)
      ==> Same(s, Next(After(s, h[..k]), h[k]), id)
  }

  predicate Same(s: State, s': State, id: nat)
    requires id in s.tokens
  {
    id in s'.tokens && s'.tokens[id] == s.tokens[id]
  }

  /** The claim of refresh `i` runs once its token has expired. */
  predicate ClaimsLate(s: State, a: Action, i: nat, expires: int) {
    a.Step? && a.i == i && a.fault.Fine? && i < |s.refreshes| && s.refreshes[i].stage.Rotate? && expires <= a.now
  }

  ghost predicate HasClaimedLate(s: State, i: nat, h: seq<Action>, expires: int) {
    Happened(From(s), h, (was: State, a: Action) => ClaimsLate(was, a, i, expires))
  }

  lemma {:induction false} UnspentUntilTheClaim(s: State, i: nat, h: seq<Action>)
    requires i < |s.refreshes| && s.refreshes[i].stage.Find? && s.refreshes[i].presented in s.tokens
    requires Untouched(s, i, h)
    ensures var end := After(s, h);
            && i < |end.refreshes| && end.refreshes[i].presented == s.refreshes[i].presented
            && (end.refreshes[i].stage.Find? || end.refreshes[i].stage.LoadUser? || end.refreshes[i].stage.Rotate?
                ==> Same(s, end, s.refreshes[i].presented))
    decreases |h|
  {
    RefreshesStay(s, h, i);
    if h != [] {
      var front := h[..|h| - 1];
      forall k | 0 <= k < |front| ensures front[..k] == h[..k] && front[k] == h[k] {
      }
      UnspentUntilTheClaim(s, i, front);
    }
  }

  lemma UntouchedIsTakenExactlyWhenClaimedLate(s: State, i: nat, h: seq<Action>)
    requires i < |s.refreshes| && s.refreshes[i].stage.Find? && s.refreshes[i].presented in s.tokens
    requires var tok := s.tokens[s.refreshes[i].presented]; !tok.revoked && tok.replacedBy.None?
    requires Untouched(s, i, h)
    ensures i < |After(s, h).refreshes|
    ensures TakenForReuse(After(s, h).refreshes[i])
            <==> HasClaimedLate(s, i, h, s.tokens[s.refreshes[i].presented].expires)
  {
    TakenForReuseExactlyByMeetingIt(s, i, h);
    var expires := s.tokens[s.refreshes[i].presented].expires;
    forall k | 0 <= k < |h|
      ensures MeetsReuse(After(s, h[..k]), h[k], i) <==> ClaimsLate(After(s, h[..k]), h[k], i, expires)
    {
      forall j | 0 <= j < k ensures h[..k][..j] == h[..j] {
      }
      UnspentUntilTheClaim(s, i, h[..k]);
    }
    if HasMetReuse(s, i, h) {
      var k :| 0 <= k < |h| && MeetsReuse(From(s)(h[..k]), h[k], i);
      assert ClaimsLate(From(s)(h[..k]), h[k], i, expires);
    }
    if HasClaimedLate(s, i, h, expires) {
      var k :| 0 <= k < |h| && ClaimsLate(From(s)(h[..k]), h[k], i, expires);
      assert MeetsReuse(From(s)(h[..k]), h[k], i);
    }
  }

  /** The token is read, successfully, while it stands. */
  predicate ReadsInTime(s: State, a: Action, i: nat, expires: int) {
    a.Step? && a.i == i && a.fault.Fine? && i < |s.refreshes| && s.refreshes[i].stage.Find? && a.now <= expires
  }

  /** The token is read, successfully, after its expiry. */
  predicate ReadsLate(s: State, a: Action, i: nat, expires: int) {
    a.Step? && a.i == i && a.fault.Fine? && i < |s.refreshes| && s.refreshes[i].stage.Find? && expires < a.now
  }

  ghost predicate HasReadInTime(s: State, i: nat, h: seq<Action>, expires: int) {
    Happened(From(s), h, (was: State, a: Action) => ReadsInTime(was, a, i, expires))
  }

  ghost predicate HasReadLate(s: State, i: nat, h: seq<Action>, expires: int) {
    Happened(From(s), h, (was: State, a: Action) => ReadsLate(was, a, i, expires))
  }

  lemma StandsAfterAStep(s: State, was: State, a: Action, i: nat)
    requires i < |s.refreshes| && s.refreshes[i].presented in s.tokens
    requires var tok := s.tokens[s.refreshes[i].presented]; !tok.revoked && tok.replacedBy.None?
    requires i < |was.refreshes| && was.refreshes[i].presented == s.refreshes[i].presented
    requires was.refreshes[i].stage.Find? ==> Same(s, was, s.refreshes[i].presented)
    ensures i < |Next(was, a).refreshes|
    ensures var expires := s.tokens[s.refreshes[i].presented].expires;
            var before, after := was.refreshes[i].stage, Next(was, a).refreshes[i].stage;
            && (after.Find? ==> before.Find? && !ReadsInTime(was, a, i, expires) && !ReadsLate(was, a, i, expires))
            && (after.LoadUser? || after.Rotate? ==> before.LoadUser? || before.Rotate? || ReadsInTime(was, a, i, expires))
            && (after == Ended(TooOld) <==> before == Ended(TooOld) || ReadsLate(was, a, i, expires))
  {
  }

  /** Where a refresh of an unspent token stands follows from when its token was read. */
  lemma {:induction false} StandsByItsRead(s: State, i: nat, h: seq<Action>)
    requires i < |s.refreshes| && s.refreshes[i].stage.Find? && s.refreshes[i].presented in s.tokens
    requires var tok := s.tokens[s.refreshes[i].presented]; !tok.revoked && tok.replacedBy.None?
    requires Untouched(s, i, h)
    ensures i < |After(s, h).refreshes|
    ensures var expires := s.tokens[s.refreshes[i].presented].expires; var stage := After(s, h).refreshes[i].stage;
            && (stage.Find? ==> !HasReadInTime(s, i, h, expires) && !HasReadLate(s, i, h, expires))
            && (stage.LoadUser? || stage.Rotate? ==> HasReadInTime(s, i, h, expires))
            && (stage == Ended(TooOld) <==> HasReadLate(s, i, h, expires))
    decreases |h|
  {
    if h != [] {
      var front, a := h[..|h| - 1], h[|h| - 1];
      forall k | 0 <= k < |front| ensures front[..k] == h[..k] && front[k] == h[k] {
      }
      StandsByItsRead(s, i, front);
      UnspentUntilTheClaim(s, i, front);
      StandsAfterAStep(s, After(s, front), a, i);
      var expires := s.tokens[s.refreshes[i].presented].expires;
      HappenedGrows(From(s), front, a, (was: State, a: Action) => ReadsInTime(was, a, i, expires));
      HappenedGrows(From(s), front, a, (was: State, a: Action) => ReadsLate(was, a, i, expires));
      assert h == front + [a];
    }
  }

  /** A token that is not spent and that nothing else touches is taken for a stolen one exactly when it was
      read at or before its expiry and claimed at or after it, however the calls of others fall in between. */
  lemma AnUntouchedTokenIsTakenForReuseExactlyWhenClaimedLate(s: State, i: nat, h: seq<Action>)
    requires i < |s.refreshes| && s.refreshes[i].stage.Find? && s.refreshes[i].presented in s.tokens
    requires var tok := s.tokens[s.refreshes[i].presented]; !tok.revoked && tok.replacedBy.None?
    requires Untouched(s, i, h)
    ensures i < |After(s, h).refreshes|
    ensures TakenForReuse(After(s, h).refreshes[i])
            <==> ReadInTimeAndClaimedLate(s, i, h, s.tokens[s.refreshes[i].presented].expires)
  {
    UntouchedIsTakenExactlyWhenClaimedLate(s, i, h);
    var expires := s.tokens[s.refreshes[i].presented].expires;
    if HasClaimedLate(s, i, h, expires) {
      var k :| 0 <= k < |h| && ClaimsLate(From(s)(h[..k]), h[k], i, expires);
      forall j | 0 <= j < k ensures h[..k][..j] == h[..j] && h[..k][j] == h[j] {
      }
      StandsByItsRead(s, i, h[..k]);
      var j :| 0 <= j < k && ReadsInTime(From(s)(h[..k][..j]), h[..k][j], i, expires);
      assert ReadsInTime(After(s, h[..j]), h[j], i, expires);
    }
  }

  ghost predicate ReadInTimeAndClaimedLate(s: State, i: nat, h: seq<Action>, expires: int) {
    exists j, k :: 0 <= j < k < |h| && ReadsInTime(After(s, h[..j]), h[j], i, expires) && ClaimsLate(After(s, h[..k]), h[k], i, expires)
  }

  lemma {:induction false} NeverPastTheRead(s: State, i: nat, h: seq<Action>, k: nat)
    requires i < |s.refreshes| && k <= |h|
    requires var end := After(s, h); i < |end.refreshes| && end.refreshes[i].stage in {Find, Ended(TooOld)}
    ensures i < |After(s, h[..k]).refreshes| && After(s, h[..k]).refreshes[i].stage in {Find, Ended(TooOld)}
    decreases |h|
  {
    if k == |h| {
      assert h[..k] == h;
    } else {
      var front := h[..|h| - 1];
      RefreshesStay(s, front, i);
      NeverPastTheRead(s, i, front, k);
      assert front[..k] == h[..k];
    }
  }

  /** It is answered as expired exactly when it was read after its expiry; and then nothing its refresh does
      changes any token, so no session of the user is revoked for it. */
  lemma AnUntouchedTokenIsExpiredExactlyWhenReadLate(s: State, i: nat, h: seq<Action>)
    requires i < |s.refreshes| && s.refreshes[i].stage.Find? && s.refreshes[i].presented in s.tokens
    requires var tok := s.tokens[s.refreshes[i].presented]; !tok.revoked && tok.replacedBy.None?
    requires Untouched(s, i, h)
    ensures i < |After(s, h).refreshes|
    ensures After(s, h).refreshes[i].stage == Ended(TooOld) <==> HasReadLate(s, i, h, s.tokens[s.refreshes[i].presented].expires)
    ensures After(s, h).refreshes[i].stage == Ended(TooOld) ==>
              forall k :: 0 <= k < |h| && h[k].Step? && h[k].i == i ==> Next(After(s, h[..k]), h[k]).tokens == After(s, h[..k]).tokens
  {
    StandsByItsRead(s, i, h);
    if After(s, h).refreshes[i].stage == Ended(TooOld) {
      forall k | 0 <= k < |h| && h[k].Step? && h[k].i == i ensures Next(After(s, h[..k]), h[k]).tokens == After(s, h[..k]).tokens {
        NeverPastTheRead(s, i, h, k);
        TokensStayBeforeTheClaim(After(s, h[..k]), h[k], i);
      }
    }
  }

  lemma TokensStayBeforeTheClaim(s: State, a: Action, i: nat)
    requires a.Step? && a.i == i && i < |s.refreshes| && s.refreshes[i].stage in {Find, Ended(TooOld)}
    ensures Next(s, a).tokens == s.tokens
  {
  }

  // --- what a revocation misses ---

  /** The rows the statement's snapshot finds: the user's, and not revoked. */
  function Snapshot(s: State, user: nat): set<nat> {
    set id | id in s.tokens && s.tokens[id].user == user && !s.tokens[id].revoked
  }

  function RevokeIds(tokens: map<nat, Token>, ids: set<nat>): map<nat, Token> {
    map id | id in tokens :: if id in ids then tokens[id].(revoked := true) else tokens[id]
  }

  /** A revocation as the database runs it: rows are found in the snapshot of `s`, other statements commit
      in between, and the rows found, as they are by then, are written. */
  function Revoked(s: State, user: nat, between: seq<Action>): State {
    var mid := After(s, between);
    mid.(tokens := RevokeIds(mid.tokens, Snapshot(s, user)))
  }

  /** With nothing in between it is the revocation of all the user's rows in one step. */
  lemma NothingBetweenIsOneStep(s: State, user: nat)
    ensures Revoked(s, user, []) == s.(tokens := RevokeAll(s.tokens, user))
  {
    assert RevokeIds(s.tokens, Snapshot(s, user)) == RevokeAll(s.tokens, user);
  }

  lemma RevokedInv(s: State, user: nat, between: seq<Action>)
    requires Inv(s)
    ensures Inv(Revoked(s, user, between))
  {
    AfterKeepsInv(s, between);
    var mid, end := After(s, between), Revoked(s, user, between);
    assert forall id :: id in mid.tokens ==> Linked(mid.tokens, mid.next, id);
    FewerTokensKeepChains(mid.tokens, end.tokens, mid.next);
    forall r | r in end.refreshes ensures Settled(end, r) {
      assert Settled(mid, r);
    }
  }

  /** A rotation of a token of this chain. */
  predicate Rotates(s: State, a: Action, root: nat) {
    Mints(s, a) && s.tokens[s.refreshes[a.i].presented].root == root
  }

  /** The step that made token `id`. */
  lemma {:induction false} MadeAt(s: State, h: seq<Action>, id: nat) returns (k: nat)
    requires s.next <= id < After(s, h).next
    ensures k < |h| && After(s, h[..k]).next == id && Next(After(s, h[..k]), h[k]).next == id + 1
    decreases |h|
  {
    var front := h[..|h| - 1];
    if After(s, front).next <= id {
      k := |h| - 1;
    } else {
      k := MadeAt(s, front, id);
      assert front[..k] == h[..k] && front[k] == h[k];
    }
  }

  /** A token of an older chain is made by a rotation of that chain, and keeps its chain. */
  lemma MadeByARotation(s: State, h: seq<Action>, id: nat, root: nat) returns (k: nat)
    requires Inv(s) && root < s.next <= id && id in After(s, h).tokens && After(s, h).tokens[id].root == root
    ensures k < |h| && Rotates(After(s, h[..k]), h[k], root) && After(s, h[..k]).next == id
  {
    AfterKeepsInv(s, h);
    assert Linked(After(s, h).tokens, After(s, h).next, id);
    k := MadeAt(s, h, id);
    var at := After(s, h[..k]);
    AfterKeepsInv(s, h[..k]);
    NextInv(at, h[k]);
    OneMore(s, h, k);
    AfterParts(s, h, k + 1);
    TokensOnlyAgeAlong(Next(at, h[k]), h[k + 1..], id);
  }

  lemma RotatedTokensKeepTheirChain(s: State, h: seq<Action>, k: nat, root: nat)
    requires Inv(s) && k < |h| && Rotates(After(s, h[..k]), h[k], root)
    ensures var id := After(s, h[..k]).next;
            id >= s.next && (id in After(s, h).tokens ==> After(s, h).tokens[id].root == root)
  {
    var at := After(s, h[..k]);
    AfterKeepsInv(s, h[..k]);
    NextInv(at, h[k]);
    OneMore(s, h, k);
    AfterParts(s, h, k + 1);
    TokensOnlyAgeAlong(Next(at, h[k]), h[k + 1..], at.next);
  }

  /** A token of the chain can still be refreshed. */
  ghost predicate GoesOn(s: State, root: nat, clock: int) {
    exists id :: id in s.tokens && s.tokens[id].root == root && Live(s.tokens[id], clock)
  }

  /** One of the chain's tokens was rotated in between, and its child can be refreshed at the end. */
  ghost predicate RotationInFlight(s: State, between: seq<Action>, root: nat, clock: int) {
    exists k :: 0 <= k < |between| && Rotates(After(s, between[..k]), between[k], root)
                && Rotatable(After(s, between), After(s, between[..k]).next, clock)
  }

  /** A chain outlives the revocation of its user's tokens exactly when one of its tokens was rotated
      between the snapshot and the write, and the child can still be refreshed at the write. */
  lemma AChainOutlivesItsRevocationExactlyThroughARotationInFlight(s: State, user: nat, between: seq<Action>, root: nat, clock: int)
    requires Inv(s) && ChainOf(s, root, user)
    ensures GoesOn(Revoked(s, user, between), root, clock) <==> RotationInFlight(s, between, root, clock)
  {
    var mid, end := After(s, between), Revoked(s, user, between);
    if GoesOn(end, root, clock) {
      var id :| id in end.tokens && end.tokens[id].root == root && Live(end.tokens[id], clock);
      OldTokensAreRevoked(s, user, between, root, id);
      var k := MadeByARotation(s, between, id, root);
      assert mid.tokens[After(s, between[..k]).next] == mid.tokens[id];
    }
    if RotationInFlight(s, between, root, clock) {
      var k :| 0 <= k < |between| && Rotates(After(s, between[..k]), between[k], root)
        && Rotatable(mid, After(s, between[..k]).next, clock);
      var id := After(s, between[..k]).next;
      RotatedTokensKeepTheirChain(s, between, k, root);
      SnapshotIsOld(s, user);
      assert end.tokens[id] == mid.tokens[id];
    }
  }

  lemma SnapshotIsOld(s: State, user: nat)
    requires Inv(s)
    ensures forall id :: id in Snapshot(s, user) ==> id < s.next
  {
    forall id | id in Snapshot(s, user) ensures id < s.next {
      assert Linked(s.tokens, s.next, id);
    }
  }

  lemma OldTokensAreRevoked(s: State, user: nat, between: seq<Action>, root: nat, id: nat)
    requires Inv(s) && ChainOf(s, root, user)
    requires id in Revoked(s, user, between).tokens && Revoked(s, user, between).tokens[id].root == root
    ensures id < s.next ==> Revoked(s, user, between).tokens[id].revoked
  {
    if id < s.next { TokensOnlyAgeAlong(s, between, id); }
  }

  /** Without such a rotation the chain is over for good, whatever came in between and whatever comes
      later. */
  lemma WithoutARotationInFlightTheChainEnds(s: State, user: nat, between: seq<Action>, root: nat, later: seq<Action>)
    requires Inv(s) && ChainOf(s, root, user)
    requires forall k :: 0 <= k < |between| ==> !Rotates(After(s, between[..k]), between[k], root)
    ensures Dead(After(Revoked(s, user, between), later), root)
  {
    var end := Revoked(s, user, between);
    AfterKeepsInv(s, between);
    forall id | id in end.tokens && end.tokens[id].root == root ensures end.tokens[id].revoked {
      OldTokensAreRevoked(s, user, between, root, id);
      if id >= s.next {
        var _ := MadeByARotation(s, between, id, root);
      }
    }
    RevokedInv(s, user, between);
    DeadForever(end, later, root);
  }

  /** So a concurrent refresh can slip a new token past the revocation: token 0 is presented again, which
      sets the revocation off, while its child, token 1, is being rotated; token 2 stays live, and is
      refreshed later. */
  lemma ARotationInFlightSlipsPast() returns (h: seq<Action>, between: seq<Action>, later: seq<Action>)
    ensures var s := After(Init, h); var end := Revoked(s, 7, between);
            && 2 < |s.refreshes| && s.refreshes[1] == Refresh(0, RevokeFamily(7))
            && end.tokens == map[0 := Token(7, 0, 99, true, Some(1)), 1 := Token(7, 0, 99, true, Some(2)),
                                 2 := Token(7, 0, 99, false, None)]
            && 3 in After(end, later).tokens && After(end, later).tokens[3] == Token(7, 0, 99, false, None)
  {
    h := OneRotation();
    h := PresentedAgain(h);
    var s := After(Init, h);
    between := Longer(s, [], Step(2, Fine, 0, 99));
    AfterInv(h);
    RevokedInv(s, 7, between);
    later := ALiveTokenIsRotated(Revoked(s, 7, between), 2, 0, 99);
  }

  /** The spent token is read again while its child is about to be claimed. */
  lemma PresentedAgain(before: seq<Action>) returns (h: seq<Action>)
    requires After(Init, before) == State(map[0 := Token(7, 0, 99, false, Some(1)), 1 := Token(7, 0, 99, false, None)], 2,
                                          [Refresh(0, Ended(Rotated(1)))])
    ensures After(Init, h) == After(Init, before).(refreshes := [Refresh(0, Ended(Rotated(1))), Refresh(0, RevokeFamily(7)),
                                                                 Refresh(1, Rotate(7))])
  {
    h := Extend(before, Begin(0));
    h := Extend(h, Step(1, Fine, 0, 99));
    assert After(Init, h).refreshes == [Refresh(0, Ended(Rotated(1))), Refresh(0, RevokeFamily(7))];
    h := Extend(h, Begin(1));
    h := Extend(h, Step(2, Fine, 0, 99));
    h := Extend(h, Step(2, Fine, 0, 99));
  }

  /** A login's token, rotated once. */
  lemma OneRotation() returns (h: seq<Action>)
    ensures After(Init, h) == State(map[0 := Token(7, 0, 99, false, Some(1)), 1 := Token(7, 0, 99, false, None)], 2,
                                    [Refresh(0, Ended(Rotated(1)))])
  {
    h := Extend([], Login(7, 99));
    h := Extend(h, Begin(0));
    h := Extend(h, Step(0, Fine, 0, 99));
    h := Extend(h, Step(0, Fine, 0, 99));
    assert After(Init, h) == State(map[0 := Token(7, 0, 99, false, None)], 1, [Refresh(0, Rotate(7))]);
    h := Extend(h, Step(0, Fine, 0, 99));
  }

  /** A live token is a session that goes on: one more refresh and its chain has a new live token. */
  lemma ALiveTokenIsRotated(s: State, id: nat, now: int, expires: int) returns (later: seq<Action>)
    requires Inv(s) && id in s.tokens && Live(s.tokens[id], now) && now < expires
    ensures var end := After(s, later);
            && s.next in end.tokens && end.tokens[s.next] == Token(s.tokens[id].user, s.tokens[id].root, expires, false, None)
            && end.refreshes == s.refreshes + [Refresh(id, Ended(Rotated(s.next)))]
  {
    var i := |s.refreshes|;
    later := Longer(s, [], Begin(id));
    later := Longer(s, later, Step(i, Fine, now, expires));
    assert After(s, later) == s.(refreshes := s.refreshes + [Refresh(id, LoadUser(s.tokens[id].user))]);
    later := Longer(s, later, Step(i, Fine, now, expires));
    assert After(s, later) == s.(refreshes := s.refreshes + [Refresh(id, Rotate(s.tokens[id].user))]);
    later := Longer(s, later, Step(i, Fine, now, expires));
  }

  lemma Longer(s: State, h: seq<Action>, a: Action) returns (h': seq<Action>)
    ensures h' == h + [a] && After(s, h') == Next(After(s, h), a)
  {
    h' := h + [a];
    assert h'[..|h|] == h;
  }
}
