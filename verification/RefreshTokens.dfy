/** Refresh-token rotation as a state machine: every store call of every refresh is one action,
    interleaved with logins, logouts and the retention sweep's deletions. */
module RefreshTokens {
  import opened Prelude

  /** A row of auth.refresh_tokens. A row's id stands for its hash; `root` is the login whose chain
      it belongs to (a history variable: the code never stores it). */
  datatype Token = Token(user: nat, root: nat, expires: int, revoked: bool, replacedBy: Option<nat>)

  datatype Outcome = Rotated(child: nat) | Unknown | Reused | TooOld | Failed

  /** Where a refresh stands: the store call it makes next. */
  datatype Stage = Find | LoadUser(user: nat) | Rotate(user: nat) | RevokeFamily(user: nat) | Ended(outcome: Outcome)

  datatype Refresh = Refresh(presented: nat, stage: Stage)

  datatype State = State(tokens: map<nat, Token>, next: nat, refreshes: seq<Refresh>)

  datatype Action =
    | Login(user: nat, expires: int)
    | Logout(presented: nat)
    | Begin(presented: nat)
    | Step(i: nat, fault: Fault, now: int, expires: int)
    | SweepRow(id: nat, cutoff: int)
    | EraseUser(user: nat)

  const Init := State(map[], 0, [])

  // --- the store's atomic statements ---

  /** The claim inside Rotate: not rotated, not revoked, not expired. */
  predicate Live(tok: Token, now: int) {
    tok.replacedBy.None? && !tok.revoked && tok.expires > now
  }

  predicate Rotatable(s: State, id: nat, now: int) {
    id in s.tokens && Live(s.tokens[id], now)
  }

  function Rotation(s: State, id: nat, expires: int): map<nat, Token>
    requires id in s.tokens
  {
    var parent := s.tokens[id];
    s.tokens[id := parent.(replacedBy := Some(s.next))][s.next := Token(parent.user, parent.root, expires, false, None)]
  }

  function Revoke(tokens: map<nat, Token>, id: nat): map<nat, Token> {
    if id in tokens then tokens[id := tokens[id].(revoked := true)] else tokens
  }

  function RevokeAll(tokens: map<nat, Token>, user: nat): map<nat, Token> {
    map id | id in tokens :: if tokens[id].user == user then tokens[id].(revoked := true) else tokens[id]
  }

  predicate Referenced(tokens: map<nat, Token>, id: nat) {
    exists r :: r in tokens && tokens[r].replacedBy == Some(id)
  }

  /** Rows the retention sweep may consider: revoked, or expired before the cut-off. */
  predicate Eligible(tok: Token, cutoff: int) {
    tok.revoked || tok.expires < cutoff
  }

  // --- one step of a refresh ---

  function NextTokens(s: State, r: Refresh, f: Fault, now: int, expires: int): map<nat, Token> {
    match r.stage
    case Rotate(_) => if !f.Down? && Rotatable(s, r.presented, now) then Rotation(s, r.presented, expires) else s.tokens
    case RevokeFamily(user) => if f.Down? then s.tokens else RevokeAll(s.tokens, user)
    case _ => s.tokens
  }

  function NextStage(s: State, r: Refresh, f: Fault, now: int): Stage {
    match r.stage
    case Find =>
      if !f.Fine? then Ended(Failed)
      else if r.presented !in s.tokens then Ended(Unknown)
      else
        var tok := s.tokens[r.presented];
        if tok.revoked || tok.replacedBy.Some? then RevokeFamily(tok.user)
        else if now > tok.expires then Ended(TooOld)
        else LoadUser(tok.user)
    case LoadUser(user) => if f.Fine? then Rotate(user) else Ended(Failed)
    case Rotate(user) =>
      if !f.Fine? || r.presented !in s.tokens then Ended(Failed)
      else if Rotatable(s, r.presented, now) then Ended(Rotated(s.next))
      else RevokeFamily(user)
    case RevokeFamily(_) => Ended(Reused)   // whether or not the revocation could be written
    case Ended(_) => r.stage
  }

  predicate Mints(s: State, a: Action) {
    a.Step? && a.i < |s.refreshes| && s.refreshes[a.i].stage.Rotate? && !a.fault.Down?
    && Rotatable(s, s.refreshes[a.i].presented, a.now)
  }

  function Next(s: State, a: Action): State {
    match a
    case Login(user, expires) =>
      s.(tokens := s.tokens[s.next := Token(user, s.next, expires, false, None)], next := s.next + 1)
    case Logout(presented) => s.(tokens := Revoke(s.tokens, presented))
    case Begin(presented) => s.(refreshes := s.refreshes + [Refresh(presented, Find)])
    case Step(i, f, now, expires) =>
      if i >= |s.refreshes| then s else
      var r := s.refreshes[i];
      State(NextTokens(s, r, f, now, expires), s.next + One(Mints(s, a)),
            s.refreshes[i := r.(stage := NextStage(s, r, f, now))])
    case SweepRow(id, cutoff) =>
      if id in s.tokens && Eligible(s.tokens[id], cutoff) && !Referenced(s.tokens, id)
      then s.(tokens := s.tokens - {id}) else s
    case EraseUser(user) => s.(tokens := map id | id in s.tokens && s.tokens[id].user != user :: s.tokens[id])
  }

  function After(s: State, h: seq<Action>): State
    decreases |h|
  {
    if h == [] then s else Next(After(s, h[..|h| - 1]), h[|h| - 1])
  }

  // --- the invariant ---

  /** Following `replaced_by` stays in the table, goes to a newer token of the same user and login. */
  predicate Linked(tokens: map<nat, Token>, next: nat, id: nat)
    requires id in tokens
  {
    var tok := tokens[id];
    && tok.root <= id < next
    && (tok.replacedBy.Some? ==>
          var child := tok.replacedBy.value;
          && id < child && child in tokens
          && tokens[child].user == tok.user && tokens[child].root == tok.root)
  }

  /** No token replaced two others, and a login has at most one token that is not replaced. */
  predicate Apart(tokens: map<nat, Token>, a: nat, b: nat)
    requires a in tokens && b in tokens
  {
    a != b ==>
      && (tokens[a].replacedBy.Some? ==> tokens[a].replacedBy != tokens[b].replacedBy)
      && (tokens[a].root == tokens[b].root && tokens[a].replacedBy.None? ==> tokens[b].replacedBy.Some?)
  }

  ghost predicate Chains(tokens: map<nat, Token>, next: nat) {
    && (forall id :: id in tokens ==> Linked(tokens, next, id))
    && (forall a, b :: a in tokens && b in tokens ==> Apart(tokens, a, b))
  }

  /** A token that a refresh rotated is replaced by that refresh's child for as long as it exists. */
  predicate Settled(s: State, r: Refresh) {
    && (r.stage.Ended? && r.stage.outcome.Rotated? ==>
          && r.stage.outcome.child < s.next
          && r.presented < s.next
          && (r.presented in s.tokens ==> s.tokens[r.presented].replacedBy == Some(r.stage.outcome.child)))
    && (r.stage.LoadUser? || r.stage.Rotate? || r.stage.RevokeFamily? ==>
          r.presented < s.next && (r.presented in s.tokens ==> s.tokens[r.presented].user == r.stage.user))
  }

  predicate RotatedToken(r: Refresh) {
    r.stage.Ended? && r.stage.outcome.Rotated?
  }

  ghost predicate SingleUse(refreshes: seq<Refresh>) {
    forall i, j :: 0 <= i < j < |refreshes| && RotatedToken(refreshes[i]) && RotatedToken(refreshes[j])
      ==> refreshes[i].presented != refreshes[j].presented
  }

  ghost predicate Inv(s: State) {
    && Chains(s.tokens, s.next)
    && (forall r :: r in s.refreshes ==> Settled(s, r))
    && SingleUse(s.refreshes)
  }

  lemma RotationKeepsChains(s: State, id: nat, expires: int)
    requires Chains(s.tokens, s.next) && id in s.tokens && s.tokens[id].replacedBy.None?
    ensures Chains(Rotation(s, id, expires), s.next + 1)
  {
    var t' := Rotation(s, id, expires);
    assert forall x :: x in s.tokens ==> Linked(s.tokens, s.next, x);
    assert s.next !in s.tokens;
    forall x | x in t' ensures Linked(t', s.next + 1, x) {
      if x in s.tokens { assert Linked(s.tokens, s.next, x); }
    }
    forall a, b | a in t' && b in t' ensures Apart(t', a, b) {
      if a in s.tokens && b in s.tokens {
        assert Apart(s.tokens, a, b);
      } else if a in s.tokens {
        assert Apart(s.tokens, a, id);
      } else if b in s.tokens {
        assert Apart(s.tokens, id, b);
      }
    }
  }

  /** Removing rows nothing points at, or revoking rows, keeps the chains. */
  lemma FewerTokensKeepChains(t: map<nat, Token>, t': map<nat, Token>, next: nat)
    requires Chains(t, next)
    requires forall id :: id in t' ==> id in t && t'[id].(revoked := false) == t[id].(revoked := false)
    requires forall id :: id in t' && t'[id].replacedBy.Some? ==> t'[id].replacedBy.value in t'
    ensures Chains(t', next)
  {
    forall id | id in t' ensures Linked(t', next, id) {
      assert Linked(t, next, id);
    }
    forall a, b | a in t' && b in t' ensures Apart(t', a, b) {
      assert Apart(t, a, b);
    }
  }

  lemma LoginKeepsChains(s: State, user: nat, expires: int)
    requires Chains(s.tokens, s.next)
    ensures Chains(Next(s, Login(user, expires)).tokens, s.next + 1)
  {
    var t' := s.tokens[s.next := Token(user, s.next, expires, false, None)];
    assert forall x :: x in s.tokens ==> Linked(s.tokens, s.next, x);
    forall x | x in t' ensures Linked(t', s.next + 1, x) {
      if x in s.tokens { assert Linked(s.tokens, s.next, x); }
    }
    forall a, b | a in t' && b in t' ensures Apart(t', a, b) {
      if a in s.tokens && b in s.tokens { assert Apart(s.tokens, a, b); }
    }
  }

  lemma NextChains(s: State, a: Action)
    requires Inv(s)
    ensures Chains(Next(s, a).tokens, Next(s, a).next)
  {
    var t := s.tokens;
    var s' := Next(s, a);
    match a
    case Login(user, expires) => LoginKeepsChains(s, user, expires);
    case Step(i, f, now, expires) =>
      if Mints(s, a) {
        RotationKeepsChains(s, s.refreshes[i].presented, expires);
      } else {
        assert forall id :: id in t ==> Linked(t, s.next, id);
        FewerTokensKeepChains(t, s'.tokens, s.next);
      }
    case _ =>
      assert forall id :: id in t ==> Linked(t, s.next, id);
      FewerTokensKeepChains(t, s'.tokens, s.next);
  }

  /** What a step does to a token that stays: it can be revoked or replaced, nothing else. */
  lemma TokensOnlyAge(s: State, a: Action, id: nat)
    requires Inv(s) && id < s.next
    ensures id in Next(s, a).tokens ==>
              && id in s.tokens
              && var was, later := s.tokens[id], Next(s, a).tokens[id];
                 && later.user == was.user && later.root == was.root && later.expires == was.expires
                 && (was.revoked ==> later.revoked)
                 && (was.replacedBy.Some? ==> later.replacedBy == was.replacedBy)
  {
    if id in s.tokens { assert Linked(s.tokens, s.next, id); }
    if Mints(s, a) { assert Linked(s.tokens, s.next, s.refreshes[a.i].presented); }
  }

  lemma NextSettled(s: State, a: Action, r: Refresh)
    requires Inv(s) && r in s.refreshes
    ensures Settled(Next(s, a), r)
  {
    assert Settled(s, r);
    if r.presented < s.next {
      TokensOnlyAge(s, a, r.presented);
    }
    assert Next(s, a).next >= s.next;
    if r.presented in s.tokens { assert Linked(s.tokens, s.next, r.presented); }
  }

  lemma StepSettled(s: State, a: Action)
    requires Inv(s) && a.Step? && a.i < |s.refreshes|
    ensures Settled(Next(s, a), Next(s, a).refreshes[a.i])
  {
    var r := s.refreshes[a.i];
    NextSettled(s, a, r);
    assert Settled(s, r);
    if r.presented in s.tokens {
      assert Linked(s.tokens, s.next, r.presented);
      TokensOnlyAge(s, a, r.presented);
    }
  }

  lemma StepSingleUse(s: State, a: Action)
    requires Inv(s) && a.Step? && a.i < |s.refreshes|
    ensures SingleUse(Next(s, a).refreshes)
  {
    forall j | 0 <= j < |s.refreshes| && j != a.i && RotatedToken(s.refreshes[j]) && Mints(s, a)
      ensures s.refreshes[j].presented != s.refreshes[a.i].presented
    {
      assert Settled(s, s.refreshes[j]);
    }
  }

  lemma NextInv(s: State, a: Action)
    requires Inv(s)
    ensures Inv(Next(s, a))
  {
    NextChains(s, a);
    var s' := Next(s, a);
    forall r | r in s'.refreshes ensures Settled(s', r) {
      if r in s.refreshes {
        NextSettled(s, a, r);
      } else if a.Step? {
        StepSettled(s, a);
      }
    }
    if a.Step? && a.i < |s.refreshes| { StepSingleUse(s, a); }
  }

  lemma {:induction false} AfterKeepsInv(s: State, h: seq<Action>)
    requires Inv(s)
    ensures Inv(After(s, h)) && After(s, h).next >= s.next
    decreases |h|
  {
    if h != [] {
      AfterKeepsInv(s, h[..|h| - 1]);
      NextInv(After(s, h[..|h| - 1]), h[|h| - 1]);
    }
  }

  lemma AfterInv(h: seq<Action>)
    ensures Inv(After(Init, h))
  {
    AfterKeepsInv(Init, h);
  }
}
