/** What rotation guarantees over every interleaving of refreshes, logins, logouts and sweeps. */
module RefreshTheorems {
  import opened Prelude
  import opened RefreshTokens

  // --- the shape of replaced_by ---

  /** Following `replaced_by` from `a` meets `b`. Ids only grow along it, so it cannot cycle. */
  ghost predicate Reaches(t: map<nat, Token>, next: nat, a: nat, b: nat)
    decreases next - a
  {
    a == b || (a < next && a in t && t[a].replacedBy.Some? && a < t[a].replacedBy.value
               && Reaches(t, next, t[a].replacedBy.value, b))
  }

  /** The token at the end of `a`'s chain. */
  ghost function Tip(t: map<nat, Token>, next: nat, a: nat): nat
    requires Chains(t, next) && a in t
    ensures var e := Tip(t, next, a); e in t && t[e].replacedBy.None? && t[e].root == t[a].root
    ensures Reaches(t, next, a, Tip(t, next, a))
    decreases next - a
  {
    assert Linked(t, next, a);
    if t[a].replacedBy.None? then a else Tip(t, next, t[a].replacedBy.value)
  }

  lemma {:induction false} ReachesForward(t: map<nat, Token>, next: nat, a: nat, b: nat)
    requires Chains(t, next) && a in t && Reaches(t, next, a, b)
    ensures a <= b && b in t && t[b].root == t[a].root && t[b].user == t[a].user
    decreases next - a
  {
    assert Linked(t, next, a);
    if a != b { ReachesForward(t, next, t[a].replacedBy.value, b); }
  }

  /** The step into `b` on the way from `a`. */
  lemma {:induction false} LastStep(t: map<nat, Token>, next: nat, a: nat, b: nat) returns (p: nat)
    requires Chains(t, next) && a in t && a != b && Reaches(t, next, a, b)
    ensures p in t && t[p].replacedBy == Some(b) && Reaches(t, next, a, p)
    decreases next - a
  {
    assert Linked(t, next, a);
    var child := t[a].replacedBy.value;
    if child == b { p := a; } else { p := LastStep(t, next, child, b); }
  }

  /** Two tokens that lead to the same one lie on one line. */
  lemma {:induction false} Linear(t: map<nat, Token>, next: nat, a: nat, b: nat, e: nat)
    requires Chains(t, next) && a in t && b in t
    requires Reaches(t, next, a, e) && Reaches(t, next, b, e)
    ensures Reaches(t, next, a, b) || Reaches(t, next, b, a)
    decreases next - a
  {
    assert Linked(t, next, a);
    if a != e {
      var child := t[a].replacedBy.value;
      Linear(t, next, child, b, e);
      if !Reaches(t, next, child, b) {
        var p := LastStep(t, next, b, child);
        assert Apart(t, p, a);
      }
    }
  }

  /** The tokens of one login are exactly one chain: two tokens have the same root if and only if
      one leads to the other. */
  lemma ChainsAreDisjointLines(h: seq<Action>, a: nat, b: nat)
    requires a in After(Init, h).tokens && b in After(Init, h).tokens
    ensures var s := After(Init, h);
            s.tokens[a].root == s.tokens[b].root
            <==> Reaches(s.tokens, s.next, a, b) || Reaches(s.tokens, s.next, b, a)
  {
    AfterInv(h);
    var s := After(Init, h);
    if s.tokens[a].root == s.tokens[b].root {
      var e, f := Tip(s.tokens, s.next, a), Tip(s.tokens, s.next, b);
      assert Apart(s.tokens, e, f);
      Linear(s.tokens, s.next, a, b, e);
    } else if Reaches(s.tokens, s.next, a, b) {
      ReachesForward(s.tokens, s.next, a, b);
    } else if Reaches(s.tokens, s.next, b, a) {
      ReachesForward(s.tokens, s.next, b, a);
    }
  }

  /** Of the tokens on one chain, at most one can still be refreshed. */
  lemma OneLiveTokenPerChain(h: seq<Action>, a: nat, b: nat, now: int)
    requires a in After(Init, h).tokens && b in After(Init, h).tokens
    requires Live(After(Init, h).tokens[a], now) && Live(After(Init, h).tokens[b], now)
    requires After(Init, h).tokens[a].root == After(Init, h).tokens[b].root
    ensures a == b
  {
    AfterInv(h);
    assert Apart(After(Init, h).tokens, a, b);
  }

  /** A token is rotated by at most one refresh, ever. */
  lemma RotationIsSingleUse(h: seq<Action>, i: nat, j: nat)
    requires i < |After(Init, h).refreshes| && j < |After(Init, h).refreshes|
    requires RotatedToken(After(Init, h).refreshes[i]) && RotatedToken(After(Init, h).refreshes[j])
    requires After(Init, h).refreshes[i].presented == After(Init, h).refreshes[j].presented
    ensures i == j
  {
    AfterInv(h);
  }

  // --- reuse ends the chain for good ---

  /** Every remaining token of this login belongs to `user`. */
  ghost predicate ChainOf(s: State, root: nat, user: nat) {
    root < s.next && forall id :: id in s.tokens && s.tokens[id].root == root ==> s.tokens[id].user == user
  }

  /** Every remaining token of this login is revoked. */
  ghost predicate Dead(s: State, root: nat) {
    root < s.next && forall id :: id in s.tokens && s.tokens[id].root == root ==> s.tokens[id].revoked
  }

  lemma NextKeepsChainOf(s: State, a: Action, root: nat, user: nat)
    requires Inv(s) && ChainOf(s, root, user)
    ensures ChainOf(Next(s, a), root, user)
  {
    var s' := Next(s, a);
    forall id | id in s'.tokens && s'.tokens[id].root == root ensures s'.tokens[id].user == user {
      if id < s.next { TokensOnlyAge(s, a, id); }
    }
  }

  lemma NextKeepsDead(s: State, a: Action, root: nat)
    requires Inv(s) && Dead(s, root)
    ensures Dead(Next(s, a), root)
  {
    var s' := Next(s, a);
    forall id | id in s'.tokens && s'.tokens[id].root == root ensures s'.tokens[id].revoked {
      if id < s.next { TokensOnlyAge(s, a, id); }
    }
  }

  lemma {:induction false} AfterKeepsChainOf(s: State, h: seq<Action>, root: nat, user: nat)
    requires Inv(s) && ChainOf(s, root, user)
    ensures ChainOf(After(s, h), root, user)
    decreases |h|
  {
    if h != [] {
      AfterKeepsInv(s, h[..|h| - 1]);
      AfterKeepsChainOf(s, h[..|h| - 1], root, user);
      NextKeepsChainOf(After(s, h[..|h| - 1]), h[|h| - 1], root, user);
    }
  }

  lemma {:induction false} DeadForever(s: State, h: seq<Action>, root: nat)
    requires Inv(s) && Dead(s, root)
    ensures Dead(After(s, h), root)
    decreases |h|
  {
    if h != [] {
      AfterKeepsInv(s, h[..|h| - 1]);
      DeadForever(s, h[..|h| - 1], root);
      NextKeepsDead(After(s, h[..|h| - 1]), h[|h| - 1], root);
    }
  }

  /** From the moment the family revocation is written, no token of the presented token's chain can be
      refreshed again, whatever led to it. */
  lemma RevocationEndsTheChainForGood(s: State, i: nat, root: nat, f: Fault, later: seq<Action>)
    requires Inv(s) && i < |s.refreshes| && s.refreshes[i].stage.RevokeFamily? && !f.Down?
    requires ChainOf(s, root, s.refreshes[i].stage.user)
    ensures var end := After(Next(s, Step(i, f, 0, 0)), later);
            forall id, clock :: id in end.tokens && end.tokens[id].root == root ==> !Live(end.tokens[id], clock)
  {
    NextInv(s, Step(i, f, 0, 0));
    assert Dead(Next(s, Step(i, f, 0, 0)), root);
    DeadForever(Next(s, Step(i, f, 0, 0)), later, root);
  }

  lemma ChainOfPresented(s: State, id: nat)
    requires Inv(s) && id in s.tokens
    ensures ChainOf(s, s.tokens[id].root, s.tokens[id].user)
  {
    forall other | other in s.tokens && s.tokens[other].root == s.tokens[id].root
      ensures s.tokens[other].user == s.tokens[id].user
    {
      ConnectedSameUser(s, other, id);
    }
    assert Linked(s.tokens, s.next, id);
  }

  /** Both ways into the revocation: a spent token read again, and a claim lost to another refresh of the
      same token. Refresh `i` takes it in state `s`; after any `meanwhile`, in which the token itself may be
      swept away, the revocation is written; then after any `later`, no token of that token's chain can ever
      be refreshed again, whatever was rotated, logged in or swept in between. */
  lemma ReplayEndsTheChainForGood(s: State, i: nat, now: int, expires: int, meanwhile: seq<Action>, f: Fault, later: seq<Action>)
    requires Inv(s) && i < |s.refreshes| && s.refreshes[i].presented in s.tokens
    requires s.refreshes[i].stage.Find? || s.refreshes[i].stage.Rotate?
    requires var turned := Next(s, Step(i, Fine, now, expires)); var mid := After(turned, meanwhile);
             && turned.refreshes[i].stage.RevokeFamily?
             && i < |mid.refreshes| && mid.refreshes[i] == turned.refreshes[i]
    requires !f.Down?
    ensures var turned := Next(s, Step(i, Fine, now, expires));
            var end := After(Next(After(turned, meanwhile), Step(i, f, 0, 0)), later);
            forall id, clock :: id in end.tokens && end.tokens[id].root == s.tokens[s.refreshes[i].presented].root
              ==> !Live(end.tokens[id], clock)
  {
    var token := s.tokens[s.refreshes[i].presented];
    assert Settled(s, s.refreshes[i]);
    ChainOfPresented(s, s.refreshes[i].presented);
    var turned := Next(s, Step(i, Fine, now, expires));
    assert turned.refreshes[i].stage.user == token.user;
    NextInv(s, Step(i, Fine, now, expires));
    NextKeepsChainOf(s, Step(i, Fine, now, expires), token.root, token.user);
    AfterKeepsInv(turned, meanwhile);
    AfterKeepsChainOf(turned, meanwhile, token.root, token.user);
    RevocationEndsTheChainForGood(After(turned, meanwhile), i, token.root, f, later);
  }

  lemma ConnectedSameUser(s: State, a: nat, b: nat)
    requires Inv(s) && a in s.tokens && b in s.tokens && s.tokens[a].root == s.tokens[b].root
    ensures s.tokens[a].user == s.tokens[b].user
  {
    var e, f := Tip(s.tokens, s.next, a), Tip(s.tokens, s.next, b);
    assert Apart(s.tokens, e, f);
    ReachesForward(s.tokens, s.next, a, e);
    ReachesForward(s.tokens, s.next, b, f);
  }

  // --- expiry at the claim ---

  lemma Extend(h: seq<Action>, a: Action) returns (h': seq<Action>)
    ensures h' == h + [a] && After(Init, h') == Next(After(Init, h), a)
  {
    h' := h + [a];
    assert h'[..|h|] == h;
  }

  /** A token never presented before can set the revocation off: refreshed in the instant it expires, it
      passes the first check, fails the claim, and every session of the user is revoked. */
  lemma ExpiryAtTheClaimRevokesEverySession() returns (h: seq<Action>)
    ensures After(Init, h).refreshes == [Refresh(0, Ended(Reused))]
    ensures After(Init, h).tokens == map[0 := Token(7, 0, 10, true, None), 1 := Token(7, 1, 99, true, None)]
  {
    h := Extend([], Login(7, 10));
    h := Extend(h, Login(7, 99));
    assert After(Init, h).tokens == map[0 := Token(7, 0, 10, false, None), 1 := Token(7, 1, 99, false, None)];
    h := Extend(h, Begin(0));
    h := Extend(h, Step(0, Fine, 10, 50));
    assert After(Init, h).refreshes == [Refresh(0, LoadUser(7))];
    h := Extend(h, Step(0, Fine, 10, 50));
    h := Extend(h, Step(0, Fine, 10, 50));
    assert After(Init, h).refreshes == [Refresh(0, RevokeFamily(7))];
    h := Extend(h, Step(0, Fine, 10, 50));
  }
}
