/** The session service's own code over the token table, call by call, with other requests running
    between any two calls and any call failing. */
module RefreshService {
  import opened Prelude
  import opened RefreshTokens

  class Service {
    var tokens: map<nat, Token>
    var next: nat
    var refreshes: seq<Refresh>
    ghost var log: seq<Action>

    function View(): State
      reads this
    {
      State(tokens, next, refreshes)
    }

    ghost predicate Valid()
      reads this
    {
      View() == After(Init, log)
    }

    constructor ()
      ensures Valid() && View() == Init
    {
      tokens, next, refreshes, log := map[], 0, [], [];
    }

    // --- the repository's atomic statements ---

    method FindByHash(presented: nat) returns (row: Option<Token>, failed: bool, f: Fault)
      ensures failed <==> !f.Fine?
      ensures !failed ==> row == if presented in tokens then Some(tokens[presented]) else None
    {
      var fault: Fault := *;
      failed, f := !fault.Fine?, fault;
      row := if presented in tokens then Some(tokens[presented]) else None;
    }

    method Create(user: nat, expires: int) returns (id: nat)
      modifies this`tokens, this`next
      ensures id == old(next) && next == old(next) + 1
      ensures tokens == old(tokens)[id := Token(user, id, expires, false, None)]
    {
      id := next;
      tokens := tokens[id := Token(user, id, expires, false, None)];
      next := next + 1;
    }

    /** One transaction: the child is inserted and the parent claimed, or neither. */
    method RotateToken(id: nat, expires: int) returns (child: Option<nat>, missing: bool, failed: bool, f: Fault, now: int)
      modifies this`tokens, this`next
      ensures failed <==> !f.Fine?
      ensures !failed ==> (missing <==> id !in old(tokens))
      ensures !failed ==> child == if old(Rotatable(View(), id, now)) then Some(old(next)) else None
      ensures tokens == if !f.Down? && old(Rotatable(View(), id, now)) then old(Rotation(View(), id, expires)) else old(tokens)
      ensures next == old(next) + One(!f.Down? && old(Rotatable(View(), id, now)))
    {
      var fault: Fault := *;
      var clock: int := *;
      failed, f, now, missing, child := !fault.Fine?, fault, clock, id !in tokens, None;
      if id in tokens {
        var parent := tokens[id];
        if parent.replacedBy.None? && !parent.revoked && parent.expires > clock && !fault.Down? {
          child := Some(next);
          tokens := tokens[id := parent.(replacedBy := child)][next := Token(parent.user, parent.root, expires, false, None)];
          next := next + 1;
        }
      }
    }

    method RevokeByHash(presented: nat)
      modifies this`tokens
      ensures tokens == Revoke(old(tokens), presented)
    {
      if presented in tokens {
        tokens := tokens[presented := tokens[presented].(revoked := true)];
      }
    }

    method RevokeAllForUser(user: nat) returns (f: Fault)
      modifies this`tokens
      ensures tokens == if f.Down? then old(tokens) else RevokeAll(old(tokens), user)
    {
      var fault: Fault := *;
      f := fault;
      if !fault.Down? {
        tokens := map id | id in tokens :: if tokens[id].user == user then tokens[id].(revoked := true) else tokens[id];
      }
    }

    // --- history ---

    /** Writes down the step that a store call just made in state `s`. */
    method Note(s: State, a: Action)
      requires s == After(Init, log) && s.refreshes == refreshes
      requires Next(s, a).tokens == tokens && Next(s, a).next == next
      modifies this`refreshes, this`log
      ensures Valid() && log == old(log) + [a] && View() == Next(s, a)
    {
      refreshes := Next(s, a).refreshes;
      log := log + [a];
      assert log[..|log| - 1] == old(log);
    }

    /** The same for a step of refresh `i`. */
    method NoteStep(s: State, i: nat, f: Fault, now: int, expires: int)
      requires s == After(Init, log) && s.refreshes == refreshes && i < |refreshes|
      requires tokens == NextTokens(s, refreshes[i], f, now, expires)
      requires next == s.next + One(Mints(s, Step(i, f, now, expires)))
      modifies this`refreshes, this`log
      ensures Valid() && old(log) <= log
      ensures refreshes == s.refreshes[i := s.refreshes[i].(stage := NextStage(s, s.refreshes[i], f, now))]
    {
      Note(s, Step(i, f, now, expires));
    }

    /** Other requests, logins, logouts and sweeps run: any number of steps, none of them refresh `i`'s. */
    method Others(i: nat)
      requires Valid() && i < |refreshes|
      modifies this
      ensures Valid() && old(log) <= log
      ensures |old(refreshes)| <= |refreshes| && refreshes[i] == old(refreshes)[i]
    {
      var steps: nat := *;
      while steps > 0
        invariant Valid() && old(log) <= log
        invariant |old(refreshes)| <= |refreshes| && refreshes[i] == old(refreshes)[i]
      {
        var a: Action := *;
        if !(a.Step? && a.i == i) {
          var s := View();
          var s' := Next(s, a);
          tokens, next := s'.tokens, s'.next;
          Note(s, a);
        }
        steps := steps - 1;
      }
    }

    // --- service_session.go ---

    /** Ends every session of the user; the caller is refused whether or not that could be written. */
    method HandleReuse(i: nat) returns (outcome: Outcome)
      requires Valid() && i < |refreshes| && refreshes[i].stage.RevokeFamily?
      modifies this
      ensures Valid() && old(log) <= log && i < |refreshes|
      ensures outcome == Reused && refreshes[i] == old(refreshes)[i].(stage := Ended(outcome))
    {
      var user := refreshes[i].stage.user;
      Others(i);
      var s := View();
      var f := RevokeAllForUser(user);
      NoteStep(s, i, f, 0, 0);
      outcome := Reused;
    }

    /** Rotates a presented token for a new one, or says why not. What it answers is how refresh `i` of
        the history ended. */
    method RefreshSession(presented: nat, newExpiry: int) returns (outcome: Outcome, i: nat)
      requires Valid()
      modifies this
      ensures Valid() && old(log) <= log && i < |refreshes|
      ensures refreshes[i] == Refresh(presented, Ended(outcome))
    {
      i := |refreshes|;
      Note(View(), Begin(presented));
      Others(i);
      var row, failed, f := FindByHash(presented);
      var clock: int := *;
      NoteStep(View(), i, f, clock, 0);
      if failed {
        return Failed, i;
      }
      if row.None? {
        return Unknown, i;
      }
      if row.value.revoked || row.value.replacedBy.Some? {
        outcome := HandleReuse(i);
        return;
      }
      if clock > row.value.expires {
        return TooOld, i;
      }
      outcome := RotateLoaded(i, newExpiry);
    }

    /** The user row is read, then the token is claimed; a lost claim is answered as reuse. */
    method RotateLoaded(i: nat, newExpiry: int) returns (outcome: Outcome)
      requires Valid() && i < |refreshes| && refreshes[i].stage.LoadUser?
      modifies this
      ensures Valid() && old(log) <= log && i < |refreshes|
      ensures refreshes[i] == old(refreshes)[i].(stage := Ended(outcome))
    {
      var presented := refreshes[i].presented;
      Others(i);
      var f: Fault := *;
      NoteStep(View(), i, f, 0, 0);
      if !f.Fine? {
        return Failed;
      }
      Others(i);
      var s := View();
      var child, missing, failed, fault, now := RotateToken(presented, newExpiry);
      NoteStep(s, i, fault, now, newExpiry);
      if failed || missing {
        return Failed;
      }
      if child.Some? {
        return Rotated(child.value);
      }
      outcome := HandleReuse(i);
    }

    /** Logout: idempotent, and silent about a token it does not know. */
    method RevokeSession(presented: nat)
      requires Valid()
      modifies this
      ensures Valid() && log == old(log) + [Logout(presented)]
    {
      var s := View();
      RevokeByHash(presented);
      Note(s, Logout(presented));
    }

    /** Login: a fresh chain of one token. */
    method IssueSession(user: nat, expires: int) returns (id: nat)
      requires Valid()
      modifies this
      ensures Valid() && log == old(log) + [Login(user, expires)]
      ensures id == old(next) && id in tokens && tokens[id] == Token(user, id, expires, false, None)
    {
      var s := View();
      id := Create(user, expires);
      Note(s, Login(user, expires));
    }
  }
}
