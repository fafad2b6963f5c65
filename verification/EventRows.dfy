/** Which accepted events have a row: those a committed write stored, until their own account's events are
    deleted. */
module EventRows {
  import opened Prelude
  import opened EventBuffer

  ghost function Run(cfg: Config): seq<Action> -> State { h => After(cfg, Init, h) }

  predicate Deletes(a: Action, user: nat) {
    a == DeleteUser(user) || a == DeleteEvents(user)
  }

  /** Nothing of the account is deleted by these steps. */
  ghost predicate Spares(later: seq<Action>, user: nat) {
    forall a :: a in later ==> !Deletes(a, user)
  }

  ghost predicate RowOfUser(s: State, p: nat, user: nat) {
    p in s.stored && p < |s.accepted| && s.accepted[p].user == user
  }

  lemma RowKept(cfg: Config, s: State, a: Action, p: nat, user: nat)
    requires RowOfUser(s, p, user) && !Deletes(a, user)
    ensures RowOfUser(Next(cfg, s, a), p, user)
  {
    NextGrows(cfg, s, a);
  }

  /** A row stays for as long as the events of its own account are not deleted, whoever else is deleted or
      opts out: of a signed-in account, or of nobody signed in (user 0). */
  lemma {:induction false} OtherAccountsRowsStay(cfg: Config, h: seq<Action>, h': seq<Action>, p: nat, user: nat)
    requires h <= h' && RowOfUser(After(cfg, Init, h), p, user) && Spares(h'[|h|..], user)
    ensures RowOfUser(After(cfg, Init, h'), p, user)
    decreases |h'|
  {
    if h != h' {
      var front, a := h'[..|h'| - 1], h'[|h'| - 1];
      assert h'[|h|..] == front[|h|..] + [a];
      assert a in h'[|h|..];
      OtherAccountsRowsStay(cfg, h, front, p, user);
      RowKept(cfg, After(cfg, Init, front), a, p, user);
    }
  }

  /** From one history to a longer one, every row has stayed whose own account was spared. */
  ghost predicate OnlyItsOwnRowsGo(cfg: Config, h: seq<Action>, h': seq<Action>)
    requires h <= h'
  {
    forall p, user :: RowOfUser(After(cfg, Init, h), p, user) && Spares(h'[|h|..], user) ==> RowOfUser(After(cfg, Init, h'), p, user)
  }

  lemma SparedRowsStay(cfg: Config, h: seq<Action>, h': seq<Action>)
    requires h <= h'
    ensures OnlyItsOwnRowsGo(cfg, h, h')
  {
    forall p, user | RowOfUser(After(cfg, Init, h), p, user) && Spares(h'[|h|..], user) ensures RowOfUser(After(cfg, Init, h'), p, user) {
      OtherAccountsRowsStay(cfg, h, h', p, user);
    }
  }

  /** The write that stored row `p`: it was committed, by the flusher before its stop, with the event in its
      batch and the account not opted out. */
  ghost function Stores(p: nat): (State, Action) -> bool {
    (s: State, a: Action) =>
      a == Flush(true) && !s.stopped && |Flat(s.handed)| <= p < |Flat(s.handed)| + |s.batch|
      && s.batch[p - |Flat(s.handed)|].user !in s.optedOut
  }

  lemma ANewRow(cfg: Config, s: State, a: Action, p: nat)
    requires Inv(cfg, s) && p in Next(cfg, s, a).stored && p !in s.stored
    ensures Stores(p)(s, a)
  {
    RowIsAnInsertedEvent(cfg, s, p);
  }

  /** Only a committed write makes a row. */
  lemma {:induction false} EveryRowWasCommitted(cfg: Config, h: seq<Action>, p: nat)
    requires cfg.Valid() && p in After(cfg, Init, h).stored
    ensures Happened(Run(cfg), h, Stores(p))
    decreases |h|
  {
    var front, a := h[..|h| - 1], h[|h| - 1];
    var s := After(cfg, Init, front);
    AfterInv(cfg, front);
    assert h == front + [a];
    HappenedGrows(Run(cfg), front, a, Stores(p));
    if p in s.stored {
      EveryRowWasCommitted(cfg, front, p);
    } else {
      ANewRow(cfg, s, a, p);
    }
  }

  /** And a committed write leaves a row of its key for every event in the batch whose account has not opted
      out: its own, or the one that was there. */
  lemma {:induction false} ACommittedWriteStoresItsBatch(cfg: Config, s: State, i: nat) returns (q: nat)
    requires cfg.Valid() && Inv(cfg, s) && !s.stopped && i < |s.batch| && s.batch[i].user !in s.optedOut
    ensures var s' := Next(cfg, s, Flush(true));
            q in s'.stored && q < |s'.accepted| && SameKey(s'.accepted[q], s.batch[i])
    decreases i
  {
    if Inserted(s, i) {
      q := |Flat(s.handed)| + i;
      assert q in Rows(s);
      RowIsAnInsertedEvent(cfg, s, q);
    } else if j :| 0 <= j < i && s.batch[j].user !in s.optedOut && SameKey(s.batch[j], s.batch[i]) {
      q := ACommittedWriteStoresItsBatch(cfg, s, j);
    } else {
      q :| q in s.stored && q < |s.accepted| && SameKey(s.accepted[q], s.batch[i]);
    }
  }

  /** Once the flusher has stopped nothing is handed to the writer any more, and no row is added. */
  lemma {:induction false} AStoppedFlusherHandsNothing(cfg: Config, s: State, later: seq<Action>)
    ensures var end := After(cfg, Next(cfg, s, Stop), later);
            end.stopped && end.handed == s.handed && end.batch == s.batch && end.stored <= s.stored
    decreases |later|
  {
    if later != [] {
      AStoppedFlusherHandsNothing(cfg, s, later[..|later| - 1]);
    }
  }

  /** What a step says about an account's consent. */
  ghost function Consents(user: nat): (State, Action) -> Option<bool> {
    (s: State, a: Action) =>
      if a == OptOut(user) then Some(true) else if a == OptIn(user) || a == DeleteUser(user) then Some(false) else None
  }

  /** An account is opted out exactly when the last thing said about it was to opt out. */
  lemma {:induction false} OptedOutByTheLastWord(cfg: Config, h: seq<Action>, user: nat)
    ensures user in After(cfg, Init, h).optedOut <==> LastWritten(Run(cfg), h, Consents(user)) == Some(true)
    decreases |h|
  {
    if h != [] {
      OptedOutByTheLastWord(cfg, h[..|h| - 1], user);
    }
  }
}
