/** The bounded queue between the event ingest and the store, its single flusher, and the deletions
    that must not be overtaken by events still waiting. */
module EventBuffer {
  import opened Prelude

  /** `day` is the UTC day the event was received on; user 0 is "not signed in". */
  datatype Event = Event(id: nat, day: nat, user: nat)

  /** The store's primary key is the day and the identifier together. */
  predicate SameKey(a: Event, b: Event) {
    a.id == b.id && a.day == b.day
  }

  datatype Config = Config(capacity: nat, flushSize: nat) {
    predicate Valid() { capacity >= 1 && flushSize >= 1 }
  }

  /** `accepted` is every event ever queued and `handed` every batch ever given to the writer, whether it
      was stored or failed. The table is the set of the positions of its rows in `accepted`. */
  datatype State = State(accepted: seq<Event>, handed: seq<seq<Event>>, batch: seq<Event>, queue: seq<Event>,
                         stored: set<nat>, optedOut: set<nat>, stopped: bool)

  datatype Action =
    | Offer(e: Event)
    | Take
    | Flush(committed: bool)
    | Stop
    | DeleteUser(user: nat)
    | OptOut(user: nat)
    | OptIn(user: nat)
    | DeleteEvents(user: nat)

  const Init := State([], [], [], [], {}, {}, false)

  function Flat(batches: seq<seq<Event>>): seq<Event>
    decreases |batches|
  {
    if batches == [] then [] else Flat(batches[..|batches| - 1]) + batches[|batches| - 1]
  }

  lemma FlatAppend(batches: seq<seq<Event>>, batch: seq<Event>)
    ensures Flat(batches + [batch]) == Flat(batches) + batch
  {
    assert (batches + [batch])[..|batches|] == batches;
  }

  /** The rows one write adds for a batch whose first event has position `at`: nothing of an account that
      opted out, and one row for each key. */
  ghost predicate Inserted(s: State, i: nat)
    requires i < |s.batch|
  {
    && s.batch[i].user !in s.optedOut
    && (forall p :: p in s.stored && p < |s.accepted| ==> !SameKey(s.accepted[p], s.batch[i]))
    && (forall j :: 0 <= j < i && s.batch[j].user !in s.optedOut ==> !SameKey(s.batch[j], s.batch[i]))
  }

  ghost function Rows(s: State): set<nat>
  {
    set i | 0 <= i < |s.batch| && Inserted(s, i) :: |Flat(s.handed)| + i
  }

  ghost function Without(s: State, user: nat): set<nat>
  {
    set p | p in s.stored && !(p < |s.accepted| && s.accepted[p].user == user)
  }

  ghost function Next(cfg: Config, s: State, a: Action): State {
    match a
    case Offer(e) =>
      if |s.queue| < cfg.capacity then s.(accepted := s.accepted + [e], queue := s.queue + [e]) else s
    case Take =>
      if s.queue != [] && |s.batch| < cfg.flushSize && !s.stopped
      then s.(batch := s.batch + [s.queue[0]], queue := s.queue[1..]) else s
    case Flush(committed) =>
      if s.batch != [] && !s.stopped
      then s.(handed := s.handed + [s.batch], batch := [], stored := if committed then s.stored + Rows(s) else s.stored)
      else s
    case Stop => s.(stopped := true)
    case DeleteUser(user) => s.(stored := Without(s, user), optedOut := s.optedOut - {user})
    case OptOut(user) => s.(optedOut := s.optedOut + {user})
    case OptIn(user) => s.(optedOut := s.optedOut - {user})
    case DeleteEvents(user) => s.(stored := Without(s, user))
  }

  ghost function After(cfg: Config, s: State, h: seq<Action>): State
    decreases |h|
  {
    if h == [] then s else Next(cfg, After(cfg, s, h[..|h| - 1]), h[|h| - 1])
  }

  lemma AfterOne(cfg: Config, h: seq<Action>, a: Action)
    ensures After(cfg, Init, h + [a]) == Next(cfg, After(cfg, Init, h), a)
  {
    assert (h + [a])[..|h|] == h;
  }

  // --- the invariant ---

  ghost predicate Conserved(cfg: Config, s: State) {
    && s.accepted == Flat(s.handed) + s.batch + s.queue
    && |s.queue| <= cfg.capacity && |s.batch| <= cfg.flushSize
    && forall b :: b in s.handed ==> 1 <= |b| <= cfg.flushSize
  }

  /** A table of `rows`, all of them among the first `bound` events: no key has two rows. */
  ghost predicate RowsOnce(accepted: seq<Event>, rows: set<nat>, bound: nat) {
    && (forall p :: p in rows ==> p < bound <= |accepted|)
    && (forall p, q :: p in rows && q in rows && SameKey(accepted[p], accepted[q]) ==> p == q)
  }

  ghost predicate Inv(cfg: Config, s: State) {
    Conserved(cfg, s) && RowsOnce(s.accepted, s.stored, |Flat(s.handed)|)
  }

  lemma RowIsAnInsertedEvent(cfg: Config, s: State, p: nat)
    requires Inv(cfg, s) && p in Rows(s)
    ensures var i := p - |Flat(s.handed)|; 0 <= i < |s.batch| && Inserted(s, i) && p < |s.accepted| && s.accepted[p] == s.batch[i]
  {
  }

  lemma RowsAreNew(cfg: Config, s: State, p: nat, q: nat)
    requires Inv(cfg, s) && p in Rows(s) && q in s.stored + Rows(s)
    requires p < |s.accepted| && q < |s.accepted| && SameKey(s.accepted[p], s.accepted[q])
    ensures p == q
  {
    RowIsAnInsertedEvent(cfg, s, p);
    if q in Rows(s) {
      RowIsAnInsertedEvent(cfg, s, q);
    }
  }

  lemma FlushRowsOnce(cfg: Config, s: State)
    requires Inv(cfg, s)
    ensures RowsOnce(s.accepted, s.stored + Rows(s), |Flat(s.handed)| + |s.batch|)
  {
    forall p | p in Rows(s) ensures p < |Flat(s.handed)| + |s.batch| {
      RowIsAnInsertedEvent(cfg, s, p);
    }
    forall p, q | p in s.stored + Rows(s) && q in s.stored + Rows(s) && SameKey(s.accepted[p], s.accepted[q]) ensures p == q {
      if p !in s.stored {
        RowsAreNew(cfg, s, p, q);
      } else if q !in s.stored {
        RowsAreNew(cfg, s, q, p);
      }
    }
  }

  lemma FlushInv(cfg: Config, s: State, committed: bool)
    requires Inv(cfg, s)
    ensures Inv(cfg, Next(cfg, s, Flush(committed)))
  {
    FlatAppend(s.handed, s.batch);
    FlushRowsOnce(cfg, s);
  }

  lemma OfferInv(cfg: Config, s: State, e: Event)
    requires cfg.Valid() && Inv(cfg, s)
    ensures Inv(cfg, Next(cfg, s, Offer(e)))
  {
    assert Flat(s.handed) + s.batch + (s.queue + [e]) == (Flat(s.handed) + s.batch + s.queue) + [e];
  }

  lemma TakeInv(cfg: Config, s: State)
    requires cfg.Valid() && Inv(cfg, s)
    ensures Inv(cfg, Next(cfg, s, Take))
  {
    if s.queue != [] {
      assert s.batch + s.queue == (s.batch + [s.queue[0]]) + s.queue[1..];
    }
  }

  lemma NextInv(cfg: Config, s: State, a: Action)
    requires cfg.Valid() && Inv(cfg, s)
    ensures Inv(cfg, Next(cfg, s, a))
  {
    match a
    case Offer(e) => OfferInv(cfg, s, e);
    case Take => TakeInv(cfg, s);
    case Flush(committed) => FlushInv(cfg, s, committed);
    case Stop =>
    case DeleteUser(user) =>
    case OptOut(user) =>
    case OptIn(user) =>
    case DeleteEvents(user) =>
  }

  lemma NextGrows(cfg: Config, s: State, a: Action)
    ensures s.accepted <= Next(cfg, s, a).accepted && Flat(s.handed) <= Flat(Next(cfg, s, a).handed)
    ensures s.stopped ==> Next(cfg, s, a).stopped
  {
    if a.Flush? {
      FlatAppend(s.handed, s.batch);
    }
  }

  lemma {:induction false} AfterInv(cfg: Config, h: seq<Action>)
    requires cfg.Valid()
    ensures Inv(cfg, After(cfg, Init, h))
    decreases |h|
  {
    if h != [] {
      AfterInv(cfg, h[..|h| - 1]);
      NextInv(cfg, After(cfg, Init, h[..|h| - 1]), h[|h| - 1]);
    }
  }

  // --- theorems over every history ---

  /** Every accepted event is, in order and exactly once, in a batch handed to the writer, in the batch
      being filled or in the queue; a batch handed over has between one and `flushSize` events. */
  lemma {:induction false} ConservationInOrder(cfg: Config, h: seq<Action>)
    requires cfg.Valid()
    ensures var s := After(cfg, Init, h);
            && s.accepted == Flat(s.handed) + s.batch + s.queue
            && |s.queue| <= cfg.capacity
            && forall b :: b in s.handed ==> 1 <= |b| <= cfg.flushSize
  {
    AfterInv(cfg, h);
  }

  lemma AllHanded(cfg: Config, s: State, before: seq<Event>)
    requires Conserved(cfg, s) && s.batch == [] && before <= s.accepted && |Flat(s.handed)| == |before|
    ensures Flat(s.handed) == before && s.accepted == before + s.queue
  {
    assert Flat(s.handed) == s.accepted[..|before|];
  }

  /** Row `p` is of identifier `id`. */
  ghost predicate RowOf(s: State, p: nat, id: nat) {
    p in s.stored && p < |s.accepted| && s.accepted[p].id == id
  }

  /** Redelivered on the day it was first received, an event is stored once: two rows of one identifier are
      of different days. So an identifier has at most one row exactly when all its rows are of one day. */
  lemma AnIdentifierHasOneRowExactlyWithinADay(cfg: Config, h: seq<Action>, id: nat)
    requires cfg.Valid()
    ensures var s := After(cfg, Init, h);
            && (forall p: nat, q: nat :: RowOf(s, p, id) && RowOf(s, q, id) && p != q ==> s.accepted[p].day != s.accepted[q].day)
            && ((forall p: nat, q: nat :: RowOf(s, p, id) && RowOf(s, q, id) ==> p == q)
                <==> (forall p: nat, q: nat :: RowOf(s, p, id) && RowOf(s, q, id) ==> s.accepted[p].day == s.accepted[q].day))
  {
    AfterInv(cfg, h);
    var s := After(cfg, Init, h);
    forall p: nat, q: nat | RowOf(s, p, id) && RowOf(s, q, id) && p != q ensures s.accepted[p].day != s.accepted[q].day {
      assert !SameKey(s.accepted[p], s.accepted[q]);
    }
  }

  /** The first `n` accepted events can change in the table only by being deleted. */
  ghost predicate Settled(s: State, n: nat) {
    n <= |Flat(s.handed)| || (s.stopped && n <= |s.accepted|)
  }

  ghost predicate NoneOf(s: State, user: nat, n: nat) {
    forall p :: p in s.stored && p < n && p < |s.accepted| ==> s.accepted[p].user != user
  }

  lemma NextKeepsNone(cfg: Config, s: State, a: Action, user: nat, n: nat)
    requires cfg.Valid() && Inv(cfg, s) && Settled(s, n) && NoneOf(s, user, n)
    ensures Settled(Next(cfg, s, a), n) && NoneOf(Next(cfg, s, a), user, n)
  {
    NextGrows(cfg, s, a);
  }

  lemma {:induction false} AfterKeepsNone(cfg: Config, s: State, later: seq<Action>, user: nat, n: nat)
    requires cfg.Valid() && Inv(cfg, s) && Settled(s, n) && NoneOf(s, user, n)
    ensures Inv(cfg, After(cfg, s, later)) && Settled(After(cfg, s, later), n) && NoneOf(After(cfg, s, later), user, n)
    decreases |later|
  {
    if later != [] {
      var front := later[..|later| - 1];
      AfterKeepsNone(cfg, s, front, user, n);
      NextInv(cfg, After(cfg, s, front), later[|later| - 1]);
      NextKeepsNone(cfg, After(cfg, s, front), later[|later| - 1], user, n);
    }
  }

  /** Deleted behind the barrier is deleted for good: once the first `n` events have all been handed
      over, or the flusher has stopped, and the account's events are deleted, with the account or after an
      opt-out, no step ever brings one of them back. */
  lemma DeletedBehindTheBarrierStaysDeleted(cfg: Config, h: seq<Action>, user: nat, n: nat, delete: Action, later: seq<Action>)
    requires cfg.Valid() && Settled(After(cfg, Init, h), n)
    requires delete == DeleteUser(user) || delete == DeleteEvents(user)
    ensures NoneOf(After(cfg, Next(cfg, After(cfg, Init, h), delete), later), user, n)
  {
    AfterInv(cfg, h);
    var s := After(cfg, Init, h);
    NextInv(cfg, s, delete);
    AfterKeepsNone(cfg, Next(cfg, s, delete), later, user, n);
  }

  lemma Extend(cfg: Config, h: seq<Action>, a: Action) returns (h': seq<Action>)
    ensures h' == h + [a] && After(cfg, Init, h') == Next(cfg, After(cfg, Init, h), a)
  {
    h' := h + [a];
    AfterOne(cfg, h, a);
  }

  lemma RowsOfOne(s: State, e: Event)
    requires s.batch == [e] && e.user !in s.optedOut
    requires forall p :: p in s.stored && p < |s.accepted| ==> !SameKey(s.accepted[p], e)
    ensures Rows(s) == {|Flat(s.handed)|}
  {
    assert Inserted(s, 0);
  }

  /** An event taken and written by itself, into a table that has not got its key. */
  lemma OneMoreRow(cfg: Config, h: seq<Action>, e: Event) returns (h': seq<Action>)
    requires cfg.Valid()
    requires var s := After(cfg, Init, h); s.batch == [] && s.queue == [] && !s.stopped && e.user !in s.optedOut
    requires var s := After(cfg, Init, h); forall p :: p in s.stored && p < |s.accepted| ==> !SameKey(s.accepted[p], e)
    ensures var s, s' := After(cfg, Init, h), After(cfg, Init, h');
            && s'.accepted == s.accepted + [e] && s'.stored == s.stored + {|s.accepted|}
            && s'.batch == [] && s'.queue == [] && !s'.stopped && s'.optedOut == s.optedOut
  {
    AfterInv(cfg, h);
    var s := After(cfg, Init, h);
    h' := Extend(cfg, h, Offer(e));
    h' := Extend(cfg, h', Take);
    var full := After(cfg, Init, h');
    assert full == s.(accepted := s.accepted + [e], batch := [e]);
    assert s.accepted == Flat(s.handed);
    RowsOfOne(full, e);
    h' := Extend(cfg, h', Flush(true));
  }

  /** And redelivered on another day it is stored a second time. */
  lemma ARedeliveryOnAnotherDayIsStoredTwice(cfg: Config, id: nat, day: nat, later: nat, user: nat) returns (h: seq<Action>)
    requires cfg.Valid() && day != later
    ensures var s := After(cfg, Init, h);
            RowOf(s, 0, id) && RowOf(s, 1, id) && s.accepted == [Event(id, day, user), Event(id, later, user)]
  {
    h := OneMoreRow(cfg, [], Event(id, day, user));
    h := OneMoreRow(cfg, h, Event(id, later, user));
  }

  /** Without the barrier an event still queued lands after the delete. */
  lemma AnEventStillQueuedLandsAfterTheDelete(cfg: Config, e: Event) returns (h: seq<Action>)
    requires cfg.Valid()
    ensures h == [Offer(e), DeleteUser(e.user), Take, Flush(true)]
    ensures !NoneOf(After(cfg, Init, h), e.user, 1)
  {
    h := Extend(cfg, [], Offer(e));
    h := Extend(cfg, h, DeleteUser(e.user));
    assert After(cfg, Init, h) == State([e], [], [], [e], {}, {}, false);
    h := Extend(cfg, h, Take);
    var s := After(cfg, Init, h);
    assert s == State([e], [], [e], [], {}, {}, false);
    assert Inserted(s, 0);
    assert 0 in Rows(s);
    h := Extend(cfg, h, Flush(true));
  }

  /** While an account is opted out and its events have been deleted, nothing of it is stored, whatever
      was queued before: only opting in again, or deleting the account, ends that. */
  lemma {:induction false} OptedOutStaysEmpty(cfg: Config, s: State, later: seq<Action>, user: nat)
    requires cfg.Valid() && Inv(cfg, s) && user in s.optedOut && NoneOf(s, user, |s.accepted|)
    requires OptIn(user) !in later && DeleteUser(user) !in later
    ensures var s' := After(cfg, s, later);
            Inv(cfg, s') && user in s'.optedOut && NoneOf(s', user, |s'.accepted|)
    decreases |later|
  {
    if later != [] {
      var front := later[..|later| - 1];
      OptedOutStaysEmpty(cfg, s, front, user);
      assert later[|later| - 1] in later;
      OptedOutNext(cfg, After(cfg, s, front), later[|later| - 1], user);
    }
  }

  lemma OptedOutNext(cfg: Config, s: State, a: Action, user: nat)
    requires cfg.Valid() && Inv(cfg, s) && user in s.optedOut && NoneOf(s, user, |s.accepted|)
    requires a != OptIn(user) && a != DeleteUser(user)
    ensures var s' := Next(cfg, s, a); Inv(cfg, s') && user in s'.optedOut && NoneOf(s', user, |s'.accepted|)
  {
    NextInv(cfg, s, a);
    if a.Flush? {
      OptedOutFlush(cfg, s, a.committed, user);
    } else {
      NextGrows(cfg, s, a);
    }
  }

  lemma OptedOutFlush(cfg: Config, s: State, committed: bool, user: nat)
    requires cfg.Valid() && Inv(cfg, s) && user in s.optedOut && NoneOf(s, user, |s.accepted|)
    ensures NoneOf(Next(cfg, s, Flush(committed)), user, |s.accepted|)
  {
    forall i | 0 <= i < |s.batch| ensures s.accepted[|Flat(s.handed)| + i] == s.batch[i] {
    }
  }
}
