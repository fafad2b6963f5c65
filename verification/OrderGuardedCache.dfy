/** Read caches fed by events that may arrive late, twice or out of order, and by backfills: a row gives
    way only to a strictly newer event. The display cache and the location cache differ in their payload. */
module OrderGuardedCache {
  import opened Prelude

  datatype Payload = Display(fullName: string, photoURL: string, trust: nat) | Location(lat: real, lng: real)

  datatype Event = Event(user: nat, payload: Payload, at: int)

  datatype Row = Row(payload: Payload, at: int)

  type Table = map<nat, Row>

  predicate Newer(cache: Table, e: Event) {
    e.user in cache ==> e.at > cache[e.user].at
  }

  function Upsert(cache: Table, e: Event): Table {
    if Newer(cache, e) then cache[e.user := Row(e.payload, e.at)] else cache
  }

  function Deliver(cache: Table, events: seq<Event>): Table
    decreases |events|
  {
    if events == [] then cache else Upsert(Deliver(cache, events[..|events| - 1]), events[|events| - 1])
  }

  /** How many of the deliveries are applied rather than skipped. */
  function Applied(cache: Table, events: seq<Event>): nat
    decreases |events|
  {
    if events == [] then 0
    else
      var front := events[..|events| - 1];
      Applied(cache, front) + One(Newer(Deliver(cache, front), events[|events| - 1]))
  }

  lemma DeliverOne(cache: Table, events: seq<Event>, e: Event)
    ensures Deliver(cache, events + [e]) == Upsert(Deliver(cache, events), e)
    ensures Applied(cache, events + [e]) == Applied(cache, events) + One(Newer(Deliver(cache, events), e))
  {
    assert (events + [e])[..|events|] == events;
  }

  lemma {:induction false} DeliverTwice(cache: Table, events: seq<Event>, more: seq<Event>)
    ensures Deliver(cache, events + more) == Deliver(Deliver(cache, events), more)
    decreases |more|
  {
    if more == [] {
      assert events + more == events;
    } else {
      var front := more[..|more| - 1];
      DeliverTwice(cache, events, front);
      assert events + more == (events + front) + [more[|more| - 1]];
      DeliverOne(cache, events + front, more[|more| - 1]);
    }
  }

  lemma {:induction false} AppliedTwice(cache: Table, events: seq<Event>, more: seq<Event>)
    ensures Applied(cache, events + more) == Applied(cache, events) + Applied(Deliver(cache, events), more)
    decreases |more|
  {
    if more == [] {
      assert events + more == events;
    } else {
      var front := more[..|more| - 1];
      AppliedTwice(cache, events, front);
      DeliverTwice(cache, events, front);
      assert events + more == (events + front) + [more[|more| - 1]];
      DeliverOne(cache, events + front, more[|more| - 1]);
    }
  }

  // --- which row is left ---

  ghost predicate FromCache(cache: Table, user: nat, row: Row) {
    user in cache && cache[user] == row
  }

  ghost predicate FromEvent(cache: Table, events: seq<Event>, user: nat, row: Row) {
    Event(user, row.payload, row.at) in events && (user in cache ==> row.at > cache[user].at)
  }

  /** A row is the one the cache had or one of the events, and none of these is newer than it. */
  ghost predicate Left(cache: Table, events: seq<Event>, user: nat, row: Row) {
    && (FromCache(cache, user, row) || FromEvent(cache, events, user, row))
    && (user in cache ==> row.at >= cache[user].at)
    && forall e :: e in events && e.user == user ==> row.at >= e.at
  }

  lemma {:induction false} DeliverLeaves(cache: Table, events: seq<Event>, user: nat)
    ensures var after := Deliver(cache, events);
            if user in after then Left(cache, events, user, after[user])
            else user !in cache && forall e :: e in events ==> e.user != user
    decreases |events|
  {
    if events != [] {
      var front, e := events[..|events| - 1], events[|events| - 1];
      DeliverLeaves(cache, front, user);
      assert events == front + [e];
    }
  }

  /** A row's timestamp never goes back. */
  lemma TimestampsNeverDecrease(cache: Table, events: seq<Event>, more: seq<Event>, user: nat)
    requires user in Deliver(cache, events)
    ensures var before, after := Deliver(cache, events), Deliver(cache, events + more);
            user in after && after[user].at >= before[user].at
            && (after[user].at == before[user].at ==> after[user] == before[user])
  {
    DeliverTwice(cache, events, more);
    DeliverLeaves(Deliver(cache, events), more, user);
  }

  // --- convergence ---

  ghost function Elements(events: seq<Event>): set<Event> {
    set e | e in events
  }

  /** The newest events of an account, when they are newer than its row, say the same. */
  ghost predicate Top(cache: Table, all: set<Event>, e: Event) {
    e in all && Newer(cache, e) && forall f :: f in all && f.user == e.user ==> f.at <= e.at
  }

  ghost predicate Consistent(cache: Table, all: set<Event>) {
    forall e, f :: Top(cache, all, e) && Top(cache, all, f) && e.user == f.user ==> e.payload == f.payload
  }

  lemma {:induction false} SameRow(cache: Table, all: set<Event>, one: seq<Event>, two: seq<Event>, user: nat)
    requires Consistent(cache, all) && Elements(one) == all == Elements(two)
    ensures user in Deliver(cache, one) ==> user in Deliver(cache, two) && Deliver(cache, two)[user] == Deliver(cache, one)[user]
  {
    DeliverLeaves(cache, one, user);
    DeliverLeaves(cache, two, user);
    assert forall e :: e in one <==> e in all;
    assert forall e :: e in two <==> e in all;
    if user in Deliver(cache, one) {
      var r := Deliver(cache, one)[user];
      if FromEvent(cache, one, user, r) {
        assert Event(user, r.payload, r.at) in all;
      }
      assert user in Deliver(cache, two);
      var r' := Deliver(cache, two)[user];
      if FromEvent(cache, two, user, r') {
        assert Event(user, r'.payload, r'.at) in all;
      }
      if FromEvent(cache, one, user, r) && FromEvent(cache, two, user, r') {
        assert Top(cache, all, Event(user, r.payload, r.at)) && Top(cache, all, Event(user, r'.payload, r'.at));
      }
    }
  }

  /** Any two deliveries of the same events, reordered and repeated at will, leave the same cache. */
  lemma {:induction false} DeliveriesConverge(cache: Table, all: set<Event>, one: seq<Event>, two: seq<Event>)
    requires Consistent(cache, all) && Elements(one) == all == Elements(two)
    ensures Deliver(cache, one) == Deliver(cache, two)
  {
    forall user ensures user in Deliver(cache, one) <==> user in Deliver(cache, two) {
      SameRow(cache, all, one, two, user);
      SameRow(cache, all, two, one, user);
    }
    forall user | user in Deliver(cache, one) ensures Deliver(cache, one)[user] == Deliver(cache, two)[user] {
      SameRow(cache, all, one, two, user);
    }
  }

  lemma {:induction false} ToSequence(all: set<Event>) returns (events: seq<Event>)
    ensures Elements(events) == all
    decreases all
  {
    if all == {} {
      events := [];
    } else {
      var e :| e in all;
      var fewer := ToSequence(all - {e});
      events := fewer + [e];
      assert Elements(events) == Elements(fewer) + {e};
    }
  }

  /** The first of the newest events wins, so two of them that differ make the order of delivery matter. */
  lemma FirstOfTheNewestWins(cache: Table, all: set<Event>, e: Event, rest: seq<Event>)
    requires Top(cache, all, e) && Elements(rest) <= all
    ensures e.user in Deliver(cache, [e] + rest) && Deliver(cache, [e] + rest)[e.user] == Row(e.payload, e.at)
  {
    DeliverOne(cache, [], e);
    assert [] + [e] == [e];
    DeliverTwice(cache, [e], rest);
    DeliverLeaves(Deliver(cache, [e]), rest, e.user);
    var row := Deliver(cache, [e] + rest)[e.user];
    assert FromEvent(Deliver(cache, [e]), rest, e.user, row) ==> Event(e.user, row.payload, row.at) in Elements(rest);
  }

  /** Every delivery of a set of events ends alike exactly when its newest events agree. */
  lemma ConvergesExactlyWhenConsistent(cache: Table, all: set<Event>)
    ensures Consistent(cache, all)
            <==> (forall one, two :: Elements(one) == all == Elements(two) ==> Deliver(cache, one) == Deliver(cache, two))
  {
    if Consistent(cache, all) {
      forall one, two | Elements(one) == all == Elements(two) ensures Deliver(cache, one) == Deliver(cache, two) {
        DeliveriesConverge(cache, all, one, two);
      }
    } else {
      var e, f :| Top(cache, all, e) && Top(cache, all, f) && e.user == f.user && e.payload != f.payload;
      var rest := ToSequence(all);
      FirstOfTheNewestWins(cache, all, e, rest);
      FirstOfTheNewestWins(cache, all, f, rest);
      assert Elements([e] + rest) == all == Elements([f] + rest);
      assert Deliver(cache, [e] + rest) != Deliver(cache, [f] + rest);
    }
  }

  // --- the backfill ---

  /** One row for each account, as the query reads them. */
  ghost predicate Distinct(rows: seq<Event>) {
    forall i, j :: 0 <= i < j < |rows| ==> rows[i].user != rows[j].user
  }

  /** A run that stopped after any batch, then run again to its end, leaves what one whole run leaves. */
  lemma AStoppedRunAndAWholeOne(cache: Table, rows: seq<Event>, k: nat)
    requires Distinct(rows) && k <= |rows|
    ensures Deliver(Deliver(cache, rows[..k]), rows) == Deliver(cache, rows)
  {
    DeliverTwice(cache, rows[..k], rows);
    assert Elements(rows[..k] + rows) == Elements(rows);
    DeliveriesConverge(cache, Elements(rows), rows[..k] + rows, rows);
  }

  predicate WholeBatches(n: nat, size: nat)
    requires size >= 1
  {
    n == 0 || (n >= size && WholeBatches(n - size, size))
  }

  datatype Outcome = Completed | BadBatchSize | Failed

  /** The statements of one transaction, on its own view of the table. */
  method UpsertAll(rows: Table, pending: seq<Event>, healthy: bool)
    returns (working: Table, applied: nat, skipped: nat, failed: bool)
    ensures healthy ==> !failed
    ensures !failed ==> working == Deliver(rows, pending) && applied == Applied(rows, pending) && applied + skipped == |pending|
  {
    working, applied, skipped := rows, 0, 0;
    for i := 0 to |pending|
      invariant working == Deliver(rows, pending[..i]) && applied == Applied(rows, pending[..i]) && applied + skipped == i
    {
      var broken := *;
      if broken && !healthy {
        return working, applied, skipped, true;
      }
      DeliverOne(rows, pending[..i], pending[i]);
      assert pending[..i] + [pending[i]] == pending[..i + 1];
      if Newer(working, pending[i]) {
        applied := applied + 1;
      } else {
        skipped := skipped + 1;
      }
      working := Upsert(working, pending[i]);
    }
    assert pending[..|pending|] == pending;
    failed := false;
  }

  /** The cache table. `alone` says that no live event arrives during a run; `seen` is every upsert that
      has been committed to it, in order. */
  class Cache {
    var rows: Table
    ghost const start: Table
    ghost var seen: seq<Event>
    const alone: bool
    const healthy: bool   // no statement fails

    ghost predicate Valid()
      reads this
    {
      rows == Deliver(start, seen)
    }

    constructor (rows: Table, alone: bool, healthy: bool)
      ensures Valid() && this.rows == rows && this.alone == alone && this.healthy == healthy && start == rows && seen == []
    {
      this.rows, this.start, this.seen, this.alone, this.healthy := rows, rows, [], alone, healthy;
    }

    /** Live events, each upserted by its handler. */
    method Live()
      requires Valid()
      modifies this
      ensures Valid() && old(seen) <= seen && (alone ==> seen == old(seen))
    {
      var n: nat := *;
      while n > 0
        invariant Valid() && old(seen) <= seen && (alone ==> seen == old(seen))
      {
        var e: Event := *;
        if !alone {
          rows := Upsert(rows, e);
          DeliverOne(start, seen, e);
          seen := seen + [e];
        }
        n := n - 1;
      }
    }

    /** One batch in one transaction: every row of it or none. */
    method Flush(pending: seq<Event>) returns (applied: nat, skipped: nat, failed: bool)
      requires Valid()
      modifies this
      ensures Valid() && (seen == old(seen) || (seen == old(seen) + pending && rows == Deliver(old(rows), pending)))
      ensures !failed ==> seen == old(seen) + pending && applied == Applied(old(rows), pending) && applied + skipped == |pending|
      ensures healthy ==> !failed
    {
      var working;
      working, applied, skipped, failed := UpsertAll(rows, pending, healthy);
      if failed {
        return;
      }
      var commit: Fault := *;
      commit := if healthy then Fine else commit;
      if !commit.Down? {
        DeliverTwice(start, seen, pending);
        rows, seen := working, seen + pending;
      }
      failed := !commit.Fine?;
    }

    /** Reads every row and upserts them batch by batch. Every row is accounted for when it completes; a
        dry run writes nothing; and alone, what has been committed is always a run of whole batches. */
    method Run(source: seq<Event>, dryRun: bool, batchSize: int)
      returns (r: Outcome, total: nat, applied: nat, skipped: nat, ghost done: nat)
      requires Valid()
      modifies this
      ensures Valid() && old(seen) <= seen && done <= |source|
      ensures batchSize <= 0 <==> r.BadBatchSize?
      ensures r.BadBatchSize? ==> total == applied == skipped == 0
      ensures healthy && batchSize > 0 ==> r.Completed?
      ensures r.Completed? ==> total == |source| && applied + skipped == if dryRun then 0 else total
      ensures r.Completed? && !dryRun ==> done == |source|
      ensures dryRun || r.BadBatchSize? ==> done == 0
      ensures forall i :: 0 <= i < done ==> source[i] in seen
      ensures batchSize > 0 && done < |source| ==> WholeBatches(done, batchSize)
      ensures alone ==> rows == Deliver(old(rows), source[..done])
      ensures alone && r.Completed? ==> applied == Applied(old(rows), source[..done])
    {
      r, total, applied, skipped, done := Failed, 0, 0, 0, 0;
      if batchSize <= 0 {
        return BadBatchSize, 0, 0, 0, 0;
      }
      var pending: seq<Event> := [];
      var a, k, failed := 0, 0, false;
      while total < |source|
        invariant Valid() && old(seen) <= seen && total <= |source|
        invariant Committed(old(rows), source, done) && (alone ==> applied == Applied(old(rows), source[..done]))
        invariant if dryRun then done == applied == skipped == 0
                  else done <= total && pending == source[done..total] && applied + skipped == done
        invariant |pending| < batchSize && WholeBatches(done, batchSize)
      {
        Live();
        var scanned := *;
        if !scanned && !healthy {
          return;
        }
        pending := pending + [source[total]];
        total := total + 1;
        if |pending| >= batchSize {
          a, k, failed, done := FlushPending(source, pending, dryRun, old(rows), done, total);
          if failed {
            return;
          }
          applied, skipped, pending := applied + a, skipped + k, [];
        }
      }
      Live();
      a, k, failed, done := FlushPending(source, pending, dryRun, old(rows), done, total);
      if !failed {
        r, applied, skipped := Completed, applied + a, skipped + k;
      }
    }

    /** The first `done` rows have been committed, and alone nothing else has. */
    ghost predicate Committed(before: Table, source: seq<Event>, done: nat)
      reads this
    {
      && done <= |source|
      && (forall i :: 0 <= i < done ==> source[i] in seen)
      && (alone ==> rows == Deliver(before, source[..done]))
    }

    /** Writes what is pending, unless there is nothing or the run is dry; fewer than all only on failure. */
    method FlushPending(source: seq<Event>, pending: seq<Event>, dryRun: bool, ghost before: Table, ghost done: nat, ghost total: nat)
      returns (applied: nat, skipped: nat, failed: bool, ghost done': nat)
      requires Valid() && total <= |source| && Committed(before, source, done)
      requires dryRun || (done <= total && pending == source[done..total])
      modifies this
      ensures Valid() && old(seen) <= seen && Committed(before, source, done')
      ensures done' == done || (!dryRun && done' == total)
      ensures !failed ==> done' == (if dryRun then done else total) && applied + skipped == done' - done
      ensures !failed && alone ==> Applied(before, source[..done]) + applied == Applied(before, source[..done'])
      ensures healthy ==> !failed
    {
      applied, skipped, failed, done' := 0, 0, false, done;
      if pending == [] || dryRun {
        return;
      }
      ghost var now := seen;
      applied, skipped, failed := Flush(pending);
      assert source[..total] == source[..done] + pending;
      DeliverTwice(before, source[..done], pending);
      AppliedTwice(before, source[..done], pending);
      if seen != now {
        done' := total;
        forall i | 0 <= i < total ensures source[i] in seen {
          assert i >= done ==> pending[i - done] in seen;
        }
      }
    }
  }
}
