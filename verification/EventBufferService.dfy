/** The buffer's own code: producers that never block, one flusher that reuses its batch in place, the
    barrier, and the deletions that rely on it. */
module EventBufferService {
  import opened Prelude
  import opened EventBuffer
  import opened EventRows

  const DEFAULT_BUFFER_CAPACITY := 10_000
  const DEFAULT_FLUSH_SIZE := 500
  const MAX_BATCH_EVENTS := 50

  datatype Cause = Received | Asked | Ticked

  datatype Ending = Acked | Done | Expired

  /** Event `i` of a request was queued at position `p`. */
  datatype Place = Place(i: nat, p: nat)

  ghost predicate Queued(events: seq<Option<Event>>, accepted: seq<Event>, from: nat, places: seq<Place>) {
    && (forall k :: 0 <= k < |places| ==>
          && places[k].i < |events| && from <= places[k].p < |accepted|
          && events[places[k].i] == Some(accepted[places[k].p]))
    && forall j, k :: 0 <= j < k < |places| ==> places[j].i < places[k].i && places[j].p < places[k].p
  }

  /** The events of a request that the registry knows. */
  function Known(events: seq<Option<Event>>): seq<Event>
    decreases |events|
  {
    if events == [] then []
    else
      var front, last := Known(events[..|events| - 1]), events[|events| - 1];
      if last.Some? then front + [last.value] else front
  }

  lemma QueuedMore(events: seq<Option<Event>>, accepted: seq<Event>, from: nat, places: seq<Place>, longer: seq<Event>, place: Place)
    requires Queued(events, accepted, from, places) && accepted <= longer
    requires forall k :: 0 <= k < |places| ==> places[k].i < place.i
    ensures Queued(events, longer, from, places)
    ensures place.i < |events| && from <= |accepted| <= place.p < |longer| && events[place.i] == Some(longer[place.p])
            ==> Queued(events, longer, from, places + [place])
  {
  }

  class Buffer {
    const cfg: Config
    const calm: bool   // nothing else runs, no call fails and no context ends
    const batch: array<Event>   // the flusher's, reused for every write
    var len: nat
    var queue: seq<Event>
    var stopped: bool
    ghost var accepted: seq<Event>
    ghost var handed: seq<seq<Event>>
    ghost var stored: set<nat>
    ghost var optedOut: set<nat>
    ghost var log: seq<Action>

    ghost function View(): State
      reads this, batch
      requires len <= batch.Length
    {
      State(accepted, handed, batch[..len], queue, stored, optedOut, stopped)
    }

    ghost predicate Valid()
      reads this, batch
    {
      && cfg.Valid() && batch.Length == cfg.flushSize && len <= batch.Length
      && View() == After(cfg, Init, log)
    }

    /** A full batch is written before anything else is done. */
    ghost predicate Ready()
      reads this, batch
    {
      Valid() && len < cfg.flushSize
    }

    constructor (capacity: int, flushSize: int, calm: bool)
      ensures Ready() && View() == Init && fresh(batch) && this.calm == calm
      ensures cfg == Config(if capacity <= 0 then DEFAULT_BUFFER_CAPACITY else capacity,
                            if flushSize <= 0 then DEFAULT_FLUSH_SIZE else flushSize)
    {
      var size: nat := if flushSize <= 0 then DEFAULT_FLUSH_SIZE else flushSize;
      cfg := Config(if capacity <= 0 then DEFAULT_BUFFER_CAPACITY else capacity, size);
      batch, this.calm := new Event[size], calm;
      len, queue, stopped := 0, [], false;
      accepted, handed, stored, optedOut, log := [], [], {}, {}, [];
    }

    /** Writes down the step just made in state `s`. */
    ghost method Note(s: State, a: Action)
      requires cfg.Valid() && batch.Length == cfg.flushSize && len <= batch.Length
      requires s == After(cfg, Init, log) && View() == Next(cfg, s, a)
      modifies this`log
      ensures Valid() && log == old(log) + [a]
    {
      AfterOne(cfg, log, a);
      log := log + [a];
    }

    // --- buffer.go: producers ---

    /** Never blocks: a full queue refuses the event. */
    method Offer(e: Event) returns (ok: bool)
      requires Valid()
      modifies this`queue, this`accepted, this`log
      ensures Valid() && old(log) <= log
      ensures ok == (|old(queue)| < cfg.capacity)
      ensures accepted == (if ok then old(accepted) + [e] else old(accepted))
      ensures queue == if ok then old(queue) + [e] else old(queue)
    {
      ghost var s := View();
      ok := |queue| < cfg.capacity;
      if ok {
        queue := queue + [e];
        accepted := accepted + [e];
      }
      Note(s, Action.Offer(e));
    }

    /** Anything but the flusher. */
    method Outside(quiet: nat)
      requires Valid()
      modifies this`queue, this`accepted, this`stored, this`optedOut, this`log
      ensures Valid() && old(log) <= log && old(queue) <= queue && old(accepted) <= accepted
      ensures quiet != 0 && quiet in old(optedOut) ==> quiet in optedOut
      ensures calm ==> View() == old(View())
    {
      var steps: nat := *;
      while steps > 0
        invariant Valid() && old(log) <= log && old(queue) <= queue && old(accepted) <= accepted
        invariant quiet != 0 && quiet in old(optedOut) ==> quiet in optedOut
        invariant calm ==> View() == old(View())
      {
        var a: Action := *;
        ghost var s := View();
        if calm {
        } else if a.Offer? {
          var ok := Offer(a.e);
        } else if a.OptOut? || ((a.OptIn? || a.DeleteUser?) && a.user != quiet) || a.DeleteEvents? {
          stored, optedOut := Next(cfg, s, a).stored, Next(cfg, s, a).optedOut;
          Note(s, a);
        }
        steps := steps - 1;
      }
    }

    // --- buffer.go: the flusher ---

    /** The writer copies the rows out before it returns, so reusing the array afterwards changes nothing. */
    method Write(events: array<Event>, n: nat) returns (rows: seq<Event>, committed: bool)
      requires n <= events.Length
      ensures rows == events[..n]
    {
      rows := [];
      for i := 0 to n
        invariant rows == events[..i]
      {
        rows := rows + [events[i]];
      }
      committed := *;   // the call may fail either side of its commit
    }

    /** Hands over what the batch holds, if anything, and empties it in place. */
    method Flush()
      requires Valid() && !stopped
      modifies this
      ensures Valid() && old(log) <= log && len == 0
      ensures handed == if old(len) == 0 then old(handed) else old(handed) + [old(batch[..len])]
      ensures queue == old(queue) && accepted == old(accepted) && stopped == old(stopped) && optedOut == old(optedOut)
    {
      if len > 0 {
        ghost var s := View();
        var rows, committed := Write(batch, len);
        assert s.batch != [];
        handed, stored := handed + [rows], Next(cfg, s, Action.Flush(committed)).stored;
        len := 0;
        Note(s, Action.Flush(committed));
      }
    }

    /** Receives the oldest event into the batch, and writes the batch when that fills it. */
    method Take()
      requires Ready() && !stopped && queue != []
      modifies this, batch
      ensures Ready() && old(log) <= log && accepted == old(accepted) && !stopped && optedOut == old(optedOut)
      ensures queue == old(queue)[1..] && |Flat(handed)| + len == |Flat(old(handed))| + old(len) + 1
      ensures |Flat(old(handed))| <= |Flat(handed)|
      ensures old(len) + 1 < cfg.flushSize ==> handed == old(handed) && len == old(len) + 1
    {
      ghost var s := View();
      batch[len], queue := queue[0], queue[1..];
      len := len + 1;
      assert batch[..len] == s.batch + [s.queue[0]];
      Note(s, Action.Take);
      if len >= cfg.flushSize {
        FlatAppend(handed, batch[..len]);
        Flush();
      }
    }

    /** One receive of a drain: it finds an event, because only the flusher takes any away. */
    method Receive(quiet: nat)
      requires Ready() && !stopped && queue != []
      modifies this, batch
      ensures Ready() && old(log) <= log && !stopped && old(accepted) <= accepted && |old(queue)| <= |queue| + 1
      ensures |Flat(handed)| + len == |Flat(old(handed))| + old(len) + 1
      ensures quiet != 0 && quiet in old(optedOut) ==> quiet in optedOut
    {
      Outside(quiet);
      Take();
    }

    /** Takes what is queued at its start and no more, however fast producers add to the queue, and
        hands everything over: what had been accepted by then is exactly what the writer has seen. */
    method Drain(quiet: nat) returns (taken: nat)
      requires Ready() && !stopped
      modifies this, batch
      ensures Ready() && len == 0 && old(log) <= log && !stopped
      ensures taken == old(len) + |old(queue)|
      ensures Flat(handed) == old(accepted) && accepted == old(accepted) + queue
      ensures quiet != 0 && quiet in old(optedOut) ==> quiet in optedOut
    {
      AfterInv(cfg, log);
      taken := len;
      var n := |queue|;
      ghost var start := View();
      assert |start.accepted| == |Flat(handed)| + len + n;
      while n > 0
        invariant Ready() && old(log) <= log && !stopped && 0 <= n <= |queue| && start.accepted <= accepted
        invariant |Flat(handed)| + len + n == |start.accepted|
        invariant taken + n == |start.batch| + |start.queue|
        invariant quiet != 0 && quiet in start.optedOut ==> quiet in optedOut
        decreases n
      {
        Receive(quiet);
        taken := taken + 1;
        n := n - 1;
      }
      FlushRest(start.accepted);
    }

    method FlushRest(ghost before: seq<Event>)
      requires Ready() && !stopped && before <= accepted && |Flat(handed)| + len == |before|
      modifies this
      ensures Ready() && len == 0 && old(log) <= log && !stopped && optedOut == old(optedOut)
      ensures Flat(handed) == before && accepted == before + queue
    {
      FlatAppend(handed, batch[..len]);
      Flush();
      AfterInv(cfg, log);
      AllHanded(cfg, View(), before);
    }

    /** One turn of the flusher's select, other than its end: it takes the event it receives, drains when it is
        asked to, and writes what it holds when its ticker fires. */
    method Turn(quiet: nat, cause: Cause)
      requires Ready() && !stopped
      modifies this, batch
      ensures Ready() && old(log) <= log && old(accepted) <= accepted && !stopped
      ensures |Flat(old(handed))| <= |Flat(handed)|
      ensures quiet != 0 && quiet in old(optedOut) ==> quiet in optedOut
      ensures cause.Received? && old(queue) != [] ==> queue == old(queue)[1..]
      ensures cause.Asked? ==> Flat(handed) == old(accepted)
      ensures cause.Ticked? ==> len == 0 && queue == old(queue)
    {
      AfterInv(cfg, log);
      FlatAppend(handed, batch[..len]);
      if cause.Received? {
        if queue != [] {
          Take();
        }
      } else if cause.Asked? {
        var taken := Drain(quiet);
      } else {
        Flush();
      }
    }

    /** The flusher, from start to stop: everything accepted when it was told to stop is handed over. */
    method Run() returns (ghost cut: seq<Event>)
      requires Ready() && !stopped
      modifies this, batch
      ensures Valid() && old(log) <= log && stopped && len == 0
      ensures old(accepted) <= cut && Flat(handed) == cut && accepted == cut + queue
    {
      var turns: nat := *;
      while turns > 0
        invariant Ready() && old(log) <= log && old(accepted) <= accepted && !stopped
      {
        Outside(0);
        var cause: Cause := *;
        Turn(0, cause);
        turns := turns - 1;
      }
      cut := accepted;
      var taken := Drain(0);
      ghost var s := View();
      stopped := true;
      Note(s, Stop);
    }

    // --- buffer.go and analytics.go: callers on other goroutines ---

    /** Everything else, the flusher included, until it has stopped. */
    method Meanwhile(quiet: nat)
      requires Ready()
      modifies this, batch
      ensures Ready() && old(log) <= log && old(accepted) <= accepted && (old(stopped) ==> stopped)
      ensures |Flat(old(handed))| <= |Flat(handed)|
      ensures quiet != 0 && quiet in old(optedOut) ==> quiet in optedOut
      ensures calm ==> View() == old(View())
    {
      var steps: nat := *;
      while steps > 0
        invariant Ready() && old(log) <= log && old(accepted) <= accepted && (old(stopped) ==> stopped)
        invariant |Flat(old(handed))| <= |Flat(handed)|
        invariant quiet != 0 && quiet in old(optedOut) ==> quiet in optedOut
        invariant calm ==> View() == old(View())
      {
        Outside(quiet);
        var stop := *;
        if !stopped && !calm {
          var cause: Cause := *;
          Turn(quiet, cause);
          if stop {
            ghost var s := View();
            stopped := true;
            Note(s, Stop);
          }
        }
        steps := steps - 1;
      }
    }

    method Breaks() returns (broken: bool)
      ensures calm ==> !broken
    {
      broken := *;
      broken := broken && !calm;
    }

    method AnyFault() returns (f: Fault)
      ensures calm ==> f.Fine?
    {
      f := *;
      f := if calm then Fine else f;
    }

    /** The barrier. Unless its context ended first, every event accepted before the call has been handed
        to the writer, or the flusher has stopped and will never hand it over. */
    method Sync(quiet: nat) returns (taken: nat, how: Ending)
      requires Ready()
      modifies this, batch
      ensures Ready() && old(log) <= log && old(accepted) <= accepted
      ensures how.Acked? ==> old(accepted) <= Flat(handed)
      ensures !how.Expired? ==> Settled(View(), |old(accepted)|)
      ensures !how.Acked? ==> taken == 0
      ensures calm ==> how == if old(stopped) then Done else Acked
      ensures quiet != 0 && quiet in old(optedOut) ==> quiet in optedOut
    {
      Meanwhile(quiet);
      var expired := Breaks();
      if expired {
        return 0, Expired;
      }
      if stopped {
        return 0, Done;
      }
      taken := Drain(quiet);   // the flusher's answer to the request it received
      Meanwhile(quiet);
      AfterInv(cfg, log);
      expired := Breaks();
      if expired {
        return 0, Expired;
      }
      how := Acked;
    }

    /** When it succeeds, no event the account had queued or stored before is stored, and no later step can
        ever store one; the rows of every other account stay. */
    method HandleUserDeleted(user: nat) returns (failed: bool)
      requires Ready()
      modifies this, batch
      ensures Ready() && old(log) <= log
      ensures user == 0 ==> failed
      ensures calm && user != 0 ==> !failed
      ensures !failed ==> Settled(View(), |old(accepted)|) && NoneOf(View(), user, |old(accepted)|)
      ensures OnlyItsOwnRowsGo(cfg, old(log), log)
    {
      SparedRowsStay(cfg, log, log);
      if user == 0 {
        return true;
      }
      var taken, how := Sync(0);
      SparedRowsStay(cfg, old(log), log);
      if how.Expired? {
        return true;   // the delete runs under the same context, so it fails too
      }
      var fault := AnyFault();
      ghost var s := View();
      if !fault.Down? {
        stored, optedOut := Next(cfg, s, DeleteUser(user)).stored, Next(cfg, s, DeleteUser(user)).optedOut;
        Note(s, DeleteUser(user));
        SparedRowsStay(cfg, old(log), log);
      }
      failed := !fault.Fine?;
    }

    /** When opting out succeeds, nothing of the account is stored and the opt-out stands, as long as no
        other consent call or deletion for the account ran meanwhile; the rows of every other account stay. */
    method SetConsent(user: nat, optOut: bool) returns (failed: bool)
      requires Ready()
      modifies this, batch
      ensures Ready() && old(log) <= log
      ensures user == 0 ==> failed
      ensures calm && user != 0 ==> !failed
      ensures !failed && optOut ==> user in optedOut && NoneOf(View(), user, |accepted|)
      ensures !failed && !optOut ==> user !in optedOut
      ensures OnlyItsOwnRowsGo(cfg, old(log), log)
    {
      SparedRowsStay(cfg, log, log);
      if user == 0 {
        return true;
      }
      failed := StoreConsent(user, optOut);
      SparedRowsStay(cfg, old(log), log);
      if !optOut || failed {
        return;
      }
      failed := DeleteAfterOptOut(user);
      SparedRowsStay(cfg, old(log), log);
    }

    method StoreConsent(user: nat, optOut: bool) returns (failed: bool)
      requires Ready()
      modifies this`optedOut, this`log
      ensures Ready() && old(log) <= log && (calm ==> !failed)
      ensures !failed ==> (user in optedOut <==> optOut)
    {
      var fault := AnyFault();
      ghost var s := View();
      if !fault.Down? {
        optedOut := if optOut then optedOut + {user} else optedOut - {user};
        Note(s, if optOut then OptOut(user) else OptIn(user));
      }
      failed := !fault.Fine?;
    }

    method DeleteAfterOptOut(user: nat) returns (failed: bool)
      requires Ready() && user != 0 && user in optedOut
      modifies this, batch
      ensures Ready() && old(log) <= log && (calm ==> !failed)
      ensures !failed ==> user in optedOut && NoneOf(View(), user, |accepted|)
    {
      var taken, how := Sync(user);
      var fault := AnyFault();
      ghost var s := View();
      if !fault.Down? && !how.Expired? {
        stored := Next(cfg, s, DeleteEvents(user)).stored;
        Note(s, DeleteEvents(user));
      }
      var rest := Breaks();   // the cohort and activity rows
      failed := how.Expired? || !fault.Fine? || rest;
    }

    /** One event of a request: refused by the registry (`None`), dropped by a full queue, or queued. */
    method IngestOne(e: Option<Event>) returns (queued: bool, ghost p: nat)
      requires Ready()
      modifies this, batch
      ensures Ready() && old(log) <= log && old(accepted) <= accepted
      ensures queued ==> |old(accepted)| <= p < |accepted| && e == Some(accepted[p])
      ensures !queued ==> e.None? || |queue| >= cfg.capacity
      ensures calm ==> accepted == old(accepted) + (if queued then [e.value] else []) && |queue| == |old(queue)| + One(queued)
    {
      Meanwhile(0);
      queued, p := false, |accepted|;
      if e.Some? {
        queued := Offer(e.value);
      }
    }

    /** A request's events are queued in request order, each once, and every event is answered for. */
    method Ingest(events: seq<Option<Event>>, enabled: bool)
      returns (ok: bool, taken: nat, dropped: nat, ghost places: seq<Place>)
      requires Ready()
      modifies this, batch
      ensures Ready() && old(log) <= log && old(accepted) <= accepted
      ensures ok == (|events| <= MAX_BATCH_EVENTS)
      ensures if ok then taken + dropped == |events| else taken == dropped == 0
      ensures |places| == taken && Queued(events, accepted, |old(accepted)|, places)
      ensures !enabled ==> taken == 0
      ensures calm && ok && enabled && |old(queue)| + |events| <= cfg.capacity ==>
        accepted == old(accepted) + Known(events) && taken == |Known(events)|
    {
      ok, taken, dropped, places := |events| <= MAX_BATCH_EVENTS, 0, 0, [];
      if !ok {
        return;
      }
      if !enabled {
        dropped := |events|;
        return;
      }
      ghost var start := accepted;
      for i := 0 to |events|
        invariant Ready() && old(log) <= log && start <= accepted
        invariant taken + dropped == i && |places| == taken && Queued(events, accepted, |start|, places)
        invariant forall k :: 0 <= k < |places| ==> places[k].i < i
        invariant calm && |old(queue)| + |events| <= cfg.capacity ==>
                    accepted == start + Known(events[..i]) && taken == |Known(events[..i])| && |queue| <= |old(queue)| + i
      {
        assert events[..i + 1][..i] == events[..i];
        ghost var before := accepted;
        var queued, p := IngestOne(events[i]);
        QueuedMore(events, before, |start|, places, accepted, Place(i, p));
        if queued {
          taken, places := taken + 1, places + [Place(i, p)];
        } else {
          dropped := dropped + 1;
        }
      }
      assert events[..|events|] == events;
    }
  }
}
