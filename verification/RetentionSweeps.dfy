/** The retention sweeps' own code over the analytics store, call by call, with flushes, erasures and
    the clock running between any two calls and any call failing. */
module RetentionSweeps {
  import opened Prelude
  import opened Retention
  import ChunkedUpload

  /** A partition row as a sweep lists it. */
  datatype Partition = Partition(d: nat, archived: bool)

  ghost predicate Ascending(days: seq<nat>) {
    forall i, j :: 0 <= i < j < |days| ==> days[i] < days[j]
  }

  ghost predicate Lists(days: seq<nat>, all: set<nat>) {
    Ascending(days) && forall d :: d in days <==> d in all
  }

  function Days(parts: seq<Partition>): (days: seq<nat>)
    ensures |days| == |parts| && forall i :: 0 <= i < |parts| ==> days[i] == parts[i].d
  {
    seq(|parts|, i requires 0 <= i < |parts| => parts[i].d)
  }

  ghost function First(days: seq<nat>, n: nat): (first: set<nat>)
    requires n <= |days|
    ensures n == |days| ==> forall d :: d in days ==> d in first
  {
    set i | 0 <= i < n :: days[i]
  }

  lemma FirstGrows(days: seq<nat>, n: nat)
    requires n < |days| && Ascending(days)
    ensures First(days, n + 1) == First(days, n) + {days[n]} && days[n] !in First(days, n)
  {
  }

  /** What anything but a sweep may do to the tables. */
  ghost predicate Quiet(cfg: Config, s: State, s': State) {
    && s.now <= s'.now
    && s.live <= s'.live && (forall d :: d in s'.live && d !in s.live ==> Cutoff(cfg, s) <= d)
    && s'.dropped == s.dropped && s'.marked == s.marked && s'.objects == s.objects && s'.aggregated == s.aggregated
  }

  predicate Other(a: Action) {
    a.Wait? || a.Ensure? || a.Write? || a.Erase?
  }

  lemma QuietAfterOther(cfg: Config, s0: State, s: State, a: Action)
    requires Quiet(cfg, s0, s) && Other(a)
    ensures Quiet(cfg, s0, Next(cfg, s, a))
  {
    DaysPass(s0.now, s.now);
  }

  ghost predicate PartitionsReady(live: set<nat>, today: nat) {
    forall d :: today <= d <= today + PARTITIONS_AHEAD ==> d in live
  }

  /** Aggregates once made stay as they are. */
  ghost predicate Kept<T(!new)>(before: map<nat, T>, after: map<nat, T>) {
    forall d :: d in before ==> d in after && after[d] == before[d]
  }

  method Least(all: set<nat>) returns (least: nat)
    requires all != {}
    ensures least in all && forall d :: d in all ==> least <= d
  {
    least :| least in all;
    var rest := all - {least};
    while rest != {}
      invariant rest <= all && least in all && forall d :: d in all && d !in rest ==> least <= d
      decreases rest
    {
      var d :| d in rest;
      least := if d < least then d else least;
      rest := rest - {d};
    }
  }

  /** ORDER BY day. */
  method Sorted(all: set<nat>) returns (days: seq<nat>)
    ensures Lists(days, all)
  {
    days := [];
    var rest := all;
    while rest != {}
      invariant rest <= all && Ascending(days)
      invariant forall d :: d in days <==> d in all && d !in rest
      invariant forall i, later :: 0 <= i < |days| && later in rest ==> days[i] < later
      decreases rest
    {
      var d := Least(rest);
      days := days + [d];
      rest := rest - {d};
    }
  }

  /** What a sweep does before it drops anything: nothing goes, and what has been made stays. */
  ghost predicate Prepares(cfg: Config, s: State, s': State) {
    && s.now <= s'.now
    && s.live <= s'.live && (forall d :: d in s'.live && d !in s.live ==> Cutoff(cfg, s) <= d)
    && s'.dropped == s.dropped && s.marked <= s'.marked
    && Kept(s.objects, s'.objects) && Kept(s.aggregated, s'.aggregated)
  }

  lemma PreparesTwice(cfg: Config, s: State, s': State, s'': State)
    requires Prepares(cfg, s, s') && Prepares(cfg, s', s'')
    ensures Prepares(cfg, s, s'')
  {
    DaysPass(s.now, s'.now);
  }

  /** From listing `days` in state `was`, a retention run has retired the first `n` of them. */
  ghost predicate Retired(cfg: Config, was: State, s: State, days: seq<nat>, n: nat)
    requires n <= |days|
  {
    && was.now <= s.now
    && s.dropped == was.dropped + First(days, n)
    && was.live <= s.live + First(days, n) && s.live !! First(days, n)
    && was.marked <= s.marked && Kept(was.objects, s.objects) && Kept(was.aggregated, s.aggregated)
    && forall d :: d in First(days, n) ==> d in s.aggregated && d + 1 in s.aggregated && (cfg.bucket ==> d in s.objects)
  }

  /** What one partition's turn leads to: all it needs before it goes, and then at most that it goes. */
  ghost predicate Retires(cfg: Config, s: State, s': State, d: nat) {
    && Prepares(cfg, s, s'.(live := s'.live + {d}, dropped := s.dropped))
    && s'.dropped == (if d in s'.live then s.dropped else s.dropped + {d})
    && (d !in s'.live ==> d in s'.aggregated && d + 1 in s'.aggregated && (cfg.bucket ==> d in s'.objects))
  }

  lemma RetiredOneMore(cfg: Config, was: State, s: State, s': State, days: seq<nat>, n: nat)
    requires n < |days| && Ascending(days) && Retired(cfg, was, s, days, n) && Retires(cfg, s, s', days[n])
    requires forall i :: 0 <= i < |days| ==> days[i] < Cutoff(cfg, s)
    ensures Retired(cfg, was, s', days, n + One(days[n] !in s'.live))
  {
    FirstGrows(days, n);
  }

  /** An archive object is the bytes that were read of its export. */
  ghost predicate Contents(cfg: Config, objects: map<nat, seq<ChunkedUpload.Byte>>, landed: map<nat, Export>) {
    && objects.Keys == landed.Keys
    && forall d :: d in landed ==>
         landed[d].cut <= |Bytes(cfg, landed[d].rows)| && objects[d] == Bytes(cfg, landed[d].rows)[..landed[d].cut]
  }

  /** The rows of a partition, each once. */
  method ListRows(partition: set<Event>) returns (rows: seq<Event>)
    ensures (set e | e in rows) == partition && forall i, j :: 0 <= i < j < |rows| ==> rows[i] != rows[j]
  {
    rows := [];
    var rest := partition;
    while rest != {}
      invariant rest <= partition && (forall e :: e in rows <==> e in partition && e !in rest)
      invariant forall i, j :: 0 <= i < j < |rows| ==> rows[i] != rows[j]
      decreases rest
    {
      var e :| e in rest;
      rows, rest := rows + [e], rest - {e};
    }
  }

  class Sweeper {
    const cfg: Config
    const started: nat
    const calm: bool   // nothing else runs and no call fails
    var now: nat
    var live: set<nat>
    var dropped: set<nat>
    var marked: set<nat>
    var objects: map<nat, seq<ChunkedUpload.Byte>>
    var stored: set<Event>
    var aggregated: map<nat, set<Event>>
    ghost var written: set<Event>
    ghost var late: set<Event>
    ghost var landed: map<nat, Export>   // the exports the objects are of
    ghost var log: seq<Action>

    ghost function View(): State
      reads this
    {
      State(now, live, dropped, marked, landed, stored, aggregated, written, late)
    }

    ghost predicate Valid()
      reads this
    {
      cfg.Valid() && View() == After(cfg, Init(started), log) && Contents(cfg, objects, landed)
    }

    constructor (config: Config, start: nat, calm: bool)
      requires config.Valid()
      ensures Valid() && cfg == config && View() == Init(start) && this.calm == calm
    {
      cfg, started, now, this.calm := config, start, start, calm;
      live, dropped, marked, objects, stored, aggregated := {}, {}, {}, map[], {}, map[];
      written, late, landed, log := {}, {}, map[], [];
    }

    // --- the store's and the bucket's atomic calls ---

    method AnyFault() returns (f: Fault)
      ensures calm ==> f.Fine?
    {
      f := *;
      f := if calm then Fine else f;
    }

    method Breaks() returns (broken: bool)
      ensures calm ==> !broken
    {
      broken := *;
      broken := broken && !calm;
    }

    method EnsurePartition(d: nat) returns (made: bool, failed: bool, f: Fault)
      modifies this`live
      ensures (failed <==> !f.Fine?) && made == (d !in old(live))
      ensures calm ==> !failed
      ensures live == if f.Down? then old(live) else old(live) + {d}
    {
      var fault := AnyFault();
      failed, f, made := !fault.Fine?, fault, d !in live;
      if !fault.Down? {
        live := live + {d};
      }
    }

    method ListDaysToAggregate(today: nat) returns (days: seq<nat>, failed: bool)
      ensures !failed ==> Lists(days, set d | d in live && d !in aggregated && d < today)
      ensures calm ==> !failed
    {
      failed := Breaks();
      days := [];
      if !failed {
        days := Sorted(set d | d in live && d !in aggregated && d < today);
      }
    }

    method ListPartitionsBefore(before: int) returns (parts: seq<Partition>, failed: bool)
      ensures !failed ==> Lists(Days(parts), set d | d in live && d < before)
      ensures failed ==> parts == []
      ensures forall p :: p in parts ==> p.archived == (p.d in marked)
      ensures calm ==> !failed
    {
      failed := Breaks();
      if failed {
        return [], true;
      }
      var days := Sorted(set d | d in live && d < before);
      var archived := marked;
      parts := seq(|days|, i requires 0 <= i < |days| => Partition(days[i], days[i] in archived));
      assert Days(parts) == days;
    }

    method IsAggregated(d: nat) returns (done: bool, failed: bool)
      ensures !failed ==> done == (d in aggregated)
      ensures calm ==> !failed
    {
      failed := Breaks();
      done := d in aggregated && !failed;
    }

    /** One transaction: the day's rows are replaced and the run recorded. */
    method Aggregate(d: nat) returns (failed: bool, f: Fault)
      modifies this`aggregated
      ensures failed <==> !f.Fine?
      ensures aggregated == if f.Down? then old(aggregated) else old(aggregated)[d := Read(stored, d)]
      ensures calm ==> !failed
    {
      var fault := AnyFault();
      failed, f := !fault.Fine?, fault;
      if !fault.Down? {
        aggregated := aggregated[d := Read(stored, d)];
      }
    }

    /** Streams the export of the partition into its create-only object. The export can end in any way, at any
        byte; what has landed is what the upload's own contract leaves in the bucket. */
    method UploadStream(d: nat) returns (failed: bool, ghost wrote: bool, ghost x: Export)
      requires Contents(cfg, objects, landed)
      modifies this`objects, this`landed
      ensures wrote ==> d !in old(landed) && CanLand(cfg, x, OfPartition(stored, d)) && landed == old(landed)[d := x]
      ensures !wrote ==> landed == old(landed)
      ensures Contents(cfg, objects, landed) && (!failed ==> d in objects)
      ensures calm ==> !failed && (wrote ==> !CutShort(cfg, x))
    {
      var rows := ListRows(OfPartition(stored, d));
      var bytes, at: int, end: ChunkedUpload.End := Bytes(cfg, rows), *, *;
      end := if calm then ChunkedUpload.Eof else end;
      var cut := if end.Eof? || at < 0 || at > |bytes| then |bytes| else at;
      x := Export(rows, cut, end);
      var body := new ChunkedUpload.Reader(bytes, cut, end);
      var bucket := new ChunkedUpload.Bucket(if d in objects then Some(objects[d]) else None, calm, true);
      var outcome, size := ChunkedUpload.UploadStream(bucket, body, 0, true);
      failed, wrote := outcome.Failed?, bucket.ours;
      if bucket.content.Some? {
        objects := objects[d := bucket.content.value];
      }
      landed := if wrote then landed[d := x] else landed;
    }

    method MarkPartitionArchived(d: nat) returns (failed: bool, f: Fault)
      modifies this`marked
      ensures failed <==> !f.Fine?
      ensures marked == if f.Down? then old(marked) else old(marked) + {d}
      ensures calm ==> !failed
    {
      var fault := AnyFault();
      failed, f := !fault.Fine?, fault;
      if !fault.Down? {
        marked := marked + {d};
      }
    }

    method DropPartition(d: nat) returns (failed: bool, f: Fault)
      modifies this`live, this`dropped, this`stored
      ensures failed <==> !f.Fine?
      ensures var gone := !f.Down? && d in old(live);
              && live == (if gone then old(live) - {d} else old(live))
              && dropped == (if gone then old(dropped) + {d} else old(dropped))
              && stored == if gone then old(stored) - OfPartition(old(stored), d) else old(stored)
      ensures calm ==> !failed
    {
      var fault := AnyFault();
      failed, f := !fault.Fine?, fault;
      if !fault.Down? && d in live {
        live, dropped, stored := live - {d}, dropped + {d}, stored - OfPartition(stored, d);
      }
    }

    // --- history ---

    /** Writes down the step a call just made in state `s`, unless the call was lost on the way. */
    ghost method Note(s: State, a: Action, f: Fault)
      requires cfg.Valid() && Contents(cfg, objects, landed) && s == After(cfg, Init(started), log) && Enabled(cfg, s, a)
      requires View() == if f.Down? then s else Apply(s, a)
      modifies this`log
      ensures Valid() && old(log) <= log
    {
      if !f.Down? {
        log := log + [a];
        assert log[..|log| - 1] == old(log);
      }
    }

    /** The clock, flushes, erasures and the partition sweep of another instance: no other sweep runs. */
    method Others()
      requires Valid()
      modifies this
      ensures Valid() && old(log) <= log && Quiet(cfg, old(View()), View()) && (calm ==> View() == old(View()))
    {
      var steps: nat := *;
      while steps > 0
        invariant Valid() && old(log) <= log && Quiet(cfg, old(View()), View()) && (calm ==> View() == old(View()))
      {
        var a: Action := *;
        if Other(a) && !calm {
          QuietAfterOther(cfg, old(View()), View(), a);
          Interfere(a);
        }
        steps := steps - 1;
      }
    }

    method Interfere(a: Action)
      requires Valid() && Other(a)
      modifies this
      ensures Valid() && old(log) <= log && View() == Next(cfg, old(View()), a)
    {
      ghost var s := View();
      match a
      case Wait(seconds) =>
        now := now + seconds;
        Note(s, a, Fine);
      case Ensure(d) =>
        if UtcDay(now) - cfg.retention <= d {
          live := live + {d};
          Note(s, a, Fine);
        }
      case Write(e) =>
        if e.at <= now && UtcDay(now) - cfg.retention <= UtcDay(e.at) {
          stored := stored + {e};
          written, late := Apply(s, a).written, Apply(s, a).late;
          Note(s, a, Fine);
        }
      case Erase(user) =>
        stored := stored - OfUser(stored, user);
        written := Apply(s, a).written;
        Note(s, a, Fine);
    }

    // --- sweeps.go ---

    /** Today and the next three days have a partition when it succeeds, and `made` of them are its own. */
    method SweepPartitions() returns (made: nat, failed: bool, ghost mine: set<nat>, ghost today: nat)
      requires Valid()
      modifies this
      ensures Valid() && old(log) <= log && old(live) <= live && UtcDay(old(now)) <= today
      ensures !failed ==> PartitionsReady(live, today)
      ensures mine <= live && mine !! old(live) && |mine| == made
      ensures forall d :: d in mine ==> today <= d <= today + PARTITIONS_AHEAD
      ensures calm ==> !failed && live == old(live) + mine
    {
      Others();
      var day := UtcDay(now);
      made, mine, today := 0, {}, day;
      DaysPass(old(now), now);
      for i := 0 to PARTITIONS_AHEAD + 1
        invariant Valid() && old(log) <= log && old(live) <= live
        invariant forall d :: day <= d < day + i ==> d in live
        invariant mine <= live && mine !! old(live) && |mine| == made
        invariant forall d :: d in mine ==> day <= d < day + i
        invariant calm ==> now == old(now) && live == old(live) + mine
      {
        var ok, down := EnsureAhead(day + i);
        if down {
          return made, true, mine, day;
        }
        if ok {
          made, mine := made + 1, mine + {day + i};
        }
      }
      failed := false;
    }

    /** One partition of the days ahead; a tick's deadline is far shorter than the retention. */
    method EnsureAhead(d: nat) returns (made: bool, failed: bool)
      requires Valid()
      modifies this
      ensures Valid() && old(log) <= log && old(live) <= live
      ensures !failed ==> d in live
      ensures made ==> d !in old(live)
      ensures calm ==> now == old(now) && live == if failed then old(live) else old(live) + {d}
      ensures calm ==> (made <==> d !in old(live)) && (failed <==> d < old(Cutoff(cfg, View())))
    {
      Others();
      made := d !in live;
      if UtcDay(now) - cfg.retention > d {
        return made, true;
      }
      ghost var s := View();
      var f;
      made, failed, f := EnsurePartition(d);
      Note(s, Ensure(d), f);
    }

    /** One day, not aggregated yet: other sweeps' tables stay as they are. */
    method AggregateDay(d: nat) returns (failed: bool)
      requires Valid() && d !in aggregated && d < LocalDay(now)
      modifies this
      ensures Valid() && old(log) <= log && Quiet(cfg, old(View()), View().(aggregated := old(aggregated)))
      ensures Kept(old(aggregated), aggregated) && aggregated.Keys <= old(aggregated).Keys + {d}
      ensures !failed ==> d in aggregated
      ensures calm ==> !failed
    {
      Others();
      DaysPass(old(now), now);
      ghost var s := View();
      var f;
      failed, f := Aggregate(d);
      Note(s, Action.Aggregate(d), f);
    }

    /** Every finished day that had a partition is aggregated when it succeeds. A day that has an
        aggregate is not done again, and a failure keeps the days already done. */
    method SweepAggregate() returns (n: nat, failed: bool, ghost days: seq<nat>)
      requires Valid()
      modifies this
      ensures Valid() && old(log) <= log && Kept(old(aggregated), aggregated)
      ensures n <= |days| && Ascending(days) && First(days, n) <= aggregated.Keys
      ensures !failed ==> forall d :: d in old(live) && d < LocalDay(old(now)) ==> d in aggregated
      ensures calm ==> !failed
    {
      Others();
      var today := LocalDay(now);
      DaysPass(old(now), now);
      ghost var was := View();
      Others();
      DaysPass(was.now, now);
      var todo, down := ListDaysToAggregate(today);
      days := todo;
      if down {
        return 0, true, [];
      }
      was := View();
      for i := 0 to |todo|
        invariant Valid() && old(log) <= log && Quiet(cfg, was, View().(aggregated := was.aggregated))
        invariant Kept(was.aggregated, aggregated) && First(days, i) <= aggregated.Keys
        invariant aggregated.Keys <= was.aggregated.Keys + First(days, i)
      {
        FirstGrows(days, i);
        DaysPass(was.now, now);
        assert todo[i] in todo;
        down := AggregateDay(todo[i]);
        if down {
          return i, true, days;
        }
      }
      n, failed := |todo|, false;
    }

    /** "Aggregated before its partition goes": does nothing for a day that is. */
    method EnsureAggregated(d: nat) returns (failed: bool)
      requires Valid() && d < LocalDay(now)
      modifies this
      ensures Valid() && old(log) <= log && Prepares(cfg, old(View()), View())
      ensures !failed ==> d in aggregated
      ensures calm ==> !failed
    {
      Others();
      DaysPass(old(now), now);
      var done, down := IsAggregated(d);
      if down {
        return true;
      }
      if !done {
        failed := AggregateDay(d);
      } else {
        failed := false;
      }
    }

    /** Streams the day into the bucket and records it. Retried after an upload that landed unrecorded,
        the create-only object answers as done and is not replaced. */
    method ArchiveDay(d: nat) returns (failed: bool)
      requires Valid() && cfg.bucket && d < Cutoff(cfg, View())
      modifies this
      ensures Valid() && old(log) <= log && Prepares(cfg, old(View()), View())
      ensures !failed ==> d in objects && d in marked
      ensures calm ==> !failed
    {
      failed := UploadDay(d);
      if failed {
        return;
      }
      ghost var uploaded := View();
      failed := MarkUploaded(d);
      PreparesTwice(cfg, old(View()), uploaded, View());
    }

    method UploadDay(d: nat) returns (failed: bool)
      requires Valid() && cfg.bucket && d < Cutoff(cfg, View())
      modifies this
      ensures Valid() && old(log) <= log && Prepares(cfg, old(View()), View())
      ensures !failed ==> d in objects
      ensures calm ==> !failed
    {
      Others();
      DaysPass(old(now), now);
      ghost var s := View();
      ghost var wrote, x;
      failed, wrote, x := UploadStream(d);
      if wrote {
        Note(s, Upload(d, x), Fine);
      }
    }

    method MarkUploaded(d: nat) returns (failed: bool)
      requires Valid() && cfg.bucket && d in objects
      modifies this
      ensures Valid() && old(log) <= log && Prepares(cfg, old(View()), View())
      ensures !failed ==> d in objects && d in marked
      ensures calm ==> !failed
    {
      Others();
      ghost var s := View();
      var f;
      failed, f := MarkPartitionArchived(d);
      Note(s, Mark(d), f);
    }

    /** The steps before a partition goes: both its local days are aggregated and, where there is a
        bucket, it is archived. */
    method Prepare(p: Partition) returns (failed: bool)
      requires Valid() && p.d < Cutoff(cfg, View()) && (p.archived ==> p.d in marked)
      modifies this
      ensures Valid() && old(log) <= log && Prepares(cfg, old(View()), View())
      ensures !failed ==> p.d in aggregated && p.d + 1 in aggregated && (cfg.bucket ==> p.d in marked)
      ensures calm ==> !failed
    {
      ghost var was := View();
      failed := EnsureAggregated(p.d);
      if failed {
        return;
      }
      ghost var first := View();
      DaysPass(was.now, now);
      failed := EnsureAggregated(p.d + 1);
      PreparesTwice(cfg, was, first, View());
      if failed || p.archived || !cfg.bucket {
        return;
      }
      ghost var second := View();
      DaysPass(was.now, now);
      failed := ArchiveDay(p.d);
      PreparesTwice(cfg, was, second, View());
    }

    /** One overdue partition: gone only after both its local days are aggregated and, where there is a
        bucket, it is archived; a failure on the way leaves it for the next tick. */
    method Retire(p: Partition) returns (failed: bool)
      requires Valid() && p.d in live && p.d < Cutoff(cfg, View()) && (p.archived ==> p.d in marked)
      modifies this
      ensures Valid() && old(log) <= log
      ensures Retires(cfg, old(View()), View(), p.d)
      ensures !failed ==> p.d !in live
      ensures calm ==> !failed
    {
      ghost var was := View();
      failed := Prepare(p);
      if !failed {
        failed := DropReady(p.d, was);
      }
    }

    method DropReady(d: nat, ghost was: State) returns (failed: bool)
      requires Valid() && Prepares(cfg, was, View()) && d in was.live && d < Cutoff(cfg, was)
      requires d in aggregated && d + 1 in aggregated && (cfg.bucket ==> d in marked)
      modifies this
      ensures Valid() && old(log) <= log && Retires(cfg, was, View(), d)
      ensures !failed ==> d !in live
      ensures calm ==> !failed
    {
      ghost var ready := View();
      Others();
      PreparesTwice(cfg, was, ready, View());
      DaysPass(was.now, now);
      AfterInv(cfg, started, log);
      failed := Drop(d);
    }

    method Drop(d: nat) returns (failed: bool)
      requires Valid() && Enabled(cfg, View(), Action.Drop(d)) && d in live
      modifies this
      ensures Valid() && old(log) <= log
      ensures View() == old(View()) || View() == Apply(old(View()), Action.Drop(d))
      ensures !failed ==> d !in live
      ensures calm ==> !failed
    {
      ghost var s := View();
      var f;
      failed, f := DropPartition(d);
      Note(s, Action.Drop(d), f);
    }

    /** Oldest first: what has gone is always a prefix of the overdue partitions, one more than is
        reported when a drop succeeded but its answer was lost, and all of them on success. Nothing else
        goes, no aggregate or archive changes, and nothing goes unaggregated or, with a bucket,
        unarchived. */
    method SweepRetention() returns (n: nat, failed: bool, ghost was: State, ghost days: seq<nat>, ghost gone: nat)
      requires Valid()
      modifies this
      ensures Valid() && old(log) <= log && Quiet(cfg, old(View()), was)
      ensures Ascending(days) && ((failed && days == []) || forall d :: d in was.live && d < old(Cutoff(cfg, View())) ==> d in days)
      ensures n <= gone <= |days| && gone <= n + 1 && Retired(cfg, was, View(), days, gone)
      ensures !failed ==> n == |days|
      ensures !failed ==> forall d :: d in was.live && (d + 1 + cfg.retention) * 86_400 <= old(now) ==> d !in live
      ensures forall d :: d in dropped && d !in old(dropped) ==> (d + 1 + cfg.retention) * 86_400 <= now
      ensures calm ==> !failed
    {
      Others();
      var cutoff := UtcDay(now) - cfg.retention;
      DaysPass(old(now), now);
      ghost var read := View();
      Others();
      DaysPass(read.now, now);
      was := View();
      assert Quiet(cfg, old(View()), was);
      var parts, down := ListPartitionsBefore(cutoff);
      days := Days(parts);
      if down {
        return 0, true, was, days, 0;
      }
      assert forall i :: 0 <= i < |days| ==> days[i] in days;
      n, failed, gone := RetireAll(parts, cutoff, was);
      if !failed {
        failed := Breaks();   // the activity rows' own retention
      }
    }

    method RetireAll(parts: seq<Partition>, cutoff: int, ghost was: State) returns (n: nat, failed: bool, ghost gone: nat)
      requires Valid() && was == View() && cutoff <= Cutoff(cfg, was) && Ascending(Days(parts))
      requires forall i :: 0 <= i < |parts| ==> parts[i].d in live && parts[i].d < cutoff && (parts[i].archived ==> parts[i].d in marked)
      modifies this
      ensures Valid() && old(log) <= log
      ensures n <= gone <= |parts| && gone <= n + 1 && Retired(cfg, was, View(), Days(parts), gone)
      ensures !failed ==> n == |parts|
      ensures calm ==> !failed
    {
      n, gone := 0, 0;
      while n < |parts|
        invariant gone == n <= |parts| && Valid() && old(log) <= log && Retired(cfg, was, View(), Days(parts), n)
      {
        failed := RetireNext(parts, n, cutoff, was);
        gone := n + One(parts[n].d !in live);
        if failed {
          return;
        }
        n := n + 1;
      }
      failed := false;
    }

    method RetireNext(parts: seq<Partition>, n: nat, ghost cutoff: int, ghost was: State) returns (failed: bool)
      requires Valid() && n < |parts| && cutoff <= Cutoff(cfg, was) && Ascending(Days(parts))
      requires Retired(cfg, was, View(), Days(parts), n)
      requires forall i :: 0 <= i < |parts| ==> parts[i].d in was.live && parts[i].d < cutoff
      requires parts[n].archived ==> parts[n].d in was.marked
      modifies this
      ensures Valid() && old(log) <= log
      ensures Retired(cfg, was, View(), Days(parts), n + One(parts[n].d !in live))
      ensures !failed ==> parts[n].d !in live
      ensures calm ==> !failed
    {
      ghost var s := View();
      DaysPass(was.now, now);
      FirstGrows(Days(parts), n);
      failed := Retire(parts[n]);
      RetiredOneMore(cfg, was, s, View(), Days(parts), n);
    }

    /** A report's first half: the day it covers is aggregated when it succeeds. */
    method BuildReport(day: nat) returns (failed: bool)
      requires Valid() && day < LocalDay(now)
      modifies this
      ensures Valid() && old(log) <= log && Prepares(cfg, old(View()), View())
      ensures !failed ==> day in aggregated
      ensures calm ==> !failed
    {
      failed := EnsureAggregated(day);
      if !failed {
        failed := Breaks();   // loading or rendering
      }
    }
  }
}
