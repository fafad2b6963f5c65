/** Raw events live in one table per UTC day and are dropped after the retention; aggregates are kept
    per Asia/Colombo day. Every store or bucket call of the sweeps is one action. */
module Retention {
  import opened Prelude
  import ChunkedUpload

  // --- calendar days, in whole seconds since the epoch ---

  const DAY := 86_400
  const COLOMBO_OFFSET := 19_800   // +05:30, no daylight saving
  const PARTITIONS_AHEAD := 3

  function UtcDay(t: nat): nat { t / DAY }

  function LocalDay(t: nat): nat { (t + COLOMBO_OFFSET) / DAY }

  /** A partition holds parts of two local days, its own and the next; a local day spans two
      partitions, its own and the one before. Which of the two is decided at 18:30 UTC. */
  lemma PartitionsAndLocalDays(t: nat)
    ensures LocalDay(t) == if t % DAY >= DAY - COLOMBO_OFFSET then UtcDay(t) + 1 else UtcDay(t)
    ensures UtcDay(t) == LocalDay(t) || UtcDay(t) == LocalDay(t) - 1
    ensures forall d :: LocalDay(t) == d <==> d * DAY - COLOMBO_OFFSET <= t < (d + 1) * DAY - COLOMBO_OFFSET
  {
  }

  // --- state ---

  datatype Event = Event(id: nat, at: nat, user: nat)

  /** Retention in days, at least one; whether an archive bucket and an uploader are configured; and the
      line an event is exported as. */
  datatype Config = Config(retention: nat, bucket: bool, line: Event -> seq<ChunkedUpload.Byte>) {
    predicate Valid() { retention >= 1 }
  }

  /** One export of a partition and how much of it an upload read: the first `cut` bytes of the rows' lines,
      after which the stream ended as `end` says. */
  datatype Export = Export(rows: seq<Event>, cut: nat, end: ChunkedUpload.End)

  /** `objects` are the archives by the export that landed in them. `written` and `late` are history: every
      event ever stored and not erased since, and those of them that were stored only after their local day
      had been aggregated. */
  datatype State = State(now: nat, live: set<nat>, dropped: set<nat>, marked: set<nat>, objects: map<nat, Export>,
                         stored: set<Event>, aggregated: map<nat, set<Event>>, written: set<Event>, late: set<Event>)

  datatype Action =
    | Wait(seconds: nat)
    | Ensure(d: nat)
    | Write(e: Event)
    | Erase(user: nat)
    | Aggregate(d: nat)
    | AggregateAgain(d: nat)   // a regeneration, or a tick whose listing is out of date
    | Upload(d: nat, x: Export)
    | Mark(d: nat)
    | Drop(d: nat)

  function Init(now: nat): State {
    State(now, {}, {}, {}, map[], {}, map[], {}, {})
  }

  function Cutoff(cfg: Config, s: State): int {
    UtcDay(s.now) - cfg.retention
  }

  /** What an aggregation of local day `d` reads: the two partitions it spans, cut to the day. */
  function Read(stored: set<Event>, d: nat): set<Event> {
    set e | e in stored && d - 1 <= UtcDay(e.at) <= d && LocalDay(e.at) == d
  }

  function OfLocalDay(events: set<Event>, d: nat): set<Event> {
    set e | e in events && LocalDay(e.at) == d
  }

  function OfPartition(events: set<Event>, d: nat): set<Event> {
    set e | e in events && UtcDay(e.at) == d
  }

  function OfUser(events: set<Event>, user: nat): set<Event> {
    set e | e in events && e.user == user
  }

  // --- exports ---

  function Bytes(cfg: Config, rows: seq<Event>): seq<ChunkedUpload.Byte>
    decreases |rows|
  {
    if rows == [] then [] else Bytes(cfg, rows[..|rows| - 1]) + cfg.line(rows[|rows| - 1])
  }

  ghost function RowsOf(x: Export): set<Event> {
    set e | e in x.rows
  }

  /** An export can land once its rows are the partition's, each once, and the stream did not break: a
      stream that ends properly has been read whole. */
  ghost predicate CanLand(cfg: Config, x: Export, partition: set<Event>) {
    && RowsOf(x) == partition && (forall i, j :: 0 <= i < j < |x.rows| ==> x.rows[i] != x.rows[j])
    && x.cut <= |Bytes(cfg, x.rows)|
    && !x.end.Broken? && (x.end.Eof? ==> x.cut == |Bytes(cfg, x.rows)|)
  }

  /** The stream ended early, with the error that reads like its end. */
  predicate CutShort(cfg: Config, x: Export) {
    x.end.UnexpectedEof? && x.cut < |Bytes(cfg, x.rows)|
  }

  /** How many rows have their whole line among the first `k` bytes. */
  function WholeRows(cfg: Config, rows: seq<Event>, k: nat): (n: nat)
    ensures n <= |rows| && (n == |rows| <==> |Bytes(cfg, rows)| <= k)
    decreases |rows|
  {
    if |Bytes(cfg, rows)| <= k then |rows| else WholeRows(cfg, rows[..|rows| - 1], k)
  }

  /** What the archive of an export holds. */
  ghost function Archived(cfg: Config, x: Export): set<Event> {
    set e | e in x.rows[..WholeRows(cfg, x.rows, x.cut)]
  }

  /** An archive holds every row of its export exactly when the export was not cut short. */
  lemma WhenAnArchiveIsWhole(cfg: Config, x: Export, partition: set<Event>)
    requires CanLand(cfg, x, partition)
    ensures Archived(cfg, x) <= partition && (Archived(cfg, x) == partition <==> !CutShort(cfg, x))
  {
    var n := WholeRows(cfg, x.rows, x.cut);
    if n < |x.rows| {
      assert x.rows[n] in partition && x.rows[n] !in x.rows[..n];
    } else {
      assert x.rows[..n] == x.rows;
    }
  }

  /** When the code makes each call: a flush stores events younger than the retention; a sweep
      aggregates a finished day it has found unaggregated, and drops an old partition once both its
      local days are aggregated and, with a bucket, its archive is there. */
  ghost predicate Enabled(cfg: Config, s: State, a: Action) {
    match a
    case Wait(_) => true
    case Ensure(d) => Cutoff(cfg, s) <= d
    case Write(e) => e.at <= s.now && Cutoff(cfg, s) <= UtcDay(e.at)
    case Erase(_) => true
    case Aggregate(d) => d !in s.aggregated && d < LocalDay(s.now)
    case AggregateAgain(d) => d in s.aggregated && d < LocalDay(s.now)
    case Upload(d, x) => cfg.bucket && d < Cutoff(cfg, s) && CanLand(cfg, x, OfPartition(s.stored, d))
    case Mark(d) => d in s.objects
    case Drop(d) => d < Cutoff(cfg, s) && d in s.aggregated && d + 1 in s.aggregated && (cfg.bucket ==> d in s.objects)
  }

  function Apply(s: State, a: Action): State {
    match a
    case Wait(seconds) => s.(now := s.now + seconds)
    case Ensure(d) => s.(live := s.live + {d})
    case Write(e) =>
      s.(stored := s.stored + {e}, written := s.written + {e},
         late := if e !in s.written && LocalDay(e.at) in s.aggregated then s.late + {e} else s.late)
    case Erase(user) => s.(stored := s.stored - OfUser(s.stored, user), written := s.written - OfUser(s.written, user))
    case Aggregate(d) => s.(aggregated := s.aggregated[d := Read(s.stored, d)])
    case AggregateAgain(d) => s.(aggregated := s.aggregated[d := Read(s.stored, d)])
    case Upload(d, x) => if d in s.objects then s else s.(objects := s.objects[d := x])
    case Mark(d) => s.(marked := s.marked + {d})
    case Drop(d) =>
      if d !in s.live then s
      else s.(live := s.live - {d}, dropped := s.dropped + {d}, stored := s.stored - OfPartition(s.stored, d))
  }

  ghost function Next(cfg: Config, s: State, a: Action): State {
    if Enabled(cfg, s, a) then Apply(s, a) else s
  }

  ghost function After(cfg: Config, s: State, h: seq<Action>): State
    decreases |h|
  {
    if h == [] then s else Next(cfg, After(cfg, s, h[..|h| - 1]), h[|h| - 1])
  }

  // --- the invariant ---

  /** The tables are the full history minus the dropped partitions. */
  ghost predicate StoredIsUndropped(s: State) {
    && (forall e :: e in s.stored <==> e in s.written && UtcDay(e.at) !in s.dropped)
    && (forall e :: e in s.written ==> e.at <= s.now)
  }

  ghost predicate DropsAreCovered(cfg: Config, s: State) {
    forall d :: d in s.dropped ==>
      d in s.aggregated && d + 1 in s.aggregated && d < Cutoff(cfg, s) && d !in s.live && (cfg.bucket ==> d in s.objects)
  }

  /** Each archive is of an export of the whole partition, to which nothing has been written since. */
  ghost predicate ArchivesAreOfWholePartitions(cfg: Config, s: State) {
    && (forall d :: d in s.objects ==>
          d < Cutoff(cfg, s) && CanLand(cfg, s.objects[d], RowsOf(s.objects[d])) && OfPartition(s.written, d) <= RowsOf(s.objects[d]))
    && s.marked <= s.objects.Keys
  }

  ghost predicate Inv(cfg: Config, s: State) {
    StoredIsUndropped(s) && DropsAreCovered(cfg, s) && ArchivesAreOfWholePartitions(cfg, s)
  }

  /** The heart of it: a local day that is not aggregated has lost no partition, so aggregating it
      reads every event ever stored for that day. */
  lemma UnaggregatedDayIsWhole(cfg: Config, s: State, d: nat)
    requires Inv(cfg, s) && d !in s.aggregated
    ensures d - 1 !in s.dropped && d !in s.dropped
    ensures Read(s.stored, d) == OfLocalDay(s.written, d)
  {
    assert d - 1 in s.dropped ==> d - 1 + 1 in s.aggregated;
    forall e | e in s.written && LocalDay(e.at) == d ensures e in Read(s.stored, d) {
      PartitionsAndLocalDays(e.at);
    }
  }

  lemma WaitInv(cfg: Config, s: State, seconds: nat)
    requires Inv(cfg, s)
    ensures Inv(cfg, Apply(s, Wait(seconds)))
  {
    DaysPass(s.now, s.now + seconds);
  }

  lemma DaysPass(t: nat, t': nat)
    requires t <= t'
    ensures UtcDay(t) <= UtcDay(t') && LocalDay(t) <= LocalDay(t')
  {
  }

  lemma WriteInv(cfg: Config, s: State, e: Event)
    requires Inv(cfg, s) && Enabled(cfg, s, Write(e))
    ensures Inv(cfg, Apply(s, Write(e)))
  {
    var s' := Apply(s, Write(e));
    forall d | d in s'.objects ensures OfPartition(s'.written, d) <= RowsOf(s'.objects[d]) {
      assert OfPartition(s'.written, d) == OfPartition(s.written, d);
    }
  }

  lemma EraseInv(cfg: Config, s: State, user: nat)
    requires Inv(cfg, s)
    ensures Inv(cfg, Apply(s, Erase(user)))
  {
    var s' := Apply(s, Erase(user));
    forall d | d in s'.objects ensures OfPartition(s'.written, d) <= RowsOf(s'.objects[d]) {
      assert OfPartition(s'.written, d) <= OfPartition(s.written, d);
    }
  }

  lemma UploadInv(cfg: Config, s: State, d: nat, x: Export)
    requires Inv(cfg, s) && Enabled(cfg, s, Upload(d, x))
    ensures Inv(cfg, Apply(s, Upload(d, x)))
  {
    if d !in s.objects {
      assert d !in s.dropped;
      assert OfPartition(s.stored, d) == OfPartition(s.written, d);
    }
  }

  lemma NextInv(cfg: Config, s: State, a: Action)
    requires cfg.Valid() && Inv(cfg, s)
    ensures Inv(cfg, Next(cfg, s, a))
  {
    if Enabled(cfg, s, a) {
      match a
      case Wait(seconds) => WaitInv(cfg, s, seconds);
      case Write(e) => WriteInv(cfg, s, e);
      case Erase(user) => EraseInv(cfg, s, user);
      case Aggregate(d) =>
      case AggregateAgain(d) =>
      case Upload(d, x) => UploadInv(cfg, s, d, x);
      case Ensure(d) =>
      case Mark(d) =>
      case Drop(d) =>
    }
  }

  lemma AfterInv(cfg: Config, now: nat, h: seq<Action>)
    requires cfg.Valid()
    ensures Inv(cfg, After(cfg, Init(now), h))
  {
    AfterKeepsInv(cfg, Init(now), h);
  }

  // --- theorems over every history ---

  /** No local day is ever aggregated from partial raw data: whatever has been dropped, and wherever
      sweeps have failed, an aggregation of a day not aggregated yet sees every event ever stored for it. */
  lemma NoDayIsAggregatedFromPartialData(cfg: Config, now: nat, h: seq<Action>, d: nat)
    requires cfg.Valid() && Enabled(cfg, After(cfg, Init(now), h), Aggregate(d))
    ensures var s := After(cfg, Init(now), h);
            Next(cfg, s, Aggregate(d)).aggregated[d] == OfLocalDay(s.written, d)
  {
    AfterInv(cfg, now, h);
    UnaggregatedDayIsWhole(cfg, After(cfg, Init(now), h), d);
  }

  /** Every event of a dropped partition has its local day aggregated, and, if that was done once, was counted
      there unless it was stored only after that. With a bucket it was exported, and it is in the archive
      unless the export that landed there was cut short. */
  lemma DroppedEventsAreAggregatedAndArchived(cfg: Config, now: nat, h: seq<Action>, e: Event)
    requires cfg.Valid()
    requires e in After(cfg, Init(now), h).written && UtcDay(e.at) in After(cfg, Init(now), h).dropped
    ensures var s := After(cfg, Init(now), h); var d := UtcDay(e.at);
            && LocalDay(e.at) in s.aggregated
            && (AggregateAgain(LocalDay(e.at)) !in h ==> e in s.aggregated[LocalDay(e.at)] || e in s.late)
            && (cfg.bucket ==>
                  && d in s.objects && e in s.objects[d].rows
                  && (!CutShort(cfg, s.objects[d]) ==> e in Archived(cfg, s.objects[d])))
  {
    AfterInv(cfg, now, h);
    var s := After(cfg, Init(now), h);
    PartitionsAndLocalDays(e.at);
    assert e in OfPartition(s.written, UtcDay(e.at));
    if AggregateAgain(LocalDay(e.at)) !in h {
      CountedUnlessLate(cfg, now, h, e);
    }
    if cfg.bucket {
      WhenAnArchiveIsWhole(cfg, s.objects[UtcDay(e.at)], RowsOf(s.objects[UtcDay(e.at)]));
    }
  }

  /** The archive of a dropped day holds every event the partition had exactly when the first export that
      landed did not end with the bare error before its last byte; and so it stays, with that same export,
      whatever runs later. */
  lemma ADroppedDayIsArchivedExactlyWhenNotCutShort(cfg: Config, now: nat, h: seq<Action>, later: seq<Action>, d: nat)
    requires cfg.Valid() && cfg.bucket && d in After(cfg, Init(now), h).dropped
    ensures var s := After(cfg, Init(now), h); var end := After(cfg, s, later);
            && d in s.objects && d in end.objects && end.objects[d] == s.objects[d]
            && OfPartition(end.written, d) <= RowsOf(end.objects[d])
            && (Archived(cfg, end.objects[d]) == RowsOf(end.objects[d]) <==> !CutShort(cfg, s.objects[d]))
  {
    AfterInv(cfg, now, h);
    var s := After(cfg, Init(now), h);
    AfterKeepsInv(cfg, s, later);
    ObjectsStay(cfg, s, later, d);
    WhenAnArchiveIsWhole(cfg, s.objects[d], RowsOf(s.objects[d]));
  }

  lemma {:induction false} AfterKeepsInv(cfg: Config, s: State, later: seq<Action>)
    requires cfg.Valid() && Inv(cfg, s)
    ensures Inv(cfg, After(cfg, s, later))
    decreases |later|
  {
    if later != [] {
      AfterKeepsInv(cfg, s, later[..|later| - 1]);
      NextInv(cfg, After(cfg, s, later[..|later| - 1]), later[|later| - 1]);
    }
  }

  lemma {:induction false} ObjectsStay(cfg: Config, s: State, later: seq<Action>, d: nat)
    requires d in s.objects
    ensures d in After(cfg, s, later).objects && After(cfg, s, later).objects[d] == s.objects[d]
    decreases |later|
  {
    if later != [] {
      ObjectsStay(cfg, s, later[..|later| - 1], d);
    }
  }

  // --- when, in seconds ---

  /** No partition goes before the configured days have passed since its own day ended. */
  lemma {:induction false} NothingIsDroppedEarly(cfg: Config, now: nat, h: seq<Action>, d: nat)
    requires cfg.Valid() && d in After(cfg, Init(now), h).dropped
    ensures (d + 1 + cfg.retention) * 86_400 <= After(cfg, Init(now), h).now
  {
    AfterInv(cfg, now, h);
  }

  /** Only days that are over in Colombo are aggregated, and only days that were given a partition lose it. */
  lemma {:induction false} OnlyFinishedDaysAreAggregated(cfg: Config, now: nat, h: seq<Action>, d: nat)
    ensures var s := After(cfg, Init(now), h);
            && s.now >= now
            && (d in s.aggregated ==> (d + 1) * 86_400 <= s.now + 19_800)
            && (d in s.live || d in s.dropped ==> Ensure(d) in h)
    decreases |h|
  {
    if h != [] {
      var front, a := h[..|h| - 1], h[|h| - 1];
      OnlyFinishedDaysAreAggregated(cfg, now, front, d);
      assert h == front + [a];
    }
  }

  // --- what stays ---

  lemma WrittenStays(cfg: Config, s: State, a: Action, e: Event)
    requires e in s.written && a != Erase(e.user)
    ensures e in Next(cfg, s, a).written
  {
  }

  /** An event that has been stored stays until its partition is dropped, unless its own account is erased:
      no other account's erasure, no aggregation and no archive takes it. */
  lemma {:induction false} AStoredEventStaysUntilItsDrop(cfg: Config, s: State, later: seq<Action>, e: Event)
    requires cfg.Valid() && Inv(cfg, s) && e in s.written && Erase(e.user) !in later
    ensures var end := After(cfg, s, later);
            Inv(cfg, end) && e in end.written && (e in end.stored <==> UtcDay(e.at) !in end.dropped)
    decreases |later|
  {
    AfterKeepsInv(cfg, s, later);
    if later != [] {
      var front, a := later[..|later| - 1], later[|later| - 1];
      assert a in later;
      AStoredEventStaysUntilItsDrop(cfg, s, front, e);
      WrittenStays(cfg, After(cfg, s, front), a, e);
    }
  }

  /** And an erased account has no event, until one of it is stored again. */
  lemma {:induction false} AnErasedAccountHasNoEvents(cfg: Config, s: State, user: nat, later: seq<Action>)
    requires cfg.Valid() && Inv(cfg, s) && forall a :: a in later && a.Write? ==> a.e.user != user
    ensures var end := After(cfg, Next(cfg, s, Erase(user)), later);
            Inv(cfg, end) && forall e :: e in end.stored || e in end.written ==> e.user != user
    decreases |later|
  {
    NextInv(cfg, s, Erase(user));
    if later != [] {
      var front, a := later[..|later| - 1], later[|later| - 1];
      assert a in later;
      AnErasedAccountHasNoEvents(cfg, s, user, front);
      NextInv(cfg, After(cfg, Next(cfg, s, Erase(user)), front), a);
    }
  }

  // --- what is counted ---

  ghost predicate CountedOrLate(s: State, e: Event) {
    e in s.written && LocalDay(e.at) in s.aggregated ==> e in s.aggregated[LocalDay(e.at)] || e in s.late
  }

  lemma {:induction false} CountedUnlessLate(cfg: Config, now: nat, h: seq<Action>, e: Event)
    requires cfg.Valid() && AggregateAgain(LocalDay(e.at)) !in h
    ensures CountedOrLate(After(cfg, Init(now), h), e)
    decreases |h|
  {
    if h != [] {
      var front, a := h[..|h| - 1], h[|h| - 1];
      assert a in h;
      CountedUnlessLate(cfg, now, front, e);
      AfterInv(cfg, now, front);
      var s := After(cfg, Init(now), front);
      if a == Action.Aggregate(LocalDay(e.at)) && Enabled(cfg, s, a) {
        UnaggregatedDayIsWhole(cfg, s, a.d);
        assert e in OfLocalDay(s.written, a.d) <==> e in s.written;
      }
    }
  }

  ghost predicate CountedIfNotLate(s: State, e: Event) {
    var d := LocalDay(e.at);
    && (e in s.late ==> e in s.written && d in s.aggregated)
    && (d in s.aggregated && e in s.aggregated[d] ==> e in s.written && e !in s.late)
    && (d in s.aggregated && e in s.written ==> e in s.aggregated[d] || e in s.late)
  }

  /** As long as nothing of its account is erased and its day is aggregated once, an event of an aggregated
      day is in the day's aggregate exactly when it was not late: first stored before the day was aggregated. */
  lemma {:induction false} CountedExactlyWhenNotLate(cfg: Config, now: nat, h: seq<Action>, e: Event)
    requires cfg.Valid() && Erase(e.user) !in h && AggregateAgain(LocalDay(e.at)) !in h
    ensures CountedIfNotLate(After(cfg, Init(now), h), e)
    ensures var s := After(cfg, Init(now), h);
            e in s.written && LocalDay(e.at) in s.aggregated ==> (e in s.aggregated[LocalDay(e.at)] <==> e !in s.late)
    decreases |h|
  {
    if h != [] {
      var front, a := h[..|h| - 1], h[|h| - 1];
      assert a in h;
      CountedExactlyWhenNotLate(cfg, now, front, e);
      AfterInv(cfg, now, front);
      CountedStep(cfg, After(cfg, Init(now), front), a, e);
    }
  }

  lemma CountedStep(cfg: Config, s: State, a: Action, e: Event)
    requires Inv(cfg, s) && CountedIfNotLate(s, e) && a != Erase(e.user) && a != AggregateAgain(LocalDay(e.at))
    ensures CountedIfNotLate(Next(cfg, s, a), e)
  {
    if a.Aggregate? && a.d == LocalDay(e.at) && Enabled(cfg, s, a) {
      UnaggregatedDayIsWhole(cfg, s, a.d);
      assert e in OfLocalDay(s.written, a.d) <==> e in s.written;
    }
  }

  /** Aggregating a local day again, as a regeneration does, leaves it whole exactly when none of the day's
      events sits in a dropped partition. */
  lemma ARepeatIsWholeExactlyWhenNothingWasDropped(cfg: Config, now: nat, h: seq<Action>, d: nat)
    requires cfg.Valid() && Enabled(cfg, After(cfg, Init(now), h), AggregateAgain(d))
    ensures var s := After(cfg, Init(now), h);
            Next(cfg, s, AggregateAgain(d)).aggregated[d] == OfLocalDay(s.written, d)
            <==> (forall e :: e in s.written && LocalDay(e.at) == d ==> UtcDay(e.at) !in s.dropped)
  {
    AfterInv(cfg, now, h);
    var s := After(cfg, Init(now), h);
    forall e | e in s.written && LocalDay(e.at) == d
      ensures e in Read(s.stored, d) <==> UtcDay(e.at) !in s.dropped
    {
      PartitionsAndLocalDays(e.at);
    }
    if Read(s.stored, d) == OfLocalDay(s.written, d) {
      forall e | e in s.written && LocalDay(e.at) == d ensures UtcDay(e.at) !in s.dropped {
        assert e in OfLocalDay(s.written, d);
      }
    }
  }

  lemma Extend(cfg: Config, now: nat, h: seq<Action>, a: Action) returns (h': seq<Action>)
    ensures h' == h + [a] && After(cfg, Init(now), h') == Next(cfg, After(cfg, Init(now), h), a)
  {
    h' := h + [a];
    assert h'[..|h|] == h;
  }

  /** One event of day 0, two days later, with both its local days aggregated. */
  lemma OneOldEvent(cfg: Config) returns (h: seq<Action>, e: Event)
    requires cfg.retention == 1
    ensures e == Event(1, 0, 7)
    ensures After(cfg, Init(0), h) == State(2 * DAY, {0}, {}, {}, map[], {e}, map[0 := {e}, 1 := {}], {e}, {})
  {
    e := Event(1, 0, 7);
    h := Extend(cfg, 0, [], Ensure(0));
    h := Extend(cfg, 0, h, Write(e));
    h := Extend(cfg, 0, h, Wait(2 * DAY));
    assert After(cfg, Init(0), h) == State(2 * DAY, {0}, {}, {}, map[], {e}, map[], {e}, {});
    assert Read({e}, 0) == {e} && Read({e}, 1) == {};
    h := Extend(cfg, 0, h, Aggregate(0));
    h := Extend(cfg, 0, h, Aggregate(1));
  }

  /** Two ticks must not overlap: one that listed day 0 before a retention run aggregated and dropped it
      aggregates it again, from nothing, and the complete rows are replaced. */
  lemma AStaleListingReplacesCompleteRows(cfg: Config) returns (h: seq<Action>, e: Event)
    requires cfg.retention == 1 && !cfg.bucket
    ensures var s := After(cfg, Init(0), h); var s' := After(cfg, Init(0), h + [AggregateAgain(0)]);
            && s.aggregated == map[0 := {e}, 1 := {}] && OfLocalDay(s.written, 0) == {e}
            && s'.aggregated == map[0 := {}, 1 := {}] && OfLocalDay(s'.written, 0) == {e} && e !in s'.late
  {
    h, e := OneOldEvent(cfg);
    assert OfPartition({e}, 0) == {e} && OfLocalDay({e}, 0) == {e};
    h := Extend(cfg, 0, h, Drop(0));
    var s := After(cfg, Init(0), h);
    assert s.stored == {} && s.aggregated == map[0 := {e}, 1 := {}] && LocalDay(s.now) == 2;
    assert Read({}, 0) == {};
    var again := Extend(cfg, 0, h, AggregateAgain(0));
    assert again == h + [AggregateAgain(0)];
  }

  /** An export that breaks off at once with the error an upload takes for its end leaves an empty archive,
      and the partition goes all the same. */
  lemma ATruncatedArchiveLosesEvents(cfg: Config) returns (h: seq<Action>, e: Event)
    requires cfg.retention == 1 && cfg.bucket && cfg.line(Event(1, 0, 7)) != []
    ensures var s := After(cfg, Init(0), h);
            && e in s.written && e !in s.stored && UtcDay(e.at) in s.dropped
            && s.marked == {0} && 0 in s.objects && Archived(cfg, s.objects[0]) == {}
  {
    h, e := OneOldEvent(cfg);
    assert OfPartition({e}, 0) == {e};
    var x := Export([e], 0, ChunkedUpload.UnexpectedEof);
    OneRowCutAway(cfg, e);
    h := Extend(cfg, 0, h, Upload(0, x));
    h := Extend(cfg, 0, h, Mark(0));
    var s := After(cfg, Init(0), h);
    assert s.objects == map[0 := x] && s.marked == {0} && s.stored == {e} && s.live == {0};
    h := Extend(cfg, 0, h, Drop(0));
  }

  lemma OneRowCutAway(cfg: Config, e: Event)
    requires cfg.line(e) != []
    ensures var x := Export([e], 0, ChunkedUpload.UnexpectedEof); CanLand(cfg, x, {e}) && Archived(cfg, x) == {}
  {
    assert [e][..0] == [];
    assert Bytes(cfg, [e]) == cfg.line(e);
  }

  /** And an event received just before midnight in Colombo, but flushed only after the day was
      aggregated, is never counted. */
  lemma ALateFlushIsNeverCounted(cfg: Config) returns (h: seq<Action>, e: Event)
    requires cfg.retention == 14
    ensures var s := After(cfg, Init(0), h);
            && s.written == {e} && s.late == {e}
            && LocalDay(e.at) == 0 && s.aggregated == map[0 := {}]
  {
    e := Event(1, DAY - COLOMBO_OFFSET - 1, 7);
    h := Extend(cfg, 0, [], Wait(DAY - COLOMBO_OFFSET));
    var s := After(cfg, Init(0), h);
    assert s == Init(DAY - COLOMBO_OFFSET) && LocalDay(s.now) == 1 && UtcDay(s.now) == 0;
    h := Extend(cfg, 0, h, Aggregate(0));
    assert Read({}, 0) == {};
    assert After(cfg, Init(0), h) == s.(aggregated := map[0 := {}]);
    h := Extend(cfg, 0, h, Write(e));
    assert LocalDay(e.at) == 0 && UtcDay(e.at) == 0;
  }
}
