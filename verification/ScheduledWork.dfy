/** One tick of scheduled work: the sweeps of a group in order, each under its own budget and all under
    the caller's deadline. Times are in milliseconds. */
module ScheduledWork {
  import opened Prelude

  const SECOND := 1_000
  const DEFAULT_SWEEP_BUDGET := 30 * SECOND
  const REPLY_MARGIN := 3 * SECOND

  datatype Group = Core | Analytics | Other

  datatype Sweep = Sweep(name: nat, budget: int, group: Group) {
    function Own(): int { if budget <= 0 then DEFAULT_SWEEP_BUDGET else budget }
  }

  /** `given` is the time a sweep was allowed, from `begin` on. */
  datatype Result = Ran(name: nat, affected: nat, failed: bool, begin: int, given: int) | Skipped(name: nat) {
    predicate HasError() { Skipped? || failed }
  }

  ghost function Errors(): Result -> bool { (r: Result) => r.HasError() }

  function Selected(sweeps: seq<Sweep>, group: Group): seq<Sweep>
    decreases |sweeps|
  {
    if sweeps == [] then []
    else
      var front, last := sweeps[..|sweeps| - 1], sweeps[|sweeps| - 1];
      if last.group == group then Selected(front, group) + [last] else Selected(front, group)
  }

  lemma {:induction false} SelectedGrows(sweeps: seq<Sweep>, group: Group, i: nat)
    requires i <= |sweeps|
    ensures Selected(sweeps[..i], group) <= Selected(sweeps, group)
    decreases |sweeps|
  {
    if i < |sweeps| {
      var front := sweeps[..|sweeps| - 1];
      assert front[..i] == sweeps[..i];
      SelectedGrows(front, group, i);
    } else {
      assert sweeps[..i] == sweeps;
    }
  }

  /** The places of the group's sweeps: in order, and all of them. */
  ghost predicate Picks(sweeps: seq<Sweep>, group: Group, places: seq<nat>) {
    && (forall j :: 0 <= j < |places| ==> places[j] < |sweeps| && sweeps[places[j]].group == group)
    && (forall j, k :: 0 <= j < k < |places| ==> places[j] < places[k])
    && (forall i :: 0 <= i < |sweeps| && sweeps[i].group == group ==> i in places)
  }

  /** The results, so far, of the sweeps at these places. */
  ghost predicate ResultsOf(results: seq<Result>, sweeps: seq<Sweep>, places: seq<nat>) {
    && |results| <= |places|
    && forall j :: 0 <= j < |results| ==> places[j] < |sweeps| && results[j].name == sweeps[places[j]].name
  }

  lemma {:induction false} SelectedIsTheGroup(sweeps: seq<Sweep>, group: Group) returns (places: seq<nat>)
    ensures Picks(sweeps, group, places) && |places| == |Selected(sweeps, group)|
    ensures forall j :: 0 <= j < |places| ==> Selected(sweeps, group)[j] == sweeps[places[j]]
    decreases |sweeps|
  {
    places := [];
    if sweeps != [] {
      var n := |sweeps| - 1;
      places := SelectedIsTheGroup(sweeps[..n], group);
      if sweeps[n].group == group {
        places := places + [n];
      }
    }
  }

  /** The time a run of sweeps can take when each returns at most `late` after its budget. */
  function Cost(sweeps: seq<Sweep>, late: nat): nat
    decreases |sweeps|
  {
    if sweeps == [] then 0 else Cost(sweeps[..|sweeps| - 1], late) + sweeps[|sweeps| - 1].Own() + late
  }

  lemma {:induction false} CostGrows(sweeps: seq<Sweep>, late: nat, i: nat)
    requires i <= |sweeps|
    ensures Cost(sweeps[..i], late) <= Cost(sweeps, late)
    decreases |sweeps|
  {
    if i < |sweeps| {
      var front := sweeps[..|sweeps| - 1];
      assert front[..i] == sweeps[..i];
      CostGrows(front, late, i);
    } else {
      assert sweeps[..i] == sweeps;
    }
  }

  /** What a sweep's result must say: the sweep it is for and, if it ran, that neither its own budget nor
      the part of the deadline kept for the reply was exceeded when it was started. */
  predicate Reports(r: Result, s: Sweep, deadline: Option<int>) {
    && r.name == s.name
    && (r.Ran? ==> 0 < r.given <= s.Own() && (deadline.Some? ==> r.begin + r.given <= deadline.value - REPLY_MARGIN))
  }

  predicate InTime(deadline: Option<int>, now: int) {
    deadline.Some? ==> now < deadline.value
  }

  /** One sweep's turn, begun at `now` and over at `next`. */
  ghost predicate Turn(r: Result, s: Sweep, now: int, next: int, deadline: Option<int>, outOfTime: bool, late: nat) {
    && Reports(r, s, deadline)
    && (r.Skipped? <==> outOfTime || (deadline.Some? && deadline.value - REPLY_MARGIN <= now))
    && (if r.Ran? then r.begin == now <= next <= now + r.given + late else next == now)
    && (r.Ran? && (deadline.Some? ==> now + s.Own() <= deadline.value - REPLY_MARGIN) ==> r.given == s.Own())
  }

  method RunOne(s: Sweep, now: int, deadline: Option<int>, outOfTime: bool, late: nat) returns (r: Result, out: bool, next: int)
    ensures Turn(r, s, now, next, deadline, outOfTime, late) && out == r.Skipped?
  {
    var budget := s.Own();
    out, next := outOfTime, now;
    if deadline.Some? {
      var left := deadline.value - now - REPLY_MARGIN;
      if left <= 0 {
        out := true;
      } else if left < budget {
        budget := left;
      }
    }
    if out {
      return Skipped(s.name), out, now;
    }
    var took: nat, affected: nat, failed := *, *, *;
    next := if took <= budget + late then now + took else now + budget + late;
    r := Ran(s.name, affected, failed, now, budget);
  }

  ghost predicate SkippedSuffix(results: seq<Result>) {
    forall i, j :: 0 <= i < j < |results| && results[i].Skipped? ==> results[j].Skipped?
  }

  ghost predicate AllInFull(results: seq<Result>, sweeps: seq<Sweep>) {
    |results| <= |sweeps| && forall i :: 0 <= i < |results| ==> results[i].Ran? && results[i].given == sweeps[i].Own()
  }

  /** Where the work is after the first sweeps of `mine`, begun at `start`. */
  ghost predicate Progress(mine: seq<Sweep>, results: seq<Result>, failed: nat, start: int, now: int, deadline: Option<int>, late: nat) {
    && |results| <= |mine| && (forall i :: 0 <= i < |results| ==> Reports(results[i], mine[i], deadline))
    && failed == Count(results, Errors()) && SkippedSuffix(results)
    && start <= now && (deadline.Some? ==> now <= start || now <= deadline.value - REPLY_MARGIN + late)
    && (FitsDeadline(mine, start, deadline, late) ==> AllInFull(results, mine) && now <= start + Cost(mine[..|results|], late))
  }

  ghost predicate FitsDeadline(mine: seq<Sweep>, start: int, deadline: Option<int>, late: nat) {
    deadline.Some? ==> Cost(mine, late) <= deadline.value - REPLY_MARGIN - start
  }

  ghost predicate LastSkipped(results: seq<Result>) {
    results != [] && results[|results| - 1].Skipped?
  }

  lemma SkippedStaySkipped(results: seq<Result>, r: Result)
    requires SkippedSuffix(results) && (LastSkipped(results) ==> r.Skipped?)
    ensures SkippedSuffix(results + [r])
  {
  }

  lemma FullSoFar(mine: seq<Sweep>, results: seq<Result>, start: int, now: int, deadline: Option<int>, late: nat, r: Result, next: int)
    requires |results| < |mine| && FitsDeadline(mine, start, deadline, late)
    requires AllInFull(results, mine) && now <= start + Cost(mine[..|results|], late)
    requires Turn(r, mine[|results|], now, next, deadline, LastSkipped(results), late)
    ensures AllInFull(results + [r], mine) && next <= start + Cost(mine[..|results| + 1], late)
  {
    var n := |results|;
    CostGrows(mine, late, n + 1);
    assert mine[..n + 1][..n] == mine[..n];
    assert Cost(mine[..n + 1], late) == Cost(mine[..n], late) + mine[n].Own() + late;
    assert n > 0 ==> results[n - 1].Ran?;
  }

  lemma ProgressOne(mine: seq<Sweep>, results: seq<Result>, failed: nat, start: int, now: int, deadline: Option<int>, late: nat,
                    r: Result, next: int)
    requires Progress(mine, results, failed, start, now, deadline, late) && |results| < |mine|
    requires Turn(r, mine[|results|], now, next, deadline, LastSkipped(results), late)
    ensures Progress(mine, results + [r], failed + One(r.HasError()), start, next, deadline, late)
  {
    CountAfterAppend(results, r, Errors());
    SkippedStaySkipped(results, r);
    if FitsDeadline(mine, start, deadline, late) {
      FullSoFar(mine, results, start, now, deadline, late, r, next);
    }
  }

  method RunGroup(sweeps: seq<Sweep>, group: Group, start: int, deadline: Option<int>, stays: bool, late: nat)
    returns (results: seq<Result>, failed: nat, end: int)
    ensures Progress(Selected(sweeps, group), results, failed, start, end, deadline, late)
    ensures stays && InTime(deadline, start) && late < REPLY_MARGIN ==> |results| == |Selected(sweeps, group)|
  {
    results, failed, end := [], 0, start;
    var outOfTime := false;
    ghost var mine := Selected(sweeps, group);
    for i := 0 to |sweeps|
      invariant |results| == |Selected(sweeps[..i], group)| && Selected(sweeps[..i], group) <= mine
      invariant Progress(mine, results, failed, start, end, deadline, late) && outOfTime == LastSkipped(results)
    {
      SelectedGrows(sweeps, group, i + 1);
      assert sweeps[..i + 1][..i] == sweeps[..i];
      if sweeps[i].group != group {
        continue;
      }
      var cancelled := *;
      if (cancelled && !stays) || !InTime(deadline, end) {
        return;
      }
      ghost var before := end;
      var r;
      r, outOfTime, end := RunOne(sweeps[i], end, deadline, outOfTime, late);
      ProgressOne(mine, results, failed, start, before, deadline, late, r, end);
      failed, results := failed + One(r.HasError()), results + [r];
    }
    assert sweeps[..|sweeps|] == sweeps;
  }

  /** One result for each sweep of the group, in order, while the caller is there; the ones skipped for
      want of time are the last ones, and errors are counted exactly. If no sweep returns more than `late`
      after its budget, the work ends that long after the reply margin begins, and when the group's budgets
      fit the deadline nothing is skipped or cut short. */
  method RunScheduledWork(sweeps: seq<Sweep>, group: Group, start: int, deadline: Option<int>, stays: bool, late: nat)
    returns (ok: bool, results: seq<Result>, failed: nat, end: int, ghost places: seq<nat>)
    ensures ok == !group.Other?
    ensures Picks(sweeps, group, places) && ResultsOf(results, sweeps, places)
    ensures !ok ==> results == [] && failed == 0 && end == start
    ensures Progress(Selected(sweeps, group), results, failed, start, end, deadline, late)
    ensures ok && stays && InTime(deadline, start) && late < REPLY_MARGIN ==> |results| == |places|
  {
    results, failed, end, ok := [], 0, start, !group.Other?;
    places := SelectedIsTheGroup(sweeps, group);
    if ok {
      results, failed, end := RunGroup(sweeps, group, start, deadline, stays, late);
    }
  }

  /** The analytics tick: three sweeps of 120 seconds under 480 seconds are all run with their whole budget,
      even if each returns a whole reply margin late. */
  lemma TheAnalyticsTickFits(sweeps: seq<Sweep>, start: int, late: nat)
    requires |Selected(sweeps, Analytics)| == 3 && late <= REPLY_MARGIN
    requires forall s :: s in Selected(sweeps, Analytics) ==> s.budget == 120 * SECOND
    ensures FitsDeadline(Selected(sweeps, Analytics), start, Some(start + 480 * SECOND), late)
  {
    var mine := Selected(sweeps, Analytics);
    assert mine[..2][..1] == mine[..1] && mine[..1][..0] == [];
    assert Cost(mine, late) == Cost(mine[..2], late) + mine[2].Own() + late;
    assert Cost(mine[..2], late) == Cost(mine[..1], late) + mine[1].Own() + late;
    assert Cost(mine[..1], late) == Cost([], late) + mine[0].Own() + late;
  }
}
