/** The iOS autocomplete channel: every call's result is answered exactly once, whether by the completer,
    by its watchdog or by the call that supersedes it. */
module LocalSearch {
  import opened Prelude

  datatype Reply = Suggestions(list: seq<string>) | BadArgs

  /** One call: its generation, unless its arguments were bad, and what its result was invoked with. */
  datatype Call = Call(generation: Option<nat>, replies: seq<Reply>)

  datatype State = State(calls: seq<Call>, pending: Option<nat>, lastResults: seq<string>, generation: nat, fragment: string)

  datatype Event =
    | Autocomplete(text: Option<string>)
    | DidUpdate(results: seq<string>)
    | DidFail
    | Watchdog(generation: nat)

  const Init := State([], None, [], 0, "")

  function Answer(calls: seq<Call>, i: nat, reply: Reply): seq<Call>
    requires i < |calls|
  {
    calls[i := calls[i].(replies := calls[i].replies + [reply])]
  }

  function Finish(s: State): State {
    if s.pending.Some? && s.pending.value < |s.calls|
    then s.(calls := Answer(s.calls, s.pending.value, Suggestions(s.lastResults)), pending := None)
    else s
  }

  function Begin(s: State): State {
    var s' := Finish(s);
    s'.(generation := s.generation + 1, pending := Some(|s.calls|), calls := s'.calls + [Call(Some(s.generation + 1), [])])
  }

  function Next(s: State, e: Event): State {
    match e
    case Autocomplete(None) => s.(calls := s.calls + [Call(None, [BadArgs])])
    case Autocomplete(Some(text)) =>
      if s.fragment == text then Finish(Begin(s)) else Begin(s).(fragment := text)
    case DidUpdate(results) => Finish(s.(lastResults := results))
    case DidFail => Finish(s.(lastResults := []))
    case Watchdog(generation) => if s.generation == generation then Finish(s) else s
  }

  function After(s: State, h: seq<Event>): State
    decreases |h|
  {
    if h == [] then s else Next(After(s, h[..|h| - 1]), h[|h| - 1])
  }

  lemma AfterOne(s: State, h: seq<Event>, e: Event)
    ensures After(s, h + [e]) == Next(After(s, h), e)
  {
    assert (h + [e])[..|h|] == h;
  }

  // --- the invariant ---

  /** Answered once, or the one call still waiting, which is the newest. */
  ghost predicate CallInv(s: State, i: nat)
    requires i < |s.calls|
  {
    var c := s.calls[i];
    && |c.replies| <= 1
    && (c.replies == [] <==> s.pending == Some(i))
    && (c.replies == [] ==> c.generation == Some(s.generation))
    && (c.generation.Some? ==> 1 <= c.generation.value <= s.generation)
  }

  ghost predicate Inv(s: State) {
    && (s.pending.Some? ==> s.pending.value < |s.calls|)
    && (forall i :: 0 <= i < |s.calls| ==> CallInv(s, i))
    && (forall i, j :: 0 <= i < j < |s.calls| && s.calls[i].generation.Some? && s.calls[j].generation.Some?
          ==> s.calls[i].generation.value < s.calls[j].generation.value)
  }

  lemma FinishInv(s: State)
    requires Inv(s)
    ensures Inv(Finish(s)) && Finish(s).pending.None? && |Finish(s).calls| == |s.calls|
    ensures forall i :: 0 <= i < |s.calls| ==> |Finish(s).calls[i].replies| == 1
  {
    forall i | 0 <= i < |s.calls| ensures CallInv(Finish(s), i) && |Finish(s).calls[i].replies| == 1 {
      assert CallInv(s, i);
    }
  }

  lemma BeginInv(s: State)
    requires Inv(s)
    ensures Inv(Begin(s)) && |Begin(s).calls| == |s.calls| + 1
    ensures forall i :: 0 <= i < |s.calls| ==> |Begin(s).calls[i].replies| == 1
  {
    FinishInv(s);
    forall i | 0 <= i < |s.calls|
      ensures CallInv(Begin(s), i) && (Begin(s).calls[i].generation.Some? ==> Begin(s).calls[i].generation.value <= s.generation)
    {
      assert CallInv(Finish(s), i);
    }
  }

  lemma NextInv(s: State, e: Event)
    requires Inv(s)
    ensures Inv(Next(s, e)) && |s.calls| <= |Next(s, e).calls|
  {
    match e
    case Autocomplete(None) =>
      forall i | 0 <= i < |s.calls| ensures CallInv(Next(s, e), i) {
        assert CallInv(s, i);
      }
    case Autocomplete(Some(text)) =>
      BeginInv(s);
      FinishInv(Begin(s));
      SameCalls(Begin(s), Begin(s).(fragment := text));
    case DidUpdate(results) =>
      SameCalls(s, s.(lastResults := results));
      FinishInv(s.(lastResults := results));
    case DidFail =>
      SameCalls(s, s.(lastResults := []));
      FinishInv(s.(lastResults := []));
    case Watchdog(generation) => FinishInv(s);
  }

  lemma SameCalls(s: State, s': State)
    requires Inv(s) && s' == s.(fragment := s'.fragment, lastResults := s'.lastResults)
    ensures Inv(s')
  {
    forall i | 0 <= i < |s.calls| ensures CallInv(s', i) {
      assert CallInv(s, i);
    }
  }

  lemma {:induction false} AfterInv(h: seq<Event>)
    ensures Inv(After(Init, h))
    decreases |h|
  {
    if h != [] {
      AfterInv(h[..|h| - 1]);
      NextInv(After(Init, h[..|h| - 1]), h[|h| - 1]);
    }
  }

  // --- theorems over every run ---

  /** Each result is invoked at most once, and at most one call is waiting: the newest accepted one. */
  lemma AnsweredAtMostOnce(h: seq<Event>, i: nat, j: nat)
    requires i < |After(Init, h).calls| && j < |After(Init, h).calls|
    ensures var s := After(Init, h);
            && |s.calls[i].replies| <= 1
            && (s.calls[i].replies == [] ==> s.pending == Some(i) && s.calls[i].generation == Some(s.generation))
            && (s.calls[i].replies == [] && s.calls[j].replies == [] ==> i == j)
            && (s.calls[i].replies == [] && i < j ==> s.calls[j].generation.None?)
  {
    AfterInv(h);
    assert CallInv(After(Init, h), i) && CallInv(After(Init, h), j);
  }

  /** Settles a call's result, whatever state it finds: a callback, a newer call, or the call's watchdog. */
  predicate Settles(c: Call, e: Event) {
    e.DidUpdate? || e.DidFail? || (e.Autocomplete? && e.text.Some?) || (e.Watchdog? && c.generation == Some(e.generation))
  }

  lemma SettledByNext(s: State, i: nat, e: Event)
    requires Inv(s) && i < |s.calls| && Settles(s.calls[i], e)
    ensures i < |Next(s, e).calls| && |Next(s, e).calls[i].replies| == 1
  {
    assert CallInv(s, i);
    match e
    case Autocomplete(_) =>
      BeginInv(s);
      FinishInv(Begin(s));
    case DidUpdate(results) =>
      SameCalls(s, s.(lastResults := results));
      FinishInv(s.(lastResults := results));
    case DidFail =>
      SameCalls(s, s.(lastResults := []));
      FinishInv(s.(lastResults := []));
    case Watchdog(_) => FinishInv(s);
  }

  /** An answer is never taken back or repeated, and a call keeps its generation. */
  lemma NextKeepsAnswers(s: State, i: nat, e: Event)
    requires Inv(s) && i < |s.calls|
    ensures i < |Next(s, e).calls| && Next(s, e).calls[i].generation == s.calls[i].generation
    ensures |s.calls[i].replies| == 1 ==> Next(s, e).calls[i].replies == s.calls[i].replies
  {
    assert CallInv(s, i);
    BeginInv(s);
  }

  lemma {:induction false} AfterKeepsAnswers(s: State, i: nat, later: seq<Event>)
    requires Inv(s) && i < |s.calls|
    ensures Inv(After(s, later)) && i < |After(s, later).calls| && After(s, later).calls[i].generation == s.calls[i].generation
    ensures |s.calls[i].replies| == 1 ==> After(s, later).calls[i].replies == s.calls[i].replies
    decreases |later|
  {
    if later != [] {
      var front := later[..|later| - 1];
      AfterKeepsAnswers(s, i, front);
      NextInv(After(s, front), later[|later| - 1]);
      NextKeepsAnswers(After(s, front), i, later[|later| - 1]);
    }
  }

  /** Every call is answered, exactly once and for good, as soon as one settling event has occurred. */
  lemma EveryCallIsAnswered(h: seq<Event>, i: nat, between: seq<Event>, e: Event, later: seq<Event>)
    requires i < |After(Init, h).calls| && Settles(After(Init, h).calls[i], e)
    ensures var s := After(After(Init, h), between);
            var end := After(Next(s, e), later);
            i < |end.calls| && |end.calls[i].replies| == 1
  {
    AfterInv(h);
    AfterKeepsAnswers(After(Init, h), i, between);
    var s := After(After(Init, h), between);
    SettledByNext(s, i, e);
    NextInv(s, e);
    AfterKeepsAnswers(Next(s, e), i, later);
  }

  /** A watchdog answers no call but its own, and only if nothing else has. */
  lemma AWatchdogSettlesOnlyItsOwnCall(h: seq<Event>, g: nat, i: nat)
    requires i < |After(Init, h).calls|
    ensures var s := After(Init, h); var s' := Next(s, Watchdog(g));
            i < |s'.calls| && (s'.calls[i] != s.calls[i] ==> s.calls[i].generation == Some(g) && s.calls[i].replies == [])
  {
    AfterInv(h);
    assert CallInv(After(Init, h), i);
  }

  // --- what a call is told ---

  ghost function Run(): seq<Event> -> State { h => After(Init, h) }

  /** What the completer has reported: a list, or none after a failure. */
  ghost function Reports(): (State, Event) -> Option<seq<string>> {
    (s: State, e: Event) => if e.DidUpdate? then Some(e.results) else if e.DidFail? then Some([]) else None
  }

  ghost function Asks(): (State, Event) -> Option<string> {
    (s: State, e: Event) => if e.Autocomplete? then e.text else None
  }

  /** The completer's last report, and the last text asked for. */
  ghost function Latest(h: seq<Event>): seq<string> {
    var last := LastWritten(Run(), h, Reports());
    if last.Some? then last.value else []
  }

  ghost function LastAsked(h: seq<Event>): string {
    var last := LastWritten(Run(), h, Asks());
    if last.Some? then last.value else ""
  }

  lemma {:induction false} LatestIsKept(h: seq<Event>)
    ensures After(Init, h).lastResults == Latest(h) && After(Init, h).fragment == LastAsked(h)
    decreases |h|
  {
    if h != [] {
      LatestIsKept(h[..|h| - 1]);
    }
  }

  /** Whatever settles a waiting call, it is told the completer's last report up to then, the event itself
      included: an update's own list, nothing after a failure. */
  lemma AWaitingCallIsToldTheLatest(h: seq<Event>, i: nat, e: Event)
    requires i < |After(Init, h).calls| && After(Init, h).calls[i].replies == [] && Settles(After(Init, h).calls[i], e)
    ensures i < |After(Init, h + [e]).calls| && After(Init, h + [e]).calls[i].replies == [Suggestions(Latest(h + [e]))]
  {
    AfterInv(h);
    AfterOne(Init, h, e);
    var s := After(Init, h);
    assert CallInv(s, i);
    SettledByNext(s, i, e);
    LatestIsKept(h + [e]);
    LatestIsKept(h);
    FinishInv(s);
  }

  /** A call with bad arguments is told so at once and disturbs nothing; any other is answered at once exactly
      when it asks for the last text again, and waits otherwise. */
  lemma ANewCallWaitsExactlyForANewText(h: seq<Event>, text: Option<string>)
    ensures var s := After(Init, h); var s' := After(Init, h + [Autocomplete(text)]); var n := |s.calls|;
            && |s'.calls| == n + 1
            && (text.None? ==> s'.calls == s.calls + [Call(None, [BadArgs])] && s'.pending == s.pending)
            && (text.Some? && text.value == LastAsked(h) ==> s'.calls[n].replies == [Suggestions(Latest(h))])
            && (text.Some? && text.value != LastAsked(h) ==> s'.calls[n].replies == [] && s'.pending == Some(n))
  {
    AfterInv(h);
    AfterOne(Init, h, Autocomplete(text));
    LatestIsKept(h);
    FinishInv(After(Init, h));
  }

  // --- LocalSearchChannel.swift ---

  class Channel {
    var pendingAutocompleteResult: Option<nat>
    var lastResults: seq<string>
    var autocompleteGeneration: nat
    var queryFragment: string
    var calls: seq<Call>   // every call so far and what its result was invoked with
    ghost var log: seq<Event>

    ghost function View(): State
      reads this
    {
      State(calls, pendingAutocompleteResult, lastResults, autocompleteGeneration, queryFragment)
    }

    ghost predicate Valid()
      reads this
    {
      View() == After(Init, log)
    }

    constructor ()
      ensures Valid() && View() == Init
    {
      pendingAutocompleteResult, lastResults, autocompleteGeneration := None, [], 0;
      queryFragment, calls, log := "", [], [];
    }

    ghost method Note(s: State, e: Event)
      requires s == After(Init, log) && View() == Next(s, e)
      modifies this`log
      ensures Valid() && log == old(log) + [e]
    {
      AfterOne(Init, log, e);
      log := log + [e];
    }

    /** Does nothing when no call is waiting, so every path may run it. */
    method FinishAutocomplete()
      requires pendingAutocompleteResult.Some? ==> pendingAutocompleteResult.value < |calls|
      modifies this`pendingAutocompleteResult, this`calls
      ensures View() == Finish(old(View())) && pendingAutocompleteResult.None?
    {
      if pendingAutocompleteResult.Some? {
        var i := pendingAutocompleteResult.value;
        pendingAutocompleteResult := None;
        calls := calls[i := calls[i].(replies := calls[i].replies + [Suggestions(lastResults)])];
      }
    }

    /** Returns the generation whose watchdog is to be started, if one is. */
    method HandleAutocomplete(text: Option<string>) returns (watch: Option<nat>)
      requires Valid()
      modifies this
      ensures Valid() && log == old(log) + [Autocomplete(text)]
      ensures watch.Some? <==> text.Some? && text.value != old(queryFragment)
      ensures watch.Some? ==> watch.value == autocompleteGeneration && pendingAutocompleteResult == Some(|calls| - 1)
      ensures watch.None? && text.Some? ==> pendingAutocompleteResult.None?
    {
      AfterInv(log);
      ghost var s := View();
      watch := None;
      if text.None? {
        calls := calls + [Call(None, [BadArgs])];
        Note(s, Autocomplete(text));
        return;
      }
      FinishAutocomplete();
      autocompleteGeneration := autocompleteGeneration + 1;
      pendingAutocompleteResult := Some(|calls|);
      calls := calls + [Call(Some(autocompleteGeneration), [])];
      assert View() == Begin(s);
      if queryFragment == text.value {
        FinishAutocomplete();
      } else {
        queryFragment := text.value;
        watch := Some(autocompleteGeneration);
      }
      Note(s, Autocomplete(text));
    }

    method WatchdogFires(generation: nat)
      requires Valid()
      modifies this
      ensures Valid() && log == old(log) + [Watchdog(generation)]
    {
      AfterInv(log);
      ghost var s := View();
      if autocompleteGeneration == generation {
        FinishAutocomplete();
      }
      Note(s, Watchdog(generation));
    }

    method CompleterDidUpdateResults(results: seq<string>)
      requires Valid()
      modifies this
      ensures Valid() && log == old(log) + [DidUpdate(results)]
    {
      AfterInv(log);
      ghost var s := View();
      lastResults := results;
      FinishAutocomplete();
      Note(s, DidUpdate(results));
    }

    method CompleterDidFail()
      requires Valid()
      modifies this
      ensures Valid() && log == old(log) + [DidFail]
    {
      AfterInv(log);
      ghost var s := View();
      lastResults := [];
      FinishAutocomplete();
      Note(s, DidFail);
    }
  }
}
