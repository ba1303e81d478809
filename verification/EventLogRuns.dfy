/**
 * What is in the log over a whole run: a selection of the calls made, in order, that has every
 * call that returned.
 */
module EventLogRuns {
  import opened Results
  import opened ByteCodec
  import opened AaelEvent
  import opened Tcg2
  import opened EventLogMachine

  /** The position of the latest of the first `i` actions that is a call. */
  function LastCall(actions: seq<Action>, i: nat): (r: Option<nat>)
    requires i <= |actions|
    ensures r.Some? ==> r.value < i && actions[r.value].Call?
    ensures r.Some? ==> forall j :: r.value < j < i ==> !actions[j].Call?
    ensures r.None? ==> forall j :: 0 <= j < i ==> !actions[j].Call?
  {
    if i == 0 then None
    else if actions[i - 1].Call? then Some(i - 1)
    else LastCall(actions, i - 1)
  }

  /** The calls for which the register has been extended, by the call itself or by recovery. */
  function MeasuredCalls(states: seq<State>, actions: seq<Action>, i: nat): (calls: set<nat>)
    requires |states| == |actions| + 1 && i <= |actions|
    ensures forall c <- calls :: c < i && actions[c].Call?
  {
    if i == 0 then {}
    else
      var before := MeasuredCalls(states, actions, i - 1);
      if actions[i - 1].Run? && states[i - 1].proc.Extend? && LastCall(actions, i - 1).Some?
      then before + {LastCall(actions, i - 1).value}
      else before
  }

  /** What may be logged for a call: its text, or part of it if that leads to the same register. */
  ghost predicate LoggedFor(p: Platform, reg: Bytes, event: Event, text: Bytes) {
    text <= Print(event) && (NoCollision(p, reg, Print(event)) ==> text == Print(event))
  }

  /** `texts` holds what may be logged for each of these calls, in order, and nothing else. */
  ghost predicate LogsCalls(p: Platform, texts: Texts, states: seq<State>, actions: seq<Action>, calls: set<nat>, i: nat)
    requires |states| == |actions| + 1 && i <= |actions|
  {
    if i == 0 then texts == Nothing
    else if i - 1 in calls && actions[i - 1].Call? then
      && texts.Then? && LoggedFor(p, states[i - 1].reg, actions[i - 1].event, texts.text)
      && LogsCalls(p, texts.before, states, actions, calls, i - 1)
    else LogsCalls(p, texts, states, actions, calls, i - 1)
  }

  lemma {:induction false} LaterCallsDoNotMatter(p: Platform, texts: Texts, states: seq<State>, actions: seq<Action>,
                                                 calls: set<nat>, c: nat, i: nat)
    requires |states| == |actions| + 1 && i <= c && i <= |actions| && LogsCalls(p, texts, states, actions, calls, i)
    ensures LogsCalls(p, texts, states, actions, calls + {c}, i)
  {
    if i > 0 {
      var before := if i - 1 in calls && actions[i - 1].Call? then texts.before else texts;
      LaterCallsDoNotMatter(p, before, states, actions, calls, c, i - 1);
    }
  }

  /** Logging one more text, for the latest call. */
  lemma {:induction false} LogLatest(p: Platform, texts: Texts, text: Bytes, states: seq<State>, actions: seq<Action>,
                                     calls: set<nat>, c: nat, i: nat)
    requires |states| == |actions| + 1 && i <= |actions| && LogsCalls(p, texts, states, actions, calls, i)
    requires LastCall(actions, i) == Some(c) && c !in calls && LoggedFor(p, states[c].reg, actions[c].event, text)
    ensures LogsCalls(p, Then(texts, text), states, actions, calls + {c}, i)
  {
    if c == i - 1 {
      LaterCallsDoNotMatter(p, texts, states, actions, calls, c, i - 1);
    } else {
      LogLatest(p, texts, text, states, actions, calls, c, i - 1);
    }
  }

  /** How a history relates to the calls made so far. */
  ghost predicate Tracks(p: Platform, states: seq<State>, actions: seq<Action>, i: nat, h: History)
    requires |states| == |actions| + 1 && i <= |actions|
  {
    && LogsCalls(p, h.committed, states, actions, MeasuredCalls(states, actions, i), i)
    && (!h.phase.Clean? ==> LastCall(actions, i).Some? && InFlight(p, states, actions, i, LastCall(actions, i).value, h.phase))
  }

  ghost predicate InFlight(p: Platform, states: seq<State>, actions: seq<Action>, i: nat, c: nat, phase: Phase)
    requires |states| == |actions| + 1 && c < i <= |actions| && actions[c].Call?
  {
    match phase
    case Clean => true
    case Torn(text) =>
      c !in MeasuredCalls(states, actions, i) && states[i].reg == states[c].reg && text == Print(actions[c].event)
    case Ready(text) =>
      && c !in MeasuredCalls(states, actions, i) && states[i].reg == states[c].reg
      && LoggedFor(p, states[c].reg, actions[c].event, text)
    case Measured(_, _) => c in MeasuredCalls(states, actions, i)
  }

  lemma NextTracks(p: Platform, r0: Bytes, states: seq<State>, actions: seq<Action>, i: nat, h: History)
    requires p.Valid() && |states| == |actions| + 1 && 0 < i <= |actions|
    requires Inv(p, r0, states[i - 1], h) && Next(p, states[i - 1], actions[i - 1], states[i])
    requires Tracks(p, states, actions, i - 1, h)
    ensures Tracks(p, states, actions, i, Advance(p, states[i - 1], actions[i - 1], h))
  {
    hide Inv;
    match actions[i - 1]
    case Call(_) =>
    case Run => RunTracks(p, r0, states, actions, i, h);
    case Crash =>
    case Restart => RestartTracks(p, r0, states, actions, i, h);
    case DeleteWal =>
  }

  lemma ExtendsWhenReady(p: Platform, r0: Bytes, s: State, h: History)
    requires Inv(p, r0, s, h) && s.proc.Extend?
    ensures h.phase.Ready?
  {
  }

  lemma RunTracks(p: Platform, r0: Bytes, states: seq<State>, actions: seq<Action>, i: nat, h: History)
    requires |states| == |actions| + 1 && 0 < i <= |actions| && actions[i - 1].Run?
    requires Inv(p, r0, states[i - 1], h) && Next(p, states[i - 1], actions[i - 1], states[i])
    requires Tracks(p, states, actions, i - 1, h)
    ensures Tracks(p, states, actions, i, Advance(p, states[i - 1], actions[i - 1], h))
  {
    hide Inv;
    if states[i - 1].proc.Extend? {
      ExtendsWhenReady(p, r0, states[i - 1], h);
      var c := LastCall(actions, i - 1).value;
      LogLatest(p, h.committed, h.phase.text, states, actions, MeasuredCalls(states, actions, i - 1), c, i - 1);
    }
  }

  /** A record cut short gets recovery going only if the shortened text leads to the same register. */
  lemma RestartTracks(p: Platform, r0: Bytes, states: seq<State>, actions: seq<Action>, i: nat, h: History)
    requires p.Valid() && |states| == |actions| + 1 && 0 < i <= |actions| && actions[i - 1].Restart?
    requires Inv(p, r0, states[i - 1], h) && Next(p, states[i - 1], actions[i - 1], states[i])
    requires Tracks(p, states, actions, i - 1, h)
    ensures Tracks(p, states, actions, i, Advance(p, states[i - 1], actions[i - 1], h))
  {
    hide Inv;
    var s := states[i - 1];
    match h.phase
    case Clean => NoRecordWhenClean(p, r0, s, h);
    case Torn(text) => RestartOfTorn(p, r0, s, h);
    case Ready(_) => RestartComplete(p, r0, s, h);
    case Measured(_, _) => RestartComplete(p, r0, s, h);
  }

  lemma RestartOfTorn(p: Platform, r0: Bytes, s: State, h: History)
    requires p.Valid() && Inv(p, r0, s, h) && h.phase.Torn? && s.proc.Down?
    ensures var h' := Advance(p, s, Restart, h);
            h' != h ==> h' == h.(phase := Ready(h'.phase.text)) && h'.phase.text <= h.phase.text &&
                        !NoCollision(p, s.reg, h.phase.text)
  {
    var text := h.phase.text;
    ReadTornRecord(p, |s.log|, Extended(p, s.reg, text), text, |s.wal.value|);
    if ReadWal(p, s.wal.value).Success? {
      var cache := ReadWal(p, s.wal.value).value;
      RecoverReads(p, s, cache);
      assert cache.text == text[..|cache.text|];
    }
  }

  const START: History := History(Nothing, Clean)

  lemma RunInv(p: Platform, r0: Bytes, states: seq<State>, actions: seq<Action>, i: nat)
    requires p.Valid() && IsRun(p, states, actions) && Initial(states[0], r0) && i <= |actions|
    ensures Inv(p, r0, states[i], HistoryAt(p, states, actions, START, i))
  {
    RunKeepsInv(p, r0, states, actions, START, i);
  }

  lemma {:induction false} RunTracked(p: Platform, r0: Bytes, states: seq<State>, actions: seq<Action>, i: nat)
    requires p.Valid() && IsRun(p, states, actions) && Initial(states[0], r0) && i <= |actions|
    ensures Tracks(p, states, actions, i, HistoryAt(p, states, actions, START, i))
  {
    hide Inv, Next, Tracks, Advance;
    if i == 0 {
      StartTracks(p, states, actions);
    } else {
      RunTracked(p, r0, states, actions, i - 1);
      RunInv(p, r0, states, actions, i - 1);
      StepOfRun(p, states, actions, i);
      NextTracks(p, r0, states, actions, i, HistoryAt(p, states, actions, START, i - 1));
    }
  }

  lemma StartTracks(p: Platform, states: seq<State>, actions: seq<Action>)
    requires |states| == |actions| + 1
    ensures Tracks(p, states, actions, 0, START)
  {
  }

  /**
   * Whole-run safety: over any calls, crashes at any byte, restarts and deletions of an unreadable
   * record, whenever no record is left there is one list of texts of which the log is the printout
   * and the register the fold. It has one text for each call whose event was measured, in the order
   * of the calls, and nothing else: the text of the event, or part of it if that collides with it.
   */
  lemma RunSafe(p: Platform, r0: Bytes, states: seq<State>, actions: seq<Action>, i: nat) returns (texts: Texts)
    requires p.Valid() && IsRun(p, states, actions) && Initial(states[0], r0) && i <= |actions|
    requires states[i].wal.None?
    ensures Consistent(p, r0, states[i], texts)
    ensures LogsCalls(p, texts, states, actions, MeasuredCalls(states, actions, i), i)
  {
    RunTracked(p, r0, states, actions, i);
    RunInv(p, r0, states, actions, i);
    texts := HistoryAt(p, states, actions, START, i).committed;
  }

  /** The process came to the end of call `c`, or of the recovery of its record, with action `j - 1`. */
  predicate Returned(states: seq<State>, actions: seq<Action>, c: nat, j: nat) {
    && |states| == |actions| + 1 && c < j <= |actions| && LastCall(actions, j) == Some(c)
    && actions[j - 1].Run? && states[j].proc.Idle?
  }

  lemma StopsWhenMeasured(p: Platform, r0: Bytes, s: State, a: Action, s': State, h: History)
    requires Inv(p, r0, s, h) && Next(p, s, a, s') && a.Run? && s'.proc.Idle?
    ensures h.phase.Measured?
  {
  }

  /** A call that returned is measured, and so logged, from then on. */
  lemma ReturnedIsLogged(p: Platform, r0: Bytes, states: seq<State>, actions: seq<Action>, c: nat, j: nat, i: nat)
    requires p.Valid() && IsRun(p, states, actions) && Initial(states[0], r0)
    requires Returned(states, actions, c, j) && j <= i <= |actions|
    ensures c in MeasuredCalls(states, actions, i)
  {
    hide Inv, Next, LogsCalls;
    var h := HistoryAt(p, states, actions, START, j - 1);
    RunTracked(p, r0, states, actions, j - 1);
    RunInv(p, r0, states, actions, j - 1);
    StepOfRun(p, states, actions, j);
    StopsWhenMeasured(p, r0, states[j - 1], actions[j - 1], states[j], h);
    MeasuredStays(states, actions, j - 1, i);
  }

  lemma {:induction false} MeasuredStays(states: seq<State>, actions: seq<Action>, j: nat, i: nat)
    requires |states| == |actions| + 1 && j <= i <= |actions|
    ensures MeasuredCalls(states, actions, j) <= MeasuredCalls(states, actions, i)
  {
    if j < i {
      MeasuredStays(states, actions, j, i - 1);
    }
  }
}
