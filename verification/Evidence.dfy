/** What a verifier gets: the log in the evidence, replayed, gives the register. */
module Evidence {
  import opened Results
  import opened ByteCodec
  import opened AaelEvent
  import opened Tcg2
  import opened Ccel
  import opened EventLogMachine
  import opened EventLogRuns

  function EntriesOf(p: Platform, texts: Texts): seq<Tcg2EventEntry> {
    match texts
    case Nothing => []
    case Then(before, text) => EntriesOf(p, before) + [TextEntry(p, text)]
  }

  /** Every text is short enough for its length to be written in 32 bits. */
  predicate AllFit(texts: Texts) {
    match texts
    case Nothing => true
    case Then(before, text) => AllFit(before) && |text| + 8 < TWO_TO_THE_32
  }

  lemma {:induction false} LogIsPrintout(p: Platform, texts: Texts)
    ensures LogOf(p, texts) == PrintEntries(EntriesOf(p, texts))
  {
    match texts
    case Nothing =>
    case Then(before, text) =>
      LogIsPrintout(p, before);
      PrintConcat(EntriesOf(p, before), [TextEntry(p, text)]);
      assert PrintEntries([TextEntry(p, text)]) == TextBytes(p, text) + PrintEntries([]);
  }

  lemma {:induction false} EntriesWalkable(p: Platform, texts: Texts)
    requires p.Valid() && AllFit(texts)
    ensures Walkable(EntriesOf(p, texts))
  {
    match texts
    case Nothing =>
    case Then(before, text) =>
      EntriesWalkable(p, before);
      TextEntryWellFormedIff(p, text);
  }

  /** The log determines the list of texts: no two histories look the same. */
  lemma {:induction false} LogDeterminesTexts(p: Platform, a: Texts, b: Texts)
    requires p.Valid() && AllFit(a) && AllFit(b) && LogOf(p, a) == LogOf(p, b)
    ensures a == b
  {
    LogIsPrintout(p, a);
    LogIsPrintout(p, b);
    EntriesWalkable(p, a);
    EntriesWalkable(p, b);
    PrintInjective(EntriesOf(p, a), EntriesOf(p, b));
    SameEntries(p, a, b);
  }

  lemma {:induction false} SameEntries(p: Platform, a: Texts, b: Texts)
    requires EntriesOf(p, a) == EntriesOf(p, b)
    ensures a == b
  {
    if a.Then? && b.Then? {
      var xs, ys := EntriesOf(p, a), EntriesOf(p, b);
      assert xs[..|xs| - 1] == EntriesOf(p, a.before) && ys[..|ys| - 1] == EntriesOf(p, b.before);
      SameEntries(p, a.before, b.before);
      assert xs[|xs| - 1] == TextEntry(p, a.text) && ys[|ys| - 1] == TextEntry(p, b.text);
      TaggedReadsBack(a.text);
      TaggedReadsBack(b.text);
    }
  }

  /** Replaying entries: each folds the first digest it carries into the register. */
  function Replay(p: Platform, reg: Bytes, es: seq<Tcg2EventEntry>): Bytes
    decreases |es|
  {
    if es == [] then reg
    else
      var digest := if es[0].digests == [] then [] else es[0].digests[0].digest;
      Replay(p, p.hash(reg + digest), es[1..])
  }

  lemma {:induction false} ReplayConcat(p: Platform, reg: Bytes, xs: seq<Tcg2EventEntry>, ys: seq<Tcg2EventEntry>)
    ensures Replay(p, reg, xs + ys) == Replay(p, Replay(p, reg, xs), ys)
    decreases |xs|
  {
    if xs == [] {
      assert xs + ys == ys;
    } else {
      assert (xs + ys)[1..] == xs[1..] + ys;
      var digest := if xs[0].digests == [] then [] else xs[0].digests[0].digest;
      ReplayConcat(p, p.hash(reg + digest), xs[1..], ys);
    }
  }

  lemma {:induction false} ReplayOfTexts(p: Platform, r0: Bytes, texts: Texts)
    ensures Replay(p, r0, EntriesOf(p, texts)) == RegOf(p, r0, texts)
  {
    match texts
    case Nothing =>
    case Then(before, text) =>
      ReplayOfTexts(p, r0, before);
      ReplayConcat(p, r0, EntriesOf(p, before), [TextEntry(p, text)]);
      assert Replay(p, RegOf(p, r0, before), [TextEntry(p, text)]) ==
             Replay(p, Extended(p, RegOf(p, r0, before), text), []);
  }

  /** An entry as the agent logs one: in the platform's register, of type 6, with the digest of its data. */
  predicate IsAgentEntry(p: Platform, e: Tcg2EventEntry) {
    && e.targetRegister == p.register && e.eventType == 6 && |e.digests| == 1
    && e.digests[0].alg == p.alg && e.digests[0].digest == p.hash(e.data)
    && |e.data| >= 8 && e.data[..4] == [0x4c, 0x45, 0x41, 0x41] && FromLe(e.data[4..8]) == |e.data| - 8
  }

  lemma {:induction false} EntriesAreAgents(p: Platform, texts: Texts)
    requires AllFit(texts)
    ensures forall e <- EntriesOf(p, texts) :: IsAgentEntry(p, e)
  {
    match texts
    case Nothing =>
    case Then(before, text) =>
      EntriesAreAgents(p, before);
      TaggedReadsBack(text);
  }

  /** However the log is read as well-formed entries, replaying them gives the register. */
  lemma ReplayGivesRegister(p: Platform, r0: Bytes, s: State, texts: Texts, es: seq<Tcg2EventEntry>)
    requires p.Valid() && Consistent(p, r0, s, texts) && AllFit(texts)
    requires WfEntries(es) && PrintEntries(es) == s.log
    ensures Replay(p, r0, es) == s.reg
    ensures forall e <- es :: IsAgentEntry(p, e)
  {
    EntriesAreAgents(p, texts);
    LogIsPrintout(p, texts);
    EntriesWalkable(p, texts);
    PrintInjective(es, EntriesOf(p, texts));
    ReplayOfTexts(p, r0, texts);
  }

  /**
   * End to end: in a consistent state, trimming the evidence log leaves the firmware's part (or
   * the fixed header) and then the agent's log, untouched; and that log replays to the register.
   */
  lemma EvidenceReplays(p: Platform, r0: Bytes, s: State, texts: Texts, ccel: Option<Bytes>)
    requires p.Valid() && Consistent(p, r0, s, texts) && AllFit(texts)
    requires ccel.Some? ==> Trim(ccel.value).Success?
    ensures var front := if ccel.Some? then Trim(ccel.value).value else EL_HEADER;
            var log := Eventlog(ccel, Some(s.log));
            log.Success? && log.value.Some? && Trim(log.value.value) == Success(front + s.log)
    ensures exists es :: WfEntries(es) && PrintEntries(es) == s.log && Replay(p, r0, es) == s.reg
  {
    LogIsPrintout(p, texts);
    EntriesWalkable(p, texts);
    RetrimEventlog(ccel, EntriesOf(p, texts));
    ReplayOfTexts(p, r0, texts);
    assert WfEntries(EntriesOf(p, texts));
  }

  // ---------- over runs ----------

  /** Every call of a run has a text short enough. */
  predicate CallsFit(actions: seq<Action>) {
    forall a <- actions :: a.Call? ==> |Print(a.event)| + 8 < TWO_TO_THE_32
  }

  /** What is logged for calls that fit, fits: a shortened text all the more. */
  lemma {:induction false} LoggedTextsFit(p: Platform, texts: Texts, states: seq<State>, actions: seq<Action>,
                                          calls: set<nat>, i: nat)
    requires |states| == |actions| + 1 && i <= |actions| && CallsFit(actions)
    requires LogsCalls(p, texts, states, actions, calls, i)
    ensures AllFit(texts)
  {
    if i > 0 {
      var logged := i - 1 in calls && actions[i - 1].Call?;
      LoggedTextsFit(p, if logged then texts.before else texts, states, actions, calls, i - 1);
      assert actions[i - 1] in actions;
    }
  }

  /**
   * In every state of every run in which no record is left: however the log is read as well-formed
   * entries, replaying them from the register's first value gives the register, and every one of
   * them is of the agent's kind, in the platform's register.
   */
  lemma RunReplays(p: Platform, r0: Bytes, states: seq<State>, actions: seq<Action>, i: nat, es: seq<Tcg2EventEntry>)
    requires p.Valid() && IsRun(p, states, actions) && Initial(states[0], r0) && i <= |actions|
    requires CallsFit(actions) && states[i].wal.None?
    requires WfEntries(es) && PrintEntries(es) == states[i].log
    ensures Replay(p, r0, es) == states[i].reg
    ensures forall e <- es :: IsAgentEntry(p, e)
  {
    var texts := RunSafe(p, r0, states, actions, i);
    LoggedTextsFit(p, texts, states, actions, MeasuredCalls(states, actions, i), i);
    ReplayGivesRegister(p, r0, states[i], texts, es);
  }

  /**
   * End to end, in those states: trimming the evidence log leaves the firmware's part (or the fixed
   * header) and then the agent's log, untouched; that log can be read as well-formed entries, and
   * replaying them gives the register.
   */
  lemma RunEvidenceReplays(p: Platform, r0: Bytes, states: seq<State>, actions: seq<Action>, i: nat, ccel: Option<Bytes>)
    requires p.Valid() && IsRun(p, states, actions) && Initial(states[0], r0) && i <= |actions|
    requires CallsFit(actions) && states[i].wal.None? && (ccel.Some? ==> Trim(ccel.value).Success?)
    ensures var front := if ccel.Some? then Trim(ccel.value).value else EL_HEADER;
            var log := Eventlog(ccel, Some(states[i].log));
            log.Success? && log.value.Some? && Trim(log.value.value) == Success(front + states[i].log)
    ensures exists es :: WfEntries(es) && PrintEntries(es) == states[i].log && Replay(p, r0, es) == states[i].reg
  {
    var texts := RunSafe(p, r0, states, actions, i);
    LoggedTextsFit(p, texts, states, actions, MeasuredCalls(states, actions, i), i);
    EvidenceReplays(p, r0, states[i], texts, ccel);
  }
}
