/**
 * The event log and its write-ahead log as a machine whose steps are the effects that survive
 * a crash: one byte of a file, one extension of the register, one creation or deletion of a file.
 */
module EventLogMachine {
  import opened Results
  import opened ByteCodec
  import opened AaelEvent
  import opened Tcg2

  // ---------- state ----------

  /** What a call or a recovery keeps in memory: the serialized entry, its digest, its offset. */
  datatype Job = Job(entry: Bytes, digest: Bytes, pos: nat)

  function JobFor(p: Platform, text: Bytes, pos: nat): (job: Job)
    ensures |job.entry| > 0
  {
    Job(TextBytes(p, text), TextDigest(p, text), pos)
  }

  /** Where the agent process stands between two effects. */
  datatype Proc =
    | Down
    | Idle(pos: nat)
    | WalWrite(job: Job, record: Bytes, written: nat)
    | Extend(job: Job)
    | LogWrite(job: Job, written: nat)
    | RemoveWal(job: Job)

  /** Register, log file and write-ahead log outlive the process; `proc` does not. */
  datatype State = State(reg: Bytes, log: Bytes, wal: Option<Bytes>, proc: Proc)

  datatype Action = Call(event: Event) | Run | Crash | Restart | DeleteWal

  // ---------- the write-ahead log record ----------

  function WalRecord(offset: nat, expected: Bytes, text: Bytes): (r: Bytes)
    ensures |r| == 8 + |expected| + |text|
  {
    BeBytes(offset, 8) + expected + text
  }

  /** The bytes of a record: the offset as a big-endian 64-bit number, the expected value, the text. */
  lemma WalRecordLayout(offset: nat, expected: Bytes, text: Bytes)
    ensures var w, n := WalRecord(offset, expected, text), 8 + |expected|;
            && |w| == n + |text| && w[8..n] == expected && w[n..] == text
            && forall k :: 0 <= k < 8 ==> w[k] == offset / Pow256(7 - k) % 256
  {
    var w := WalRecord(offset, expected, text);
    forall k | 0 <= k < 8
      ensures w[k] == offset / Pow256(7 - k) % 256
    {
      BeDigit(offset, 8, 7 - k);
      assert w[k] == BeBytes(offset, 8)[k];
    }
  }

  datatype WalCache = WalCache(expected: Bytes, text: Bytes, offset: nat)

  datatype WalError = UnexpectedEof | InvalidUtf8

  function ReadWal(p: Platform, w: Bytes): Result<WalCache, WalError> {
    var n := p.alg.DigestLen();
    if |w| < 8 + n then Failure(UnexpectedEof)
    else if !ValidUtf8(w[8 + n..]) then Failure(InvalidUtf8)
    else Success(WalCache(w[8..8 + n], w[8 + n..], FromBe(w[..8])))
  }

  lemma ReadWalRecord(p: Platform, offset: nat, expected: Bytes, text: Bytes)
    requires offset < TWO_TO_THE_64 && |expected| == p.alg.DigestLen() && ValidUtf8(text)
    ensures ReadWal(p, WalRecord(offset, expected, text)) == Success(WalCache(expected, text, offset))
  {
    var w := WalRecord(offset, expected, text);
    assert w[..8] == BeBytes(offset, 8) && w[8..8 + |expected|] == expected && w[8 + |expected|..] == text;
    assert Pow256(8) == TWO_TO_THE_64;
    BeRoundTrip(offset, 8);
  }

  /** What a reader makes of a record that was cut short: at best, a shortened text. */
  lemma ReadTornRecord(p: Platform, offset: nat, expected: Bytes, text: Bytes, k: nat)
    requires offset < TWO_TO_THE_64 && |expected| == p.alg.DigestLen()
    requires k < |WalRecord(offset, expected, text)|
    ensures var w := WalRecord(offset, expected, text)[..k];
            ReadWal(p, w).Success? ==>
              var cut := ReadWal(p, w).value.text;
              |cut| < |text| && cut == text[..|cut|] && ValidUtf8(cut) &&
              ReadWal(p, w).value == WalCache(expected, cut, offset) && w == WalRecord(offset, expected, cut)
  {
    var w := WalRecord(offset, expected, text)[..k];
    if ReadWal(p, w).Success? {
      var cut := text[..k - 8 - |expected|];
      assert w == WalRecord(offset, expected, cut);
      ReadCut(p, offset, expected, cut);
    }
  }

  lemma ReadCut(p: Platform, offset: nat, expected: Bytes, cut: Bytes)
    requires offset < TWO_TO_THE_64 && |expected| == p.alg.DigestLen()
    requires ReadWal(p, WalRecord(offset, expected, cut)).Success?
    ensures ValidUtf8(cut) && ReadWal(p, WalRecord(offset, expected, cut)).value == WalCache(expected, cut, offset)
  {
    var w := WalRecord(offset, expected, cut);
    assert w[8 + |expected|..] == cut;
    ReadWalRecord(p, offset, expected, cut);
  }

  // ---------- steps ----------

  /** One byte written at an offset of a file; a gap before it reads as zeros. */
  function WriteAt(file: Bytes, i: nat, b: byte): (r: Bytes)
    ensures |r| == if i < |file| then |file| else i + 1
  {
    if i < |file| then file[i := b] else file + Zeros(i - |file|) + [b]
  }

  function Extended(p: Platform, reg: Bytes, text: Bytes): Bytes {
    p.hash(reg + TextDigest(p, text))
  }

  /** `extend_entry` up to and including the truncation of the write-ahead log. */
  function Begin(p: Platform, s: State, text: Bytes): State
    requires s.proc.Idle?
  {
    var record := WalRecord(s.proc.pos, Extended(p, s.reg, text), text);
    s.(wal := Some([]), proc := WalWrite(JobFor(p, text, s.proc.pos), record, 0))
  }

  predicate Running(s: State) {
    match s.proc
    case Down => false
    case Idle(_) => false
    case WalWrite(_, record, written) => written < |record| && s.wal.Some?
    case Extend(_) => true
    case LogWrite(job, written) => written < |job.entry|
    case RemoveWal(_) => true
  }

  /** The next effect of a running call or recovery. */
  function Step(p: Platform, s: State): State
    requires Running(s)
  {
    match s.proc
    case WalWrite(job, record, written) =>
      s.(wal := Some(s.wal.value + [record[written]]),
         proc := if written + 1 < |record| then WalWrite(job, record, written + 1) else Extend(job))
    case Extend(job) =>
      s.(reg := p.hash(s.reg + job.digest), proc := LogWrite(job, 0))
    case LogWrite(job, written) =>
      s.(log := WriteAt(s.log, job.pos + written, job.entry[written]),
         proc := if written + 1 < |job.entry| then LogWrite(job, written + 1) else RemoveWal(job))
    case RemoveWal(job) =>
      s.(wal := None, proc := Idle(job.pos + |job.entry|))
  }

  /** `new`: what recovery decides from the files and the register, before its first effect. */
  function Recover(p: Platform, s: State): Proc {
    if s.wal.None? then Idle(|s.log|)
    else
      match ReadWal(p, s.wal.value)
      case Failure(_) => Down
      case Success(cache) =>
        match ParseEvent(cache.text)
        case Failure(_) => Down
        case Success(event) =>
          var text := Print(event);
          var job := JobFor(p, text, cache.offset);
          if s.reg == cache.expected then LogWrite(job, 0)
          else if Extended(p, s.reg, text) != cache.expected then Down
          else Extend(job)
  }

  ghost predicate Next(p: Platform, s: State, a: Action, s': State) {
    match a
    case Call(event) => s.proc.Idle? && ValidEvent(event) && s' == Begin(p, s, Print(event))
    case Run => Running(s) && s' == Step(p, s)
    case Crash => s' == s.(proc := Down)
    case Restart => s.proc.Down? && s' == s.(proc := Recover(p, s))
    case DeleteWal => s.proc.Down? && s.wal.Some? && ReadWal(p, s.wal.value).Failure? && s' == s.(wal := None)
  }

  /** What is taken for granted of each call: the register moves, and offsets fit in 64 bits. */
  ghost predicate Assumed(p: Platform, s: State, a: Action) {
    a.Call? && s.proc.Idle? ==>
      Extended(p, s.reg, Print(a.event)) != s.reg && s.proc.pos < TWO_TO_THE_64
  }

  // ---------- what the log should be ----------

  /** The committed texts, oldest innermost. */
  datatype Texts = Nothing | Then(before: Texts, text: Bytes)

  /** The log of the committed texts, and the register after them. */
  function LogOf(p: Platform, texts: Texts): Bytes {
    match texts
    case Nothing => []
    case Then(before, text) => LogOf(p, before) + TextBytes(p, text)
  }

  function RegOf(p: Platform, r0: Bytes, texts: Texts): Bytes {
    match texts
    case Nothing => r0
    case Then(before, text) => Extended(p, RegOf(p, r0, before), text)
  }

  // ---------- the invariant ----------

  /** What is in flight: nothing, a record being written, a record alone, a record and the register. */
  datatype Phase = Clean | Torn(text: Bytes) | Ready(text: Bytes) | Measured(text: Bytes, before: Texts)

  datatype History = History(committed: Texts, phase: Phase)

  ghost predicate Consistent(p: Platform, r0: Bytes, s: State, texts: Texts) {
    s.log == LogOf(p, texts) && s.reg == RegOf(p, r0, texts)
  }

  ghost predicate TornOk(p: Platform, s: State, text: Bytes) {
    var record := WalRecord(|s.log|, Extended(p, s.reg, text), text);
    && s.wal.Some? && |s.wal.value| < |record| && s.wal.value == record[..|s.wal.value|]
    && |s.log| < TWO_TO_THE_64 && Extended(p, s.reg, text) != s.reg && ValidUtf8(text)
    && (s.proc.Down? || s.proc == WalWrite(JobFor(p, text, |s.log|), record, |s.wal.value|))
  }

  ghost predicate ReadyOk(p: Platform, s: State, text: Bytes) {
    && s.wal == Some(WalRecord(|s.log|, Extended(p, s.reg, text), text))
    && |s.log| < TWO_TO_THE_64 && Extended(p, s.reg, text) != s.reg && ValidUtf8(text)
    && (s.proc.Down? || s.proc == Extend(JobFor(p, text, |s.log|)))
  }

  /** The register is ahead of the log, which is being completed. */
  ghost predicate MeasuredOk(p: Platform, s: State, base: Bytes, text: Bytes) {
    && s.wal == Some(WalRecord(|base|, s.reg, text))
    && |base| < TWO_TO_THE_64 && ValidUtf8(text)
    && Completing(s, base, TextBytes(p, text))
  }

  /**
   * Past the recorded offset the log may hold anything, up to one entry's length; a writing
   * process has already put `written` correct bytes there.
   */
  ghost predicate Completing(s: State, base: Bytes, entry: Bytes) {
    && |base| <= |s.log| <= |base| + |entry| && s.log[..|base|] == base
    && match s.proc
       case Down => true
       case LogWrite(job, written) =>
         job == Job(entry, job.digest, |base|) && written < |entry| && |base| + written <= |s.log| &&
         s.log[..|base| + written] == base + entry[..written]
       case RemoveWal(job) => job == Job(entry, job.digest, |base|) && s.log == base + entry
       case _ => false
  }

  ghost predicate Inv(p: Platform, r0: Bytes, s: State, h: History) {
    match h.phase
    case Clean =>
      s.wal.None? && Consistent(p, r0, s, h.committed) && (s.proc.Down? || s.proc == Idle(|s.log|))
    case Torn(text) =>
      Consistent(p, r0, s, h.committed) && TornOk(p, s, text)
    case Ready(text) =>
      Consistent(p, r0, s, h.committed) && ReadyOk(p, s, text)
    case Measured(text, before) =>
      && h.committed == Then(before, text)
      && s.reg == RegOf(p, r0, h.committed) && s.reg != RegOf(p, r0, before)
      && MeasuredOk(p, s, LogOf(p, before), text)
  }

  /** How the history moves with a step. A text is committed when the register takes it in. */
  function Advance(p: Platform, s: State, a: Action, h: History): History {
    match a
    case Call(event) => h.(phase := Torn(Print(event)))
    case Run =>
      (match (s.proc, h.phase)
       case (WalWrite(_, record, written), Torn(text)) =>
         if written + 1 < |record| then h else h.(phase := Ready(text))
       case (Extend(_), Ready(text)) => History(Then(h.committed, text), Measured(text, h.committed))
       case (RemoveWal(_), _) => h.(phase := Clean)
       case _ => h)
    case Crash => h
    case Restart =>
      if Recover(p, s).Extend? && s.wal.Some? && ReadWal(p, s.wal.value).Success?
      then h.(phase := Ready(ReadWal(p, s.wal.value).value.text))
      else h
    case DeleteWal => h.(phase := Clean)
  }

  lemma StepWal(p: Platform, r0: Bytes, s: State, h: History)
    requires Inv(p, r0, s, h) && Running(s) && s.proc.WalWrite?
    ensures Inv(p, r0, Step(p, s), Advance(p, s, Run, h))
  {
    assert h.phase.Torn?;
    NextByte(s.proc.record, s.proc.written);
  }

  lemma NextByte(record: Bytes, k: nat)
    requires k < |record|
    ensures record[..k] + [record[k]] == record[..k + 1]
    ensures k + 1 == |record| ==> record[..k + 1] == record
  {
  }

  lemma StepExtend(p: Platform, r0: Bytes, s: State, h: History)
    requires Inv(p, r0, s, h) && s.proc.Extend?
    ensures Inv(p, r0, Step(p, s), Advance(p, s, Run, h))
  {
    assert s.log[..|s.log|] == s.log;
    NothingWritten(s.log, s.proc.job.entry);
  }

  lemma StepLog(p: Platform, r0: Bytes, s: State, h: History)
    requires Inv(p, r0, s, h) && Running(s) && s.proc.LogWrite?
    ensures Inv(p, r0, Step(p, s), Advance(p, s, Run, h))
  {
    assert h.phase.Measured?;
    StepMeasured(p, s, LogOf(p, h.phase.before), h.phase.text);
  }

  lemma StepMeasured(p: Platform, s: State, base: Bytes, text: Bytes)
    requires MeasuredOk(p, s, base, text) && Running(s) && s.proc.LogWrite?
    ensures MeasuredOk(p, Step(p, s), base, text)
  {
    StepCompleting(p, s, base, TextBytes(p, text));
  }

  lemma StepCompleting(p: Platform, s: State, base: Bytes, entry: Bytes)
    requires Completing(s, base, entry) && Running(s) && s.proc.LogWrite?
    ensures Completing(Step(p, s), base, entry)
  {
    WriteKeepsFront(s, base, entry, s.proc.written);
  }

  /** Writing the next byte of an entry over whatever followed the offset. */
  lemma WriteKeepsFront(s: State, base: Bytes, entry: Bytes, k: nat)
    requires k < |entry| && |base| + k <= |s.log| <= |base| + |entry| && s.log[..|base| + k] == base + entry[..k]
    ensures var log' := WriteAt(s.log, |base| + k, entry[k]);
            && |base| + k + 1 <= |log'| <= |base| + |entry|
            && log'[..|base| + k + 1] == base + entry[..k + 1] && log'[..|base|] == base
            && (k + 1 == |entry| ==> log' == base + entry)
  {
    var i := |base| + k;
    var log' := WriteAt(s.log, i, entry[k]);
    assert Zeros(0) == [] && s.log + [] == s.log;
    assert log'[..i] == s.log[..i] && log'[i] == entry[k];
    assert log'[..i + 1] == log'[..i] + [entry[k]];
    assert entry[..k + 1] == entry[..k] + [entry[k]];
    assert base + entry[..k] + [entry[k]] == base + (entry[..k] + [entry[k]]);
    assert log'[..|base|] == log'[..i + 1][..|base|];
    if k + 1 == |entry| {
      assert entry[..k + 1] == entry && log'[..i + 1] == log';
    }
  }

  lemma StepRemove(p: Platform, r0: Bytes, s: State, h: History)
    requires Inv(p, r0, s, h) && s.proc.RemoveWal?
    ensures Inv(p, r0, Step(p, s), Advance(p, s, Run, h))
  {
    assert h.phase.Measured?;
  }

  lemma StepCall(p: Platform, r0: Bytes, s: State, h: History, event: Event)
    requires Inv(p, r0, s, h) && s.proc.Idle? && ValidEvent(event) && Assumed(p, s, Call(event))
    ensures Inv(p, r0, Begin(p, s, Print(event)), Advance(p, s, Call(event), h))
  {
    PrintIsUtf8(event);
  }

  /** A complete record reads back, so a record that cannot be read was cut short. */
  lemma CompleteReads(p: Platform, r0: Bytes, s: State, h: History)
    requires p.Valid() && Inv(p, r0, s, h) && (h.phase.Ready? || h.phase.Measured?)
    ensures s.wal.Some? && ReadWal(p, s.wal.value).Success?
    ensures ReadWal(p, s.wal.value).value.text == h.phase.text
    ensures h.phase.Ready? ==>
              ReadWal(p, s.wal.value).value == WalCache(Extended(p, s.reg, h.phase.text), h.phase.text, |s.log|)
    ensures h.phase.Measured? ==>
              ReadWal(p, s.wal.value).value == WalCache(s.reg, h.phase.text, |LogOf(p, h.phase.before)|)
  {
    if h.phase.Ready? {
      ReadWalRecord(p, |s.log|, Extended(p, s.reg, h.phase.text), h.phase.text);
    } else {
      ReadWalRecord(p, |LogOf(p, h.phase.before)|, s.reg, h.phase.text);
    }
  }

  /** Recovery's decision, once the record has been read. */
  lemma RecoverReads(p: Platform, s: State, cache: WalCache)
    requires s.wal.Some? && ReadWal(p, s.wal.value) == Success(cache)
    ensures Recover(p, s) ==
            if ParseEvent(cache.text).Failure? then Down
            else if s.reg == cache.expected then LogWrite(JobFor(p, cache.text, cache.offset), 0)
            else if Extended(p, s.reg, cache.text) != cache.expected then Down
            else Extend(JobFor(p, cache.text, cache.offset))
  {
    if ParseEvent(cache.text).Success? {
      PrintParsed(cache.text);
    }
  }

  lemma RestartTorn(p: Platform, r0: Bytes, s: State, h: History)
    requires p.Valid() && Inv(p, r0, s, h) && h.phase.Torn? && s.proc.Down?
    ensures Inv(p, r0, s.(proc := Recover(p, s)), Advance(p, s, Restart, h))
    ensures Recover(p, s).Down? || Recover(p, s).Extend?
  {
    var text := h.phase.text;
    ReadTornRecord(p, |s.log|, Extended(p, s.reg, text), text, |s.wal.value|);
    if ReadWal(p, s.wal.value).Success? {
      RecoverReads(p, s, ReadWal(p, s.wal.value).value);
    }
  }

  /** What recovery does with a complete record: it finishes what the record announces. */
  function Resume(p: Platform, s: State, phase: Phase): Proc
    requires phase.Ready? || phase.Measured?
  {
    if ParseEvent(phase.text).Failure? then Down
    else if phase.Ready? then Extend(JobFor(p, phase.text, |s.log|))
    else LogWrite(JobFor(p, phase.text, |LogOf(p, phase.before)|), 0)
  }

  lemma RecoverComplete(p: Platform, r0: Bytes, s: State, h: History)
    requires p.Valid() && Inv(p, r0, s, h) && (h.phase.Ready? || h.phase.Measured?)
    ensures Recover(p, s) == Resume(p, s, h.phase)
  {
    CompleteReads(p, r0, s, h);
    RecoverReads(p, s, ReadWal(p, s.wal.value).value);
  }

  lemma ResumeKeepsInv(p: Platform, r0: Bytes, s: State, h: History)
    requires Inv(p, r0, s, h) && (h.phase.Ready? || h.phase.Measured?)
    ensures Inv(p, r0, s.(proc := Resume(p, s, h.phase)), h)
  {
    if h.phase.Measured? {
      NothingWritten(LogOf(p, h.phase.before), TextBytes(p, h.phase.text));
    }
  }

  lemma RestartComplete(p: Platform, r0: Bytes, s: State, h: History)
    requires p.Valid() && Inv(p, r0, s, h) && (h.phase.Ready? || h.phase.Measured?)
    ensures Inv(p, r0, s.(proc := Recover(p, s)), h) && Advance(p, s, Restart, h) == h
  {
    RecoverComplete(p, r0, s, h);
    ResumeKeepsInv(p, r0, s, h);
  }

  lemma NothingWritten(base: Bytes, entry: Bytes)
    ensures base + entry[..0] == base
  {
  }

  lemma StepDelete(p: Platform, r0: Bytes, s: State, h: History)
    requires p.Valid() && Inv(p, r0, s, h) && s.wal.Some? && ReadWal(p, s.wal.value).Failure? && s.proc.Down?
    ensures Inv(p, r0, s.(wal := None), h.(phase := Clean))
  {
    if h.phase.Ready? || h.phase.Measured? {
      CompleteReads(p, r0, s, h);
    }
  }

  lemma NextKeepsInv(p: Platform, r0: Bytes, s: State, a: Action, s': State, h: History)
    requires p.Valid() && Inv(p, r0, s, h) && Next(p, s, a, s') && Assumed(p, s, a)
    ensures Inv(p, r0, s', Advance(p, s, a, h))
  {
    match a
    case Call(event) => StepCall(p, r0, s, h, event);
    case Run =>
      match s.proc {
        case WalWrite(_, _, _) => StepWal(p, r0, s, h);
        case Extend(_) => StepExtend(p, r0, s, h);
        case LogWrite(_, _) => StepLog(p, r0, s, h);
        case RemoveWal(_) => StepRemove(p, r0, s, h);
      }
    case Crash =>
    case Restart =>
      match h.phase {
        case Clean =>
        case Torn(_) => RestartTorn(p, r0, s, h);
        case Ready(_) => RestartComplete(p, r0, s, h);
        case Measured(_, _) => RestartComplete(p, r0, s, h);
      }
    case DeleteWal => StepDelete(p, r0, s, h);
  }

  // ---------- whole runs ----------

  ghost predicate IsRun(p: Platform, states: seq<State>, actions: seq<Action>) {
    && |states| == |actions| + 1
    && forall i :: 0 <= i < |actions| ==> Allowed(p, states[i], actions[i], states[i + 1])
  }

  ghost predicate Allowed(p: Platform, s: State, a: Action, s': State) {
    Next(p, s, a, s') && Assumed(p, s, a)
  }

  lemma StepOfRun(p: Platform, states: seq<State>, actions: seq<Action>, i: nat)
    requires IsRun(p, states, actions) && 0 < i <= |actions|
    ensures Allowed(p, states[i - 1], actions[i - 1], states[i])
  {
    assert Allowed(p, states[i - 1], actions[i - 1], states[i - 1 + 1]);
  }

  ghost predicate Initial(s: State, r0: Bytes) {
    s == State(r0, [], None, Down)
  }

  /** The history at each point of a run. */
  ghost function HistoryAt(p: Platform, states: seq<State>, actions: seq<Action>, h: History, i: nat): History
    requires |states| == |actions| + 1 && i <= |actions|
  {
    if i == 0 then h else Advance(p, states[i - 1], actions[i - 1], HistoryAt(p, states, actions, h, i - 1))
  }

  lemma {:induction false} RunKeepsInv(p: Platform, r0: Bytes, states: seq<State>, actions: seq<Action>, h: History, i: nat)
    requires p.Valid() && IsRun(p, states, actions) && i <= |actions| && Inv(p, r0, states[0], h)
    ensures Inv(p, r0, states[i], HistoryAt(p, states, actions, h, i))
  {
    hide Inv;
    if i > 0 {
      RunKeepsInv(p, r0, states, actions, h, i - 1);
      InvAfter(p, r0, states, actions, h, i);
    }
  }

  lemma InvAfter(p: Platform, r0: Bytes, states: seq<State>, actions: seq<Action>, h: History, i: nat)
    requires p.Valid() && IsRun(p, states, actions) && 0 < i <= |actions|
    requires Inv(p, r0, states[i - 1], HistoryAt(p, states, actions, h, i - 1))
    ensures Inv(p, r0, states[i], HistoryAt(p, states, actions, h, i))
  {
    StepOfRun(p, states, actions, i);
    NextKeepsInv(p, r0, states[i - 1], actions[i - 1], states[i], HistoryAt(p, states, actions, h, i - 1));
  }

  /** Deleting a record that cannot be read restores the invariant, in every reachable state. */
  lemma DeletionSafe(p: Platform, r0: Bytes, states: seq<State>, actions: seq<Action>, i: nat)
    requires p.Valid() && IsRun(p, states, actions) && Initial(states[0], r0) && i <= |actions|
    requires states[i].proc.Down? && states[i].wal.Some? && ReadWal(p, states[i].wal.value).Failure?
    ensures exists texts :: Consistent(p, r0, states[i].(wal := None), texts)
  {
    var h := HistoryAt(p, states, actions, History(Nothing, Clean), i);
    RunKeepsInv(p, r0, states, actions, History(Nothing, Clean), i);
    StepDelete(p, r0, states[i], h);
    assert Consistent(p, r0, states[i].(wal := None), h.committed);
  }

  /** No shortened text of the same event leads to the same register value. */
  ghost predicate NoCollision(p: Platform, reg: Bytes, text: Bytes) {
    forall k :: 0 <= k < |text| ==> Extended(p, reg, text[..k]) != Extended(p, reg, text)
  }

  /** A crash while the record was being written is harmless: recovery changes nothing. */
  lemma TornHarmless(p: Platform, r0: Bytes, s: State, h: History)
    requires p.Valid() && Inv(p, r0, s, h) && h.phase.Torn? && s.proc.Down? && NoCollision(p, s.reg, h.phase.text)
    ensures s.(proc := Recover(p, s)) == s
  {
    var text := h.phase.text;
    ReadTornRecord(p, |s.log|, Extended(p, s.reg, text), text, |s.wal.value|);
    if ReadWal(p, s.wal.value).Success? {
      RecoverReads(p, s, ReadWal(p, s.wal.value).value);
    }
  }

  // ---------- one call, all or nothing ----------

  /** The histories a single call of `text` on top of `before` can be in. */
  predicate OneCall(before: Texts, text: Bytes, h: History) {
    || h == History(before, Torn(text)) || h == History(before, Ready(text)) || h == History(before, Clean)
    || h == History(Then(before, text), Measured(text, before)) || h == History(Then(before, text), Clean)
  }

  lemma OneCallStep(p: Platform, r0: Bytes, s: State, a: Action, s': State, h: History, before: Texts, text: Bytes)
    requires p.Valid() && Inv(p, r0, s, h) && Next(p, s, a, s') && !a.Call? && OneCall(before, text, h)
    requires NoCollision(p, RegOf(p, r0, before), text)
    ensures OneCall(before, text, Advance(p, s, a, h))
    ensures a.Run? && s'.proc.Idle? ==> Advance(p, s, a, h) == History(Then(before, text), Clean)
  {
    hide Inv;
    match a
    case Run => OneCallRun(p, r0, s, h, before, text);
    case Crash =>
    case Restart =>
      match h.phase {
        case Clean => NoRecordWhenClean(p, r0, s, h);
        case Torn(_) => OneCallTorn(p, r0, s, h, before, text);
        case Ready(_) => RestartComplete(p, r0, s, h);
        case Measured(_, _) => RestartComplete(p, r0, s, h);
      }
    case DeleteWal => StepDelete(p, r0, s, h);
      if h.phase.Ready? || h.phase.Measured? {
        CompleteReads(p, r0, s, h);
      }
  }

  lemma NoRecordWhenClean(p: Platform, r0: Bytes, s: State, h: History)
    requires Inv(p, r0, s, h) && h.phase.Clean?
    ensures s.wal.None?
  {
  }

  lemma OneCallTorn(p: Platform, r0: Bytes, s: State, h: History, before: Texts, text: Bytes)
    requires p.Valid() && Inv(p, r0, s, h) && h == History(before, Torn(text)) && s.proc.Down?
    requires NoCollision(p, RegOf(p, r0, before), text)
    ensures s.(proc := Recover(p, s)) == s && Advance(p, s, Restart, h) == h
  {
    TornHarmless(p, r0, s, h);
  }

  lemma OneCallRun(p: Platform, r0: Bytes, s: State, h: History, before: Texts, text: Bytes)
    requires Inv(p, r0, s, h) && Running(s) && OneCall(before, text, h)
    ensures OneCall(before, text, Advance(p, s, Run, h))
    ensures Step(p, s).proc.Idle? ==> Advance(p, s, Run, h) == History(Then(before, text), Clean)
  {
  }

  /**
   * Atomicity of one `extend_entry`, whatever crashes, restarts and deletions follow it: a state
   * without a record holds either exactly what was there before or that plus this one event, and
   * it is the latter when the process itself got to the end.
   */
  lemma CallAtomic(p: Platform, r0: Bytes, states: seq<State>, actions: seq<Action>, before: Texts, event: Event, i: nat)
    requires p.Valid() && IsRun(p, states, actions) && Inv(p, r0, states[0], History(before, Clean))
    requires 1 <= i <= |actions| && actions[0] == Call(event)
    requires forall j :: 1 <= j < |actions| ==> !actions[j].Call?
    requires NoCollision(p, RegOf(p, r0, before), Print(event))
    ensures states[i].reg == RegOf(p, r0, before) || states[i].reg == RegOf(p, r0, Then(before, Print(event)))
    ensures states[i].wal.None? ==>
              Consistent(p, r0, states[i], before) || Consistent(p, r0, states[i], Then(before, Print(event)))
    ensures actions[i - 1].Run? && states[i].proc.Idle? ==>
              states[i].wal.None? && Consistent(p, r0, states[i], Then(before, Print(event)))
  {
    var h := HistoryAt(p, states, actions, History(before, Clean), i);
    RunKeepsInv(p, r0, states, actions, History(before, Clean), i);
    CallHistory(p, r0, states, actions, before, event, i);
  }

  lemma {:induction false} CallHistory(p: Platform, r0: Bytes, states: seq<State>, actions: seq<Action>, before: Texts, event: Event, i: nat)
    requires p.Valid() && IsRun(p, states, actions) && Inv(p, r0, states[0], History(before, Clean))
    requires 1 <= i <= |actions| && actions[0] == Call(event)
    requires forall j :: 1 <= j < |actions| ==> !actions[j].Call?
    requires NoCollision(p, RegOf(p, r0, before), Print(event))
    ensures OneCall(before, Print(event), HistoryAt(p, states, actions, History(before, Clean), i))
    ensures actions[i - 1].Run? && states[i].proc.Idle? ==>
              HistoryAt(p, states, actions, History(before, Clean), i) == History(Then(before, Print(event)), Clean)
  {
    var start := History(before, Clean);
    if i == 1 {
      assert HistoryAt(p, states, actions, start, 0) == start;
    } else {
      CallHistory(p, r0, states, actions, before, event, i - 1);
      RunKeepsInv(p, r0, states, actions, start, i - 1);
      StepOfRun(p, states, actions, i);
      OneCallStep(p, r0, states[i - 1], actions[i - 1], states[i], HistoryAt(p, states, actions, start, i - 1),
                  before, Print(event));
    }
  }

  // ---------- running to the end ----------

  function Remaining(s: State): nat {
    match s.proc
    case Down => 0
    case Idle(_) => 0
    case WalWrite(job, record, written) =>
      (if written < |record| then |record| - written else 0) + |job.entry| + 2
    case Extend(job) => |job.entry| + 2
    case LogWrite(job, written) =>
      (if written < |job.entry| then |job.entry| - written else 0) + 1
    case RemoveWal(_) => 1
  }

  /** The state in which the process, left alone, stops. */
  function Finish(p: Platform, s: State): State
    decreases Remaining(s)
  {
    if Running(s) then Finish(p, Step(p, s)) else s
  }

  /** The quiet state after a list of texts. */
  function Done(p: Platform, r0: Bytes, texts: Texts): State {
    State(RegOf(p, r0, texts), LogOf(p, texts), None, Idle(|LogOf(p, texts)|))
  }

  /** The list the process is working towards. */
  function Target(h: History): Texts {
    match h.phase
    case Torn(text) => Then(h.committed, text)
    case Ready(text) => Then(h.committed, text)
    case _ => h.committed
  }

  lemma {:induction false} FinishReaches(p: Platform, r0: Bytes, s: State, h: History)
    requires p.Valid() && Inv(p, r0, s, h) && !s.proc.Down?
    ensures Finish(p, s) == Done(p, r0, Target(h))
    decreases Remaining(s)
  {
    hide Inv;
    if s.proc.Idle? {
      IdleIsDone(p, r0, s, h);
    } else {
      StepTowards(p, r0, s, h);
      FinishReaches(p, r0, Step(p, s), Advance(p, s, Run, h));
    }
  }

  lemma IdleIsDone(p: Platform, r0: Bytes, s: State, h: History)
    requires Inv(p, r0, s, h) && s.proc.Idle?
    ensures s == Done(p, r0, Target(h))
  {
  }

  lemma StepTowards(p: Platform, r0: Bytes, s: State, h: History)
    requires p.Valid() && Inv(p, r0, s, h) && !s.proc.Down? && !s.proc.Idle?
    ensures Running(s) && !Step(p, s).proc.Down? && Remaining(Step(p, s)) < Remaining(s)
    ensures Inv(p, r0, Step(p, s), Advance(p, s, Run, h)) && Target(Advance(p, s, Run, h)) == Target(h)
  {
    hide Inv;
    PhaseOfProc(p, r0, s, h);
    NextKeepsInv(p, r0, s, Run, Step(p, s), h);
  }

  lemma PhaseOfProc(p: Platform, r0: Bytes, s: State, h: History)
    requires Inv(p, r0, s, h) && !s.proc.Down? && !s.proc.Idle?
    ensures Running(s)
    ensures match s.proc
            case WalWrite(_, record, written) => h.phase.Torn?
            case Extend(_) => h.phase.Ready?
            case _ => h.phase.Measured?
  {
  }

  /** What a state leads to: on its own, or through `new` if the process is down. */
  function Resumed(p: Platform, s: State): State {
    Finish(p, if s.proc.Down? then s.(proc := Recover(p, s)) else s)
  }

  /**
   * A call without a crash, from the quiet state after `before`: the log gains the serialized event,
   * the register takes in its digest, and no record is left.
   */
  lemma UninterruptedCall(p: Platform, r0: Bytes, before: Texts, event: Event)
    requires p.Valid() && ValidEvent(event) && Assumed(p, Done(p, r0, before), Call(event))
    ensures Finish(p, Begin(p, Done(p, r0, before), Print(event))) == Done(p, r0, Then(before, Print(event)))
    ensures var s, (entry, digest) := Done(p, r0, before), SerializeEvent(p, event);
            var log := s.log + entry;
            Finish(p, Begin(p, s, Print(event))) == State(p.hash(s.reg + digest), log, None, Idle(|log|))
  {
    SerializeUsesTextOnly(p, event);
    var s := Done(p, r0, before);
    StepCall(p, r0, s, History(before, Clean), event);
    FinishReaches(p, r0, Begin(p, s, Print(event)), History(before, Torn(Print(event))));
  }

  /** No new call, no deletion: the process runs, crashes and restarts. */
  predicate OnlyRecovers(actions: seq<Action>) {
    forall j :: 0 <= j < |actions| ==> Recovers(actions[j])
  }

  predicate Recovers(a: Action) {
    a.Run? || a.Crash? || a.Restart?
  }

  /** A complete record for `text` on top of `before`; past the offset the log may hold anything. */
  ghost predicate CompleteFor(h: History, before: Texts, text: Bytes) {
    h == History(before, Ready(text)) || h == History(Then(before, text), Measured(text, before))
  }

  /**
   * Exactly-once recovery. From a complete record whose text reads back, however often recovery
   * is itself interrupted, finishing it ends in the one state an uninterrupted call ends in.
   */
  lemma RecoveryExactlyOnce(p: Platform, r0: Bytes, states: seq<State>, actions: seq<Action>, h: History,
                            before: Texts, text: Bytes, i: nat)
    requires p.Valid() && IsRun(p, states, actions) && Inv(p, r0, states[0], h) && i <= |actions|
    requires CompleteFor(h, before, text) && ParseEvent(text).Success?
    requires OnlyRecovers(actions)
    ensures Resumed(p, states[i]) == Done(p, r0, Then(before, text))
  {
    hide Inv, Next, Resumed;
    RunKeepsInv(p, r0, states, actions, h, i);
    RecoveryHistory(p, r0, states, actions, h, before, text, i);
    ResumedReaches(p, r0, states[i], HistoryAt(p, states, actions, h, i));
  }

  lemma ResumedReaches(p: Platform, r0: Bytes, s: State, h: History)
    requires p.Valid() && Inv(p, r0, s, h) && !h.phase.Torn?
    requires h.phase.Ready? || h.phase.Measured? ==> ParseEvent(h.phase.text).Success?
    ensures Resumed(p, s) == Done(p, r0, Target(h))
  {
    if s.proc.Down? {
      if !h.phase.Clean? {
        RecoverComplete(p, r0, s, h);
        ResumeKeepsInv(p, r0, s, h);
      }
      FinishReaches(p, r0, s.(proc := Recover(p, s)), h);
    } else {
      FinishReaches(p, r0, s, h);
    }
  }

  lemma {:induction false} RecoveryHistory(p: Platform, r0: Bytes, states: seq<State>, actions: seq<Action>, h: History,
                                           before: Texts, text: Bytes, i: nat)
    requires p.Valid() && IsRun(p, states, actions) && Inv(p, r0, states[0], h) && i <= |actions|
    requires CompleteFor(h, before, text)
    requires OnlyRecovers(actions)
    ensures RecoveringFor(HistoryAt(p, states, actions, h, i), before, text)
  {
    hide Inv, Next, Advance, RecoveringFor;
    if i == 0 {
      RecoveryBegins(h, before, text);
    } else {
      RecoveryHistory(p, r0, states, actions, h, before, text, i - 1);
      RecoveryAt(p, r0, states, actions, h, before, text, i - 1);
    }
  }

  lemma RecoveryAt(p: Platform, r0: Bytes, states: seq<State>, actions: seq<Action>, h: History,
                   before: Texts, text: Bytes, i: nat)
    requires p.Valid() && IsRun(p, states, actions) && Inv(p, r0, states[0], h) && i < |actions|
    requires OnlyRecovers(actions) && RecoveringFor(HistoryAt(p, states, actions, h, i), before, text)
    ensures RecoveringFor(HistoryAt(p, states, actions, h, i + 1), before, text)
  {
    RunKeepsInv(p, r0, states, actions, h, i);
    StepOfRun(p, states, actions, i + 1);
    assert Recovers(actions[i]);
    RecoveryStep(p, r0, states[i], actions[i], states[i + 1], HistoryAt(p, states, actions, h, i), before, text);
  }

  lemma RecoveryBegins(h: History, before: Texts, text: Bytes)
    requires CompleteFor(h, before, text)
    ensures RecoveringFor(h, before, text)
  {
  }

  ghost predicate RecoveringFor(h: History, before: Texts, text: Bytes) {
    CompleteFor(h, before, text) || h == History(Then(before, text), Clean)
  }

  lemma RecoveryStep(p: Platform, r0: Bytes, s: State, a: Action, s': State, h: History, before: Texts, text: Bytes)
    requires p.Valid() && Inv(p, r0, s, h) && Next(p, s, a, s') && Recovers(a)
    requires RecoveringFor(h, before, text)
    ensures RecoveringFor(Advance(p, s, a, h), before, text)
  {
    if a.Restart? && !h.phase.Clean? {
      RestartComplete(p, r0, s, h);
    }
  }

  /** Recovery gets under way from a complete record exactly when its text reads back. */
  lemma RecoveryStartsIff(p: Platform, r0: Bytes, s: State, h: History, event: Event)
    requires p.Valid() && Inv(p, r0, s, h) && s.proc.Down? && (h.phase.Ready? || h.phase.Measured?)
    requires h.phase.text == Print(event) && ValidEvent(event)
    ensures !Recover(p, s).Down? <==> Reparses(event)
  {
    RecoverComplete(p, r0, s, h);
    ReparseIff(event);
  }

  // ---------- why the register has to move ----------

  lemma {:induction false} FinishMeasured(p: Platform, s: State, base: Bytes, text: Bytes)
    requires MeasuredOk(p, s, base, text) && !s.proc.Down?
    ensures var log := base + TextBytes(p, text);
            Finish(p, s) == State(s.reg, log, None, Idle(|log|))
    decreases Remaining(s)
  {
    assert Running(s);
    if s.proc.LogWrite? {
      StepMeasured(p, s, base, text);
      FinishMeasured(p, Step(p, s), base, text);
    }
  }

  /** So many steps of a process left alone. */
  function Steps(p: Platform, s: State, n: nat): State
    decreases n
  {
    if n == 0 || !Running(s) then s else Steps(p, Step(p, s), n - 1)
  }

  /** The record after `n` more of its bytes, short of the last. */
  lemma {:induction false} WalSteps(p: Platform, s: State, n: nat)
    requires s.proc.WalWrite? && s.proc.written + n < |s.proc.record|
    requires s.wal == Some(s.proc.record[..s.proc.written])
    ensures var k := s.proc.written + n;
            Steps(p, s, n) == s.(wal := Some(s.proc.record[..k]), proc := WalWrite(s.proc.job, s.proc.record, k))
    decreases n
  {
    if n > 0 {
      NextByte(s.proc.record, s.proc.written);
      WalSteps(p, Step(p, s), n - 1);
    }
  }

  /** What a crash leaves `n` steps into a call. */
  function CrashedCall(p: Platform, s: State, event: Event, n: nat): State
    requires s.proc.Idle?
  {
    Steps(p, Begin(p, s, Print(event)), n).(proc := Down)
  }

  /** With `n` bytes of the text written, the record is that of the text cut to these bytes. */
  lemma CrashedRecord(p: Platform, s: State, event: Event, n: nat)
    requires s.proc.Idle? && |Extended(p, s.reg, Print(event))| == p.alg.DigestLen() && n < |Print(event)|
    ensures CrashedCall(p, s, event, 8 + p.alg.DigestLen() + n) ==
            s.(wal := Some(WalRecord(s.proc.pos, Extended(p, s.reg, Print(event)), Print(event)[..n])), proc := Down)
  {
    var text, k := Print(event), 8 + p.alg.DigestLen() + n;
    var expected := Extended(p, s.reg, text);
    var begun := Begin(p, s, text);
    assert begun.proc.record[..0] == [];
    WalSteps(p, begun, k);
    assert WalRecord(s.proc.pos, expected, text)[..k] == WalRecord(s.proc.pos, expected, text[..n]);
  }

  /**
   * If extending with an event leaves the register as it was, a crash in its call, with `n` bytes
   * of the text written, makes recovery log the text cut to these bytes, without measuring it. Log
   * and register then agree only if the shortened text does not move the register either.
   */
  lemma RegisterMustMove(p: Platform, r0: Bytes, before: Texts, event: Event, n: nat)
    requires p.Valid() && ValidEvent(event) && |LogOf(p, before)| < TWO_TO_THE_64
    requires Extended(p, RegOf(p, r0, before), Print(event)) == RegOf(p, r0, before)
    requires n < |Print(event)| && ValidUtf8(Print(event)[..n]) && ParseEvent(Print(event)[..n]).Success?
    ensures var cut := Print(event)[..n];
            var s := Resumed(p, CrashedCall(p, Done(p, r0, before), event, 8 + p.alg.DigestLen() + n));
            && s.wal.None? && s.log == LogOf(p, Then(before, cut)) && s.reg == RegOf(p, r0, before)
            && (Consistent(p, r0, s, Then(before, cut)) <==> Extended(p, s.reg, cut) == s.reg)
  {
    var done, cut := Done(p, r0, before), Print(event)[..n];
    CrashedRecord(p, done, event, n);
    ResumedUnmeasured(p, done.(wal := Some(WalRecord(|done.log|, done.reg, cut)), proc := Down), cut);
  }

  /** A record that expects the present register is logged and not measured. */
  lemma ResumedUnmeasured(p: Platform, s: State, text: Bytes)
    requires s.proc.Down? && |s.log| < TWO_TO_THE_64 && |s.reg| == p.alg.DigestLen()
    requires s.wal == Some(WalRecord(|s.log|, s.reg, text)) && ValidUtf8(text) && ParseEvent(text).Success?
    ensures var log := s.log + TextBytes(p, text);
            Resumed(p, s) == State(s.reg, log, None, Idle(|log|))
  {
    ReadWalRecord(p, |s.log|, s.reg, text);
    RecoverReads(p, s, WalCache(s.reg, text, |s.log|));
    NothingWritten(s.log, TextBytes(p, text));
    assert s.log[..|s.log|] == s.log;
    FinishMeasured(p, s.(proc := LogWrite(JobFor(p, text, |s.log|), 0)), s.log, text);
  }

  // ---------- when the agent cannot start any more ----------

  /** Nothing that can happen changes the state: no restart gets anywhere, and no deletion is advised. */
  ghost predicate Stuck(p: Platform, s: State) {
    forall a, s' :: Next(p, s, a, s') ==> s' == s
  }

  lemma StuckWhenDown(p: Platform, s: State)
    requires s.proc.Down?
    ensures Stuck(p, s) <==> s.wal.Some? && ReadWal(p, s.wal.value).Success? && Recover(p, s).Down?
  {
    assert Next(p, s, Restart, s.(proc := Recover(p, s)));
    if s.wal.Some? && ReadWal(p, s.wal.value).Failure? {
      assert Next(p, s, DeleteWal, s.(wal := None));
    }
  }

  /**
   * A process that is down stays down for good exactly in these states: a record cut short that
   * can still be read, and a complete record whose text does not read back.
   */
  lemma StuckIff(p: Platform, r0: Bytes, s: State, h: History)
    requires p.Valid() && Inv(p, r0, s, h) && s.proc.Down?
    requires h.phase.Torn? ==> NoCollision(p, s.reg, h.phase.text)
    ensures Stuck(p, s) <==>
            match h.phase
            case Clean => false
            case Torn(_) => ReadWal(p, s.wal.value).Success?
            case Ready(text) => ParseEvent(text).Failure?
            case Measured(text, _) => ParseEvent(text).Failure?
  {
    StuckWhenDown(p, s);
    match h.phase
    case Clean =>
    case Torn(_) => TornHarmless(p, r0, s, h);
    case Ready(_) => StuckComplete(p, r0, s, h);
    case Measured(_, _) => StuckComplete(p, r0, s, h);
  }

  lemma StuckComplete(p: Platform, r0: Bytes, s: State, h: History)
    requires p.Valid() && Inv(p, r0, s, h) && s.proc.Down? && (h.phase.Ready? || h.phase.Measured?)
    ensures Stuck(p, s) <==> ParseEvent(h.phase.text).Failure?
  {
    StuckWhenDown(p, s);
    CompleteReads(p, r0, s, h);
    RecoverComplete(p, r0, s, h);
  }

  predicate IsAscii(s: Bytes) {
    forall b <- s :: b < 0x80
  }

  lemma {:induction false} AsciiIsUtf8(s: Bytes)
    requires IsAscii(s)
    ensures ValidUtf8(s)
    decreases |s|
  {
    if s != [] {
      assert s[0] in s && forall b <- s[1..] :: b in s;
      AsciiIsUtf8(s[1..]);
    }
  }

  /** For a text in ASCII, that is so as soon as the offset and the expected value were written. */
  lemma AsciiTornStuckIff(p: Platform, r0: Bytes, s: State, h: History)
    requires p.Valid() && Inv(p, r0, s, h) && s.proc.Down? && h.phase.Torn? && IsAscii(h.phase.text)
    requires NoCollision(p, s.reg, h.phase.text)
    ensures Stuck(p, s) <==> |s.wal.value| >= 8 + p.alg.DigestLen()
  {
    StuckIff(p, r0, s, h);
    if |s.wal.value| >= 8 + p.alg.DigestLen() {
      AsciiPrefixReads(p, |s.log|, Extended(p, s.reg, h.phase.text), h.phase.text, |s.wal.value|);
    }
  }

  lemma AsciiPrefixReads(p: Platform, offset: nat, expected: Bytes, text: Bytes, k: nat)
    requires |expected| == p.alg.DigestLen() && IsAscii(text)
    requires 8 + |expected| <= k <= |WalRecord(offset, expected, text)|
    ensures ReadWal(p, WalRecord(offset, expected, text)[..k]).Success?
  {
    var n := 8 + |expected|;
    var cut := WalRecord(offset, expected, text)[..k][n..];
    assert cut == text[..k - n];
    assert forall b <- cut :: b in text;
    AsciiIsUtf8(cut);
  }

  /** Deleting a record that was cut short is safe in all those states, advised or not. */
  lemma TornDeletionSafe(p: Platform, r0: Bytes, s: State, h: History)
    requires Inv(p, r0, s, h) && h.phase.Torn? && s.proc.Down?
    ensures Inv(p, r0, s.(wal := None), h.(phase := Clean))
  {
  }

  /**
   * What can be checked before a record is deleted by hand: if it can be read and the register
   * already has the value it expects, the log ends with the entry of its text.
   */
  predicate SafeToDelete(p: Platform, s: State)
    requires s.wal.Some?
  {
    match ReadWal(p, s.wal.value)
    case Failure(_) => true
    case Success(cache) =>
      s.reg == cache.expected ==> cache.offset <= |s.log| && s.log[cache.offset..] == TextBytes(p, cache.text)
  }

  /**
   * Deleting a record by hand, whatever its state, leaves log and register in step exactly under
   * that check: once the register was extended, not before the last byte of the entry is in the log.
   */
  lemma HandDeletionSafeIff(p: Platform, r0: Bytes, s: State, h: History)
    requires p.Valid() && Inv(p, r0, s, h) && s.proc.Down? && s.wal.Some?
    ensures var s' := s.(wal := None);
            (Consistent(p, r0, s', h.committed) || (h.phase.Measured? && Consistent(p, r0, s', h.phase.before))) <==>
            SafeToDelete(p, s)
    ensures SafeToDelete(p, s) <==> (h.phase.Measured? ==> s.log == LogOf(p, h.committed))
  {
    match h.phase
    case Clean =>
    case Torn(text) => ReadTornRecord(p, |s.log|, Extended(p, s.reg, text), text, |s.wal.value|);
    case Ready(_) => CompleteReads(p, r0, s, h);
    case Measured(text, before) =>
      CompleteReads(p, r0, s, h);
      TailIsEntry(s.log, LogOf(p, before), TextBytes(p, text));
  }

  lemma TailIsEntry(log: Bytes, base: Bytes, entry: Bytes)
    requires |base| <= |log| && log[..|base|] == base
    ensures log[|base|..] == entry <==> log == base + entry
  {
    assert log == log[..|base|] + log[|base|..];
    assert (base + entry)[|base|..] == entry;
  }
}
