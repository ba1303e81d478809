/**
 * The event log as the program has it: methods that change files and a register. Every effect is
 * noted in a ghost trace of machine states, and each method is shown to take the machine's steps,
 * so that what is proved of every machine state holds wherever these methods are interrupted.
 */
module EventLogStore {
  import opened Results
  import opened ByteCodec
  import opened AaelEvent
  import opened Tcg2
  import opened EventLogMachine

  /** What outlives the agent process: the register, the log file and the write-ahead log file. */
  class Host {
    var reg: Bytes
    var log: Bytes
    var wal: Option<Bytes>
    ghost var trace: seq<State>

    ghost function View(proc: Proc): State
      reads this
    {
      State(reg, log, wal, proc)
    }

    /** The latest state noted is the present one, with the process at `proc`. */
    ghost predicate At(proc: Proc)
      reads this
    {
      trace != [] && trace[|trace| - 1] == View(proc)
    }

    constructor (reg: Bytes, log: Bytes, wal: Option<Bytes>)
      ensures this.reg == reg && this.log == log && this.wal == wal && trace == [View(Down)]
    {
      this.reg, this.log, this.wal := reg, log, wal;
      trace := [State(reg, log, wal, Down)];
    }

    method CreateWal(ghost proc: Proc)
      modifies this
      ensures wal == Some([]) && reg == old(reg) && log == old(log)
      ensures trace == old(trace) + [View(proc)]
    {
      wal := Some([]);
      trace := trace + [View(proc)];
    }

    method AppendWal(b: byte, ghost proc: Proc)
      requires wal.Some?
      modifies this
      ensures wal == Some(old(wal).value + [b]) && reg == old(reg) && log == old(log)
      ensures trace == old(trace) + [View(proc)]
    {
      wal := Some(wal.value + [b]);
      trace := trace + [View(proc)];
    }

    method DeleteWal(ghost proc: Proc)
      modifies this
      ensures wal == None && reg == old(reg) && log == old(log)
      ensures trace == old(trace) + [View(proc)]
    {
      wal := None;
      trace := trace + [View(proc)];
    }

    method ExtendRegister(p: Platform, digest: Bytes, ghost proc: Proc)
      modifies this
      ensures reg == p.hash(old(reg) + digest) && log == old(log) && wal == old(wal)
      ensures trace == old(trace) + [View(proc)]
    {
      reg := p.hash(reg + digest);
      trace := trace + [View(proc)];
    }

    method PutLogByte(i: nat, b: byte, ghost proc: Proc)
      modifies this
      ensures log == WriteAt(old(log), i, b) && reg == old(reg) && wal == old(wal)
      ensures trace == old(trace) + [View(proc)]
    {
      log := if i < |log| then log[i := b] else log + Zeros(i - |log|) + [b];
      trace := trace + [View(proc)];
    }
  }

  /** From position `from` on, the trace takes the machine's own steps. */
  ghost predicate Follows(p: Platform, trace: seq<State>, from: nat) {
    forall i :: from <= i < |trace| - 1 ==> Running(trace[i]) && trace[i + 1] == Step(p, trace[i])
  }

  lemma FollowMore(p: Platform, trace: seq<State>, from: nat, s: State)
    requires trace != [] && Follows(p, trace, from) && Running(trace[|trace| - 1])
    requires s == Step(p, trace[|trace| - 1])
    ensures Follows(p, trace + [s], from)
  {
  }

  /** A trace that follows the machine until it stops ends where the machine ends. */
  lemma {:induction false} FollowsFinish(p: Platform, trace: seq<State>, from: nat)
    requires from < |trace| && Follows(p, trace, from) && !Running(trace[|trace| - 1])
    ensures Finish(p, trace[from]) == trace[|trace| - 1]
    decreases |trace| - from
  {
    if from < |trace| - 1 {
      FollowsFinish(p, trace, from + 1);
    }
  }

  /** Every state along such a trace keeps the machine's invariant, so a crash may come at any of them. */
  lemma {:induction false} TraceKeepsInv(p: Platform, r0: Bytes, trace: seq<State>, from: nat, h: History, i: nat) returns (h': History)
    requires p.Valid() && from <= i < |trace| && Follows(p, trace, from) && Inv(p, r0, trace[from], h)
    ensures Inv(p, r0, trace[i], h')
    decreases i
  {
    hide Inv;
    if i == from {
      h' := h;
    } else {
      var g := TraceKeepsInv(p, r0, trace, from, h, i - 1);
      NextKeepsInv(p, r0, trace[i - 1], Run, trace[i], g);
      h' := Advance(p, trace[i - 1], Run, g);
    }
  }

  /** From position `from` on, the trace starts at `first` and follows the machine to its end. */
  ghost predicate RanToEnd(p: Platform, trace: seq<State>, from: nat, first: State) {
    from < |trace| && trace[from] == first && Follows(p, trace, from) && Finish(p, first) == trace[|trace| - 1]
  }

  /** The log file opened for writing, with its own cursor. */
  class FileWriter {
    const host: Host
    var pos: nat

    constructor (host: Host)
      ensures this.host == host && pos == |host.log|
    {
      this.host := host;
      pos := |host.log|;
    }

    method Seek(pos: nat)
      modifies this
      ensures this.pos == pos
    {
      this.pos := pos;
    }

    /** `write_all` of one entry: byte after byte at the cursor, which moves at the end. */
    method Write(p: Platform, data: Bytes, ghost job: Job, ghost from: nat)
      requires host.At(LogWrite(job, 0)) && job.pos == pos && data == job.entry && |data| > 0
      requires from < |host.trace| && Follows(p, host.trace, from)
      modifies this, host
      ensures host.At(RemoveWal(job)) && pos == old(pos) + |data|
      ensures host.reg == old(host.reg) && host.wal == old(host.wal)
      ensures old(host.trace) <= host.trace && Follows(p, host.trace, from)
    {
      for k := 0 to |data|
        invariant pos == old(pos) && host.reg == old(host.reg) && host.wal == old(host.wal)
        invariant host.At(if k < |data| then LogWrite(job, k) else RemoveWal(job))
        invariant old(host.trace) <= host.trace && Follows(p, host.trace, from)
      {
        ghost var before := host.trace;
        ghost var next := if k + 1 < |data| then LogWrite(job, k + 1) else RemoveWal(job);
        host.PutLogByte(pos + k, data[k], next);
        FollowMore(p, before, from, host.View(next));
      }
      pos := pos + |data|;
    }
  }

  /** The common end of a call and of a recovery: write the entry, then remove the record. */
  method Conclude(p: Platform, writer: FileWriter, entry: Bytes, ghost job: Job, ghost from: nat)
    requires writer.host.At(LogWrite(job, 0)) && job.pos == writer.pos && entry == job.entry && |entry| > 0
    requires from < |writer.host.trace| && Follows(p, writer.host.trace, from)
    modifies writer, writer.host
    ensures writer.host.At(Idle(writer.pos)) && old(writer.host.trace) <= writer.host.trace
    ensures RanToEnd(p, writer.host.trace, from, old(writer.host.trace[from]))
  {
    var host := writer.host;
    writer.Write(p, entry, job, from);
    ghost var before := host.trace;
    host.DeleteWal(Idle(writer.pos));
    FollowMore(p, before, from, host.View(Idle(writer.pos)));
    FollowsFinish(p, host.trace, from);
  }

  datatype OpenError = UnreadableWal | BadEvent(error: EventError) | Corrupted

  /** `write_all` of the record into the empty file: byte after byte. */
  method FillWal(p: Platform, host: Host, record: Bytes, ghost job: Job, ghost from: nat)
    requires host.wal == Some([]) && host.At(WalWrite(job, record, 0)) && |record| > 0
    requires from < |host.trace| && Follows(p, host.trace, from)
    modifies host
    ensures host.At(Extend(job)) && host.wal == Some(record)
    ensures host.reg == old(host.reg) && host.log == old(host.log)
    ensures old(host.trace) <= host.trace && Follows(p, host.trace, from)
  {
    for k := 0 to |record|
      invariant host.reg == old(host.reg) && host.log == old(host.log) && host.wal == Some(record[..k])
      invariant host.At(if k < |record| then WalWrite(job, record, k) else Extend(job))
      invariant old(host.trace) <= host.trace && Follows(p, host.trace, from)
    {
      ghost var before := host.trace;
      ghost var next := if k + 1 < |record| then WalWrite(job, record, k + 1) else Extend(job);
      host.AppendWal(record[k], next);
      FollowMore(p, before, from, host.View(next));
      assert record[..k + 1] == record[..k] + [record[k]];
    }
    assert record[..|record|] == record;
  }

  class EventLog {
    const p: Platform
    const writer: FileWriter

    /** The process is idle and its cursor is where it believes the log ends. */
    ghost predicate Ready()
      reads this, writer, writer.host
    {
      writer.host.At(Idle(writer.pos))
    }

    constructor (p: Platform, writer: FileWriter)
      ensures this.p == p && this.writer == writer
    {
      this.p, this.writer := p, writer;
    }

    /** `write_wal_cache`: create the file, then the record byte by byte. */
    method WriteWalCache(text: Bytes, offset: nat, expected: Bytes)
      requires Ready() && offset == writer.pos
      requires expected == Extended(p, writer.host.reg, text)
      modifies writer.host
      ensures writer.host.At(Extend(JobFor(p, text, offset)))
      ensures writer.host.reg == old(writer.host.reg) && writer.host.log == old(writer.host.log)
      ensures writer.host.wal == Some(WalRecord(offset, expected, text))
      ensures |old(writer.host.trace)| < |writer.host.trace| && old(writer.host.trace) <= writer.host.trace
      ensures writer.host.trace[|old(writer.host.trace)|] == Begin(p, old(writer.host.View(Idle(writer.pos))), text)
      ensures Follows(p, writer.host.trace, |old(writer.host.trace)|)
    {
      var host := writer.host;
      ghost var from, job := |host.trace|, JobFor(p, text, offset);
      var record := BeBytes(offset, 8) + expected + text;
      host.CreateWal(WalWrite(job, record, 0));
      FillWal(p, host, record, job, from);
    }

    /** `extend_entry`: the record, then the register, then the entry, then the record goes. */
    method ExtendEntry(event: Event)
      requires Ready() && ValidEvent(event)
      modifies writer, writer.host
      ensures Ready() && old(writer.host.trace) <= writer.host.trace
      ensures RanToEnd(p, writer.host.trace, |old(writer.host.trace)|,
                       Begin(p, old(writer.host.View(Idle(writer.pos))), Print(event)))
    {
      var host := writer.host;
      ghost var from, job := |host.trace|, JobFor(p, Print(event), writer.pos);
      var (entry, digest) := SerializeEvent(p, event);
      SerializeUsesTextOnly(p, event);
      var expected := p.hash(host.reg + digest);
      WriteWalCache(Print(event), writer.pos, expected);

      ghost var before := host.trace;
      host.ExtendRegister(p, digest, LogWrite(job, 0));
      FollowMore(p, before, from, host.View(LogWrite(job, 0)));

      Conclude(p, writer, entry, job, from);
    }
  }

  /** What recovery has to do: the event of the record, its offset, and whether to extend first. */
  datatype Plan = Plan(event: Event, offset: nat, extendFirst: bool)

  function PlannedProc(p: Platform, plan: Plan): Proc {
    var job := JobFor(p, Print(plan.event), plan.offset);
    if plan.extendFirst then Extend(job) else LogWrite(job, 0)
  }

  /**
   * The error with which recovery refuses a record. A record that can be read, with an event that can
   * be read, is only refused for leading to another register value than it expects.
   */
  function RefusedWith(p: Platform, wal: Bytes): OpenError {
    match ReadWal(p, wal)
    case Failure(_) => UnreadableWal
    case Success(cache) =>
      match ParseEvent(cache.text)
      case Failure(error) => BadEvent(error)
      case Success(_) => Corrupted
  }

  /** The checks of `EventLog::new` on a record that is present. */
  method PlanRecovery(p: Platform, host: Host) returns (r: Result<Plan, OpenError>)
    requires host.wal.Some?
    ensures r.Failure? <==> Recover(p, host.View(Down)).Down?
    ensures r.Failure? ==> r.error == RefusedWith(p, host.wal.value)
    ensures r.Success? ==>
              Recover(p, host.View(Down)) == PlannedProc(p, r.value)
  {
    var cache;
    match ReadWal(p, host.wal.value) {
      case Failure(_) => return Failure(UnreadableWal);
      case Success(read) => cache := read;
    }
    var currentPcr := host.reg;
    var event;
    match ParseEvent(cache.text) {
      case Failure(error) => return Failure(BadEvent(error));
      case Success(parsed) => event := parsed;
    }
    if currentPcr == cache.expected {
      return Success(Plan(event, cache.offset, false));
    }
    var (_, digest) := SerializeEvent(p, event);
    SerializeUsesTextOnly(p, event);
    if p.hash(currentPcr + digest) != cache.expected {
      return Failure(Corrupted);
    }
    return Success(Plan(event, cache.offset, true));
  }

  /** The effects of recovery, from the register to the deletion of the record. */
  method CarryOut(p: Platform, writer: FileWriter, plan: Plan)
    requires writer.host.trace != []
    modifies writer, writer.host
    ensures writer.host.At(Idle(writer.pos)) && old(writer.host.trace) <= writer.host.trace
    ensures RanToEnd(p, writer.host.trace, |old(writer.host.trace)|, old(writer.host.View(PlannedProc(p, plan))))
  {
    var host := writer.host;
    ghost var from, job := |host.trace|, JobFor(p, Print(plan.event), plan.offset);
    var (entry, digest) := SerializeEvent(p, plan.event);
    SerializeUsesTextOnly(p, plan.event);
    host.trace := host.trace + [host.View(PlannedProc(p, plan))];
    ghost var before := host.trace;
    if plan.extendFirst {
      host.ExtendRegister(p, digest, LogWrite(job, 0));
      FollowMore(p, before, from, host.View(LogWrite(job, 0)));
    }
    writer.Seek(plan.offset);
    Conclude(p, writer, entry, job, from);
  }

  /**
   * `EventLog::new`. It fails without an effect exactly when the machine's recovery stays down;
   * otherwise it takes the machine's steps to the end.
   */
  method OpenEventLog(p: Platform, host: Host) returns (r: Result<EventLog, OpenError>)
    requires host.At(Down)
    modifies host
    ensures old(host.trace) <= host.trace
    ensures r.Failure? <==> Recover(p, old(host.View(Down))).Down?
    ensures r.Failure? ==> host.View(Down) == old(host.View(Down)) && host.trace == old(host.trace)
    ensures r.Failure? ==> host.wal.Some? && r.error == RefusedWith(p, host.wal.value)
    ensures r.Success? ==> fresh(r.value) && fresh(r.value.writer)
    ensures r.Success? ==> r.value.writer.host == host && r.value.p == p && r.value.Ready()
    ensures r.Success? ==>
              RanToEnd(p, host.trace, |old(host.trace)|, old(host.View(Recover(p, host.View(Down)))))
  {
    var writer := new FileWriter(host);
    if host.wal.None? {
      host.trace := host.trace + [host.View(Idle(writer.pos))];
    } else {
      var planned := PlanRecovery(p, host);
      match planned {
        case Failure(error) => return Failure(error);
        case Success(plan) => CarryOut(p, writer, plan);
      }
    }
    var log := new EventLog(p, writer);
    return Success(log);
  }
}
