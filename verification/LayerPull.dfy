/**
 * Pulling the layers of one image: a bounded number of downloads in flight, finishing in any
 * order, sharing a layer cache and a path counter; then the update of the cache across pulls.
 */
module LayerPull {
  import opened Results
  import opened ImageMeta
  import LS = LayerStore

  // ---------- one pull, as interleaved steps of its layer tasks ----------

  /** A task's own path index stays with it to the end; a cached layer has none. */
  datatype Task =
    | Waiting
    | Opening
    | Looking
    | Unpacking(index: nat)
    | Finished(meta: LayerMeta, origin: Option<nat>)

  /** What stays fixed during a pull. The cache is written only after a pull. */
  datatype Job = Job(
    layers: seq<Descriptor>,
    diffIds: seq<string>,
    cache: map<string, LayerMeta>,
    dataDir: string,
    maxConcurrent: nat)

  /** `collected` is in order of completion; `next` is the store's counter, shared with others. */
  datatype Pull = Pull(tasks: seq<Task>, started: nat, next: nat, collected: seq<(nat, LayerMeta)>, failed: bool)

  datatype Step =
    | Start                                            // the next descriptor of the stream gets a slot
    | Opened(i: nat)                                   // its blob stream is there
    | Look(i: nat)                                     // cache hit, or a new store path
    | Unpack(i: nat, digest: string, encrypted: bool)  // unpacked, with this uncompressed digest
    | Abort(i: nat)                                    // any error of a layer ends the pull
    | Others                                           // another clone of the store takes a path

  function StorePath(job: Job, index: nat): string {
    LS.JoinPath(job.dataDir, LS.ToDecimal(index))
  }

  predicate InFlight(task: Task) {
    !task.Waiting? && !task.Finished?
  }

  function FlightSet(s: Pull): set<nat> {
    set i | 0 <= i < |s.tasks| && InFlight(s.tasks[i])
  }

  function InitialPull(job: Job, next: nat): Pull {
    Pull(seq(|job.layers|, _ => Waiting), 0, next, [], false)
  }

  function Complete(s: Pull, i: nat, meta: LayerMeta, origin: Option<nat>): Pull
    requires i < |s.tasks|
  {
    s.(tasks := s.tasks[i := Finished(meta, origin)], collected := s.collected + [(i, meta)])
  }

  ghost predicate Next(job: Job, s: Pull, e: Step, s': Pull) {
    && !s.failed && |s.tasks| == |job.layers| == |job.diffIds|
    && match e
       case Start =>
         && s.started < |s.tasks| && |FlightSet(s)| < job.maxConcurrent
         && s' == s.(tasks := s.tasks[s.started := Opening], started := s.started + 1)
       case Opened(i) =>
         i < |s.tasks| && s.tasks[i].Opening? && s' == s.(tasks := s.tasks[i := Looking])
       case Look(i) =>
         && i < |s.tasks| && s.tasks[i].Looking?
         && s' == if job.layers[i].digest in job.cache then Complete(s, i, job.cache[job.layers[i].digest], None)
                  else s.(tasks := s.tasks[i := Unpacking(s.next)], next := s.next + 1)
       case Unpack(i, digest, encrypted) =>
         && i < |s.tasks| && s.tasks[i].Unpacking?
         && var index := s.tasks[i].index;
            s' == if digest != job.diffIds[i] then s.(failed := true)
                  else Complete(s, i, LayerMeta(job.layers[i].digest, digest, StorePath(job, index), encrypted), Some(index))
       case Abort(i) =>
         i < |s.tasks| && InFlight(s.tasks[i]) && s' == s.(failed := true)
       case Others => s' == s.(next := s.next + 1)
  }

  // ---------- the invariant ----------

  /** What the meta of layer `i` has to be: the cached one, or one that passed the diff-id check. */
  predicate MetaFor(job: Job, i: nat, meta: LayerMeta)
    requires i < |job.layers| == |job.diffIds|
  {
    var d := job.layers[i].digest;
    if d in job.cache then meta == job.cache[d]
    else meta.compressedDigest == d && meta.uncompressedDigest == job.diffIds[i]
  }

  predicate TaskOk(job: Job, i: nat, task: Task)
    requires i < |job.layers| == |job.diffIds|
  {
    match task
    case Unpacking(_) => job.layers[i].digest !in job.cache
    case Finished(meta, origin) =>
      && MetaFor(job, i, meta) && (origin.None? <==> job.layers[i].digest in job.cache)
      && (origin.Some? ==> meta.storePath == StorePath(job, origin.value))
    case _ => true
  }

  function IndexOf(task: Task): Option<nat> {
    match task
    case Unpacking(index) => Some(index)
    case Finished(_, origin) => origin
    case _ => None
  }

  predicate TasksOk(job: Job, tasks: seq<Task>, started: nat, next: nat) {
    && |tasks| == |job.layers| == |job.diffIds| && started <= |tasks|
    && (forall i :: 0 <= i < |tasks| ==> (tasks[i].Waiting? <==> started <= i))
    && (forall i :: 0 <= i < |tasks| ==> TaskOk(job, i, tasks[i]))
    && (forall i :: 0 <= i < |tasks| && IndexOf(tasks[i]).Some? ==> IndexOf(tasks[i]).value < next)
    && (forall i, k :: 0 <= i < k < |tasks| && IndexOf(tasks[i]).Some? ==> IndexOf(tasks[i]) != IndexOf(tasks[k]))
  }

  ghost predicate CollectedOk(tasks: seq<Task>, collected: seq<(nat, LayerMeta)>) {
    && (forall j :: 0 <= j < |collected| ==> Collects(tasks, collected[j]))
    && (forall i :: 0 <= i < |tasks| && tasks[i].Finished? ==> HasIndex(collected, i))
    && (forall j, k :: 0 <= j < k < |collected| ==> collected[j].0 != collected[k].0)
  }

  predicate Collects(tasks: seq<Task>, done: (nat, LayerMeta)) {
    done.0 < |tasks| && tasks[done.0].Finished? && tasks[done.0].meta == done.1
  }

  ghost predicate HasIndex(collected: seq<(nat, LayerMeta)>, i: nat) {
    exists j :: 0 <= j < |collected| && collected[j].0 == i
  }

  ghost predicate PullInv(job: Job, s: Pull) {
    && TasksOk(job, s.tasks, s.started, s.next)
    && CollectedOk(s.tasks, s.collected)
    && |FlightSet(s)| <= job.maxConcurrent
  }

  /** Moving one task on keeps what is required of all of them. */
  lemma MoveTask(job: Job, s: Pull, i: nat, task: Task, started: nat, next: nat)
    requires TasksOk(job, s.tasks, s.started, s.next) && i < |s.tasks| && TaskOk(job, i, task) && !task.Waiting?
    requires if s.tasks[i].Waiting? then i == s.started && started == i + 1 else started == s.started
    requires || (IndexOf(task) == IndexOf(s.tasks[i]) && next >= s.next)
             || (IndexOf(s.tasks[i]).None? && IndexOf(task) == Some(s.next) && next == s.next + 1)
    ensures TasksOk(job, s.tasks[i := task], started, next)
  {
  }

  lemma MoveUncollected(tasks: seq<Task>, collected: seq<(nat, LayerMeta)>, i: nat, task: Task)
    requires CollectedOk(tasks, collected) && i < |tasks| && !tasks[i].Finished? && !task.Finished?
    ensures CollectedOk(tasks[i := task], collected)
  {
    forall j | 0 <= j < |collected|
      ensures Collects(tasks[i := task], collected[j])
    {
      assert Collects(tasks, collected[j]);
    }
  }

  lemma CollectOne(tasks: seq<Task>, collected: seq<(nat, LayerMeta)>, i: nat, meta: LayerMeta, origin: Option<nat>)
    requires CollectedOk(tasks, collected) && i < |tasks| && !tasks[i].Finished?
    ensures CollectedOk(tasks[i := Finished(meta, origin)], collected + [(i, meta)])
  {
    var tasks', collected' := tasks[i := Finished(meta, origin)], collected + [(i, meta)];
    forall j | 0 <= j < |collected'|
      ensures Collects(tasks', collected'[j])
      ensures forall k :: j < k < |collected'| ==> collected'[j].0 != collected'[k].0
    {
      assert j < |collected| ==> Collects(tasks, collected[j]);
    }
    forall k | 0 <= k < |tasks'| && tasks'[k].Finished?
      ensures HasIndex(collected', k)
    {
      if k == i {
        assert collected'[|collected|].0 == i;
      } else {
        var j :| 0 <= j < |collected| && collected[j].0 == k;
        assert collected'[j].0 == k;
      }
    }
  }

  lemma FlightAfter(s: Pull, i: nat, task: Task, s': Pull)
    requires i < |s.tasks| && s'.tasks == s.tasks[i := task]
    ensures InFlight(s.tasks[i]) && InFlight(task) ==> FlightSet(s') == FlightSet(s)
    ensures InFlight(s.tasks[i]) && !InFlight(task) ==> |FlightSet(s')| <= |FlightSet(s)|
    ensures !InFlight(s.tasks[i]) && InFlight(task) ==> |FlightSet(s')| == |FlightSet(s)| + 1
  {
    if InFlight(s.tasks[i]) && InFlight(task) {
      assert FlightSet(s') == FlightSet(s);
    } else if InFlight(s.tasks[i]) {
      assert FlightSet(s') == FlightSet(s) - {i};
    } else if InFlight(task) {
      assert FlightSet(s') == FlightSet(s) + {i};
    }
  }

  lemma InitialInv(job: Job, next: nat)
    requires |job.layers| == |job.diffIds|
    ensures PullInv(job, InitialPull(job, next))
  {
    assert FlightSet(InitialPull(job, next)) == {};
  }

  lemma StepKeepsInv(job: Job, s: Pull, e: Step, s': Pull)
    requires PullInv(job, s) && Next(job, s, e, s')
    ensures PullInv(job, s')
  {
    match e
    case Start =>
      MoveTask(job, s, s.started, Opening, s.started + 1, s.next);
      MoveUncollected(s.tasks, s.collected, s.started, Opening);
      FlightAfter(s, s.started, Opening, s');
    case Opened(i) =>
      MoveTask(job, s, i, Looking, s.started, s.next);
      MoveUncollected(s.tasks, s.collected, i, Looking);
      FlightAfter(s, i, Looking, s');
    case Look(i) =>
      MoveTask(job, s, i, s'.tasks[i], s.started, s'.next);
      FlightAfter(s, i, s'.tasks[i], s');
      if job.layers[i].digest in job.cache {
        CollectOne(s.tasks, s.collected, i, job.cache[job.layers[i].digest], None);
      } else {
        MoveUncollected(s.tasks, s.collected, i, Unpacking(s.next));
      }
    case Unpack(i, digest, encrypted) =>
      if digest == job.diffIds[i] {
        var index := s.tasks[i].index;
        var meta := LayerMeta(job.layers[i].digest, digest, StorePath(job, index), encrypted);
        MoveTask(job, s, i, Finished(meta, Some(index)), s.started, s.next);
        CollectOne(s.tasks, s.collected, i, meta, Some(index));
        FlightAfter(s, i, Finished(meta, Some(index)), s');
      } else {
        assert FlightSet(s') == FlightSet(s);
      }
    case Abort(_) => assert FlightSet(s') == FlightSet(s);
    case Others => assert FlightSet(s') == FlightSet(s);
  }

  // ---------- runs and their result ----------

  ghost predicate IsRun(job: Job, states: seq<Pull>, steps: seq<Step>, next: nat) {
    && |states| == |steps| + 1 && states[0] == InitialPull(job, next)
    && forall i :: 0 <= i < |steps| ==> Next(job, states[i], steps[i], states[i + 1])
  }

  lemma {:induction false} RunKeepsInv(job: Job, states: seq<Pull>, steps: seq<Step>, next: nat, i: nat)
    requires |job.layers| == |job.diffIds| && IsRun(job, states, steps, next) && i <= |steps|
    ensures PullInv(job, states[i])
  {
    if i == 0 {
      InitialInv(job, next);
    } else {
      RunKeepsInv(job, states, steps, next, i - 1);
      assert Next(job, states[i - 1], steps[i - 1], states[i - 1 + 1]);
      StepKeepsInv(job, states[i - 1], steps[i - 1], states[i]);
    }
  }

  /** The stream is exhausted: every layer's task has finished. */
  predicate Succeeded(s: Pull) {
    !s.failed && s.started == |s.tasks| && forall i :: 0 <= i < |s.tasks| ==> !InFlight(s.tasks[i])
  }

  /** Collecting into an ordered map: a later pair with the same index would replace an earlier one. */
  function ToMap(collected: seq<(nat, LayerMeta)>): map<nat, LayerMeta> {
    if collected == [] then map[]
    else
      var n := |collected| - 1;
      ToMap(collected[..n])[collected[n].0 := collected[n].1]
  }

  /** The values of an ordered map with keys below `n`, by ascending key. */
  function Ascending(m: map<nat, LayerMeta>, n: nat): seq<LayerMeta> {
    if n == 0 then []
    else Ascending(m, n - 1) + if n - 1 in m then [m[n - 1]] else []
  }

  function PulledMetas(s: Pull): seq<LayerMeta> {
    Ascending(ToMap(s.collected), |s.tasks|)
  }

  lemma {:induction false} ToMapFinds(tasks: seq<Task>, collected: seq<(nat, LayerMeta)>, i: nat)
    requires forall j :: 0 <= j < |collected| ==> Collects(tasks, collected[j])
    ensures i in ToMap(collected) <==> HasIndex(collected, i)
    ensures i in ToMap(collected) ==> Collects(tasks, (i, ToMap(collected)[i]))
    decreases |collected|
  {
    if collected != [] {
      var n := |collected| - 1;
      var front := collected[..n];
      ToMapFinds(tasks, front, i);
      assert Collects(tasks, collected[n]);
      if HasIndex(collected, i) && collected[n].0 != i {
        var j :| 0 <= j < |collected| && collected[j].0 == i;
        assert front[j].0 == i;
      }
      if HasIndex(front, i) {
        var j :| 0 <= j < |front| && front[j].0 == i;
        assert collected[j].0 == i;
      }
      if collected[n].0 == i {
        assert HasIndex(collected, i);
      }
    }
  }

  lemma {:induction false} AscendingFull(m: map<nat, LayerMeta>, n: nat)
    requires forall i :: 0 <= i < n ==> i in m
    ensures |Ascending(m, n)| == n && forall i :: 0 <= i < n ==> Ascending(m, n)[i] == m[i]
  {
    if n > 0 {
      AscendingFull(m, n - 1);
    }
  }

  /** The outcome of a pull: one right meta for each layer, in manifest order. */
  predicate Outcome(job: Job, metas: seq<LayerMeta>) {
    && |metas| == |job.layers| == |job.diffIds|
    && forall i :: 0 <= i < |metas| ==> MetaFor(job, i, metas[i])
  }

  /**
   * However the tasks interleave, a pull that succeeds returns exactly one right meta per
   * descriptor, in manifest order, never had more than the allowed number of downloads in flight,
   * and gave every layer that was not cached a store path of its own.
   */
  lemma PullReturnsInOrder(job: Job, states: seq<Pull>, steps: seq<Step>, next: nat)
    requires |job.layers| == |job.diffIds| && IsRun(job, states, steps, next) && Succeeded(states[|steps|])
    ensures Outcome(job, PulledMetas(states[|steps|]))
    ensures forall k :: 0 <= k < |states| ==> |FlightSet(states[k])| <= job.maxConcurrent
    ensures var metas := PulledMetas(states[|steps|]);
            forall i, k :: 0 <= i < k < |metas| && job.layers[i].digest !in job.cache && job.layers[k].digest !in job.cache ==>
              metas[i].storePath != metas[k].storePath
    ensures var metas := PulledMetas(states[|steps|]);
            forall i :: 0 <= i < |metas| && job.layers[i].digest !in job.cache ==>
              exists index: nat :: index < states[|steps|].next && metas[i].storePath == StorePath(job, index)
  {
    forall k | 0 <= k < |states|
      ensures |FlightSet(states[k])| <= job.maxConcurrent
    {
      RunKeepsInv(job, states, steps, next, k);
    }
    var s := states[|steps|];
    RunKeepsInv(job, states, steps, next, |steps|);
    FinishedMetas(job, s);
    var metas := PulledMetas(s);
    forall i | 0 <= i < |metas| && job.layers[i].digest !in job.cache
      ensures exists index: nat :: index < s.next && metas[i].storePath == StorePath(job, index)
    {
      assert TaskOk(job, i, s.tasks[i]);
      assert s.tasks[i].origin == IndexOf(s.tasks[i]);
    }
    forall i, k | 0 <= i < k < |metas| && job.layers[i].digest !in job.cache && job.layers[k].digest !in job.cache
      ensures metas[i].storePath != metas[k].storePath
    {
      assert TaskOk(job, i, s.tasks[i]) && TaskOk(job, k, s.tasks[k]);
      if metas[i].storePath == metas[k].storePath {
        SamePathSameIndex(job, s.tasks[i].origin.value, s.tasks[k].origin.value);
      }
    }
  }

  lemma SamePathSameIndex(job: Job, a: nat, b: nat)
    requires StorePath(job, a) == StorePath(job, b)
    ensures a == b
  {
    LS.JoinPathInjective(job.dataDir, LS.ToDecimal(a), LS.ToDecimal(b));
    LS.ParseDecimal(a);
    LS.ParseDecimal(b);
  }

  lemma FinishedMetas(job: Job, s: Pull)
    requires PullInv(job, s) && Succeeded(s)
    ensures Outcome(job, PulledMetas(s))
    ensures forall i :: 0 <= i < |s.tasks| ==> s.tasks[i].Finished? && PulledMetas(s)[i] == s.tasks[i].meta
  {
    var m := ToMap(s.collected);
    forall i | 0 <= i < |s.tasks|
      ensures s.tasks[i].Finished? && i in m && m[i] == s.tasks[i].meta
    {
      assert !InFlight(s.tasks[i]);
      ToMapFinds(s.tasks, s.collected, i);
    }
    AscendingFull(m, |s.tasks|);
    forall i | 0 <= i < |s.tasks|
      ensures MetaFor(job, i, PulledMetas(s)[i])
    {
      assert TaskOk(job, i, s.tasks[i]);
    }
  }

  /** With no slot at all, a pull of any layer never succeeds. */
  lemma NoSlotNoSuccess(job: Job, states: seq<Pull>, steps: seq<Step>, next: nat, i: nat)
    requires |job.layers| == |job.diffIds| > 0 && job.maxConcurrent == 0
    requires IsRun(job, states, steps, next) && i <= |steps|
    ensures states[i].started == 0 && !Succeeded(states[i])
  {
    RunKeepsInv(job, states, steps, next, i);
    if i > 0 {
      NoSlotNoSuccess(job, states, steps, next, i - 1);
      assert Next(job, states[i - 1], steps[i - 1], states[i - 1 + 1]);
    }
  }

  // ---------- a pull can always be finished ----------

  /** How much a pull has still to do. */
  function StepsLeft(tasks: seq<Task>): nat
    decreases |tasks|
  {
    if tasks == [] then 0 else StepsLeft(tasks[..|tasks| - 1]) + TaskLeft(tasks[|tasks| - 1])
  }

  function TaskLeft(task: Task): nat {
    match task
    case Waiting => 4
    case Opening => 3
    case Looking => 2
    case Unpacking(_) => 1
    case Finished(_, _) => 0
  }

  lemma {:induction false} LessLeft(tasks: seq<Task>, i: nat, task: Task)
    requires i < |tasks| && TaskLeft(task) < TaskLeft(tasks[i])
    ensures StepsLeft(tasks[i := task]) < StepsLeft(tasks)
    decreases |tasks|
  {
    var n, tasks' := |tasks| - 1, tasks[i := task];
    if i == n {
      assert tasks'[..n] == tasks[..n];
    } else {
      assert tasks'[..n] == tasks[..n][i := task] && tasks'[n] == tasks[n];
      LessLeft(tasks[..n], i, task);
    }
  }

  /** The next step of a layer in flight, when nothing goes wrong. */
  function GoodStep(job: Job, s: Pull, i: nat): Step
    requires i < |s.tasks| == |job.diffIds| && InFlight(s.tasks[i])
  {
    match s.tasks[i]
    case Opening => Opened(i)
    case Looking => Look(i)
    case _ => Unpack(i, job.diffIds[i], false)
  }

  /** A pull that has not failed and not succeeded can go on, if there is a slot at all. */
  lemma CanGoOn(job: Job, s: Pull) returns (e: Step, s': Pull)
    requires PullInv(job, s) && !s.failed && !Succeeded(s) && job.maxConcurrent > 0
    ensures Next(job, s, e, s') && !s'.failed && StepsLeft(s'.tasks) < StepsLeft(s.tasks)
  {
    if i: nat :| i < |s.tasks| && InFlight(s.tasks[i]) {
      e := GoodStep(job, s, i);
      if s.tasks[i].Opening? {
        s' := s.(tasks := s.tasks[i := Looking]);
      } else if s.tasks[i].Looking? && job.layers[i].digest in job.cache {
        s' := Complete(s, i, job.cache[job.layers[i].digest], None);
      } else if s.tasks[i].Looking? {
        s' := s.(tasks := s.tasks[i := Unpacking(s.next)], next := s.next + 1);
      } else {
        var index := s.tasks[i].index;
        s' := Complete(s, i, LayerMeta(job.layers[i].digest, job.diffIds[i], StorePath(job, index), false), Some(index));
      }
      LessLeft(s.tasks, i, s'.tasks[i]);
      assert s'.tasks == s.tasks[i := s'.tasks[i]];
    } else {
      assert FlightSet(s) == {};
      e := Start;
      s' := s.(tasks := s.tasks[s.started := Opening], started := s.started + 1);
      LessLeft(s.tasks, s.started, Opening);
    }
  }

  lemma {:induction false} CanFinish(job: Job, s: Pull) returns (states: seq<Pull>, steps: seq<Step>)
    requires PullInv(job, s) && !s.failed && job.maxConcurrent > 0
    ensures |states| == |steps| + 1 && states[0] == s && Succeeded(states[|steps|])
    ensures forall i :: 0 <= i < |steps| ==> Next(job, states[i], steps[i], states[i + 1])
    decreases StepsLeft(s.tasks)
  {
    if Succeeded(s) {
      states, steps := [s], [];
    } else {
      var e, s' := CanGoOn(job, s);
      StepKeepsInv(job, s, e, s');
      var states', steps' := CanFinish(job, s');
      states, steps := [s] + states', [e] + steps';
      forall i | 0 <= i < |steps|
        ensures Next(job, states[i], steps[i], states[i + 1])
      {
        assert i > 0 ==> Next(job, states'[i - 1], steps'[i - 1], states'[i - 1 + 1]);
      }
    }
  }

  /** A pull of any layers can succeed exactly if there is a slot, or nothing to pull. */
  lemma CanSucceedIff(job: Job, next: nat)
    requires |job.layers| == |job.diffIds|
    ensures (exists states, steps :: IsRun(job, states, steps, next) && Succeeded(states[|steps|])) <==>
            job.maxConcurrent > 0 || job.layers == []
  {
    var s := InitialPull(job, next);
    InitialInv(job, next);
    if job.maxConcurrent > 0 {
      var states, steps := CanFinish(job, s);
      assert IsRun(job, states, steps, next);
    } else if job.layers == [] {
      assert IsRun(job, [s], [], next) && Succeeded([s][0]);
    } else {
      forall states, steps | IsRun(job, states, steps, next)
        ensures !Succeeded(states[|steps|])
      {
        NoSlotNoSuccess(job, states, steps, next, |steps|);
      }
    }
  }

  // ---------- diff ids ----------

  /**
   * A cache hit is not checked against this image's diff id. The result carries the image's diff
   * ids exactly when the cached metas of its layers do.
   */
  lemma DiffIdsMatchIff(job: Job, metas: seq<LayerMeta>)
    requires Outcome(job, metas)
    ensures (forall i :: 0 <= i < |metas| ==> metas[i].uncompressedDigest == job.diffIds[i]) <==>
            forall i :: 0 <= i < |metas| && job.layers[i].digest in job.cache ==>
              job.cache[job.layers[i].digest].uncompressedDigest == job.diffIds[i]
  {
    forall i | 0 <= i < |metas|
      ensures MetaFor(job, i, metas[i])
    {
    }
  }

  // ---------- the cache across pulls ----------

  /** `layer_db.extend`: each meta under its own compressed digest. */
  function UpdateCache(cache: map<string, LayerMeta>, metas: seq<LayerMeta>): map<string, LayerMeta> {
    if metas == [] then cache
    else
      var n := |metas| - 1;
      UpdateCache(cache, metas[..n])[metas[n].compressedDigest := metas[n]]
  }

  lemma {:induction false} UpdateIsUnion(cache: map<string, LayerMeta>, metas: seq<LayerMeta>)
    ensures UpdateCache(cache, metas) == cache + UpdateCache(map[], metas)
    decreases |metas|
  {
    if metas != [] {
      UpdateIsUnion(cache, metas[..|metas| - 1]);
    }
  }

  predicate HasDigest(metas: seq<LayerMeta>, digest: string) {
    exists i :: 0 <= i < |metas| && metas[i].compressedDigest == digest
  }

  /** No later meta of the list has the same digest. */
  predicate IsLast(metas: seq<LayerMeta>, i: nat)
    requires i < |metas|
  {
    forall j :: i < j < |metas| ==> metas[j].compressedDigest != metas[i].compressedDigest
  }

  /** `after` is `before` with every meta of the list under its digest, a later one in place of an earlier. */
  ghost predicate Records(before: map<string, LayerMeta>, metas: seq<LayerMeta>, after: map<string, LayerMeta>) {
    && (forall d :: d in after <==> d in before || HasDigest(metas, d))
    && (forall d <- before :: !HasDigest(metas, d) ==> d in after && after[d] == before[d])
    && (forall i :: 0 <= i < |metas| && IsLast(metas, i) ==>
          metas[i].compressedDigest in after && after[metas[i].compressedDigest] == metas[i])
  }

  lemma {:induction false} UpdateRecords(cache: map<string, LayerMeta>, metas: seq<LayerMeta>)
    ensures Records(cache, metas, UpdateCache(cache, metas))
    decreases |metas|
  {
    hide Records;
    NothingRecorded(cache);
    if metas != [] {
      var front, last := metas[..|metas| - 1], metas[|metas| - 1];
      UpdateRecords(cache, front);
      assert metas == front + [last];
      RecordOneMore(cache, front, UpdateCache(cache, front), last);
    }
  }

  lemma NothingRecorded(cache: map<string, LayerMeta>)
    ensures Records(cache, [], cache)
  {
  }

  lemma RecordOneMore(before: map<string, LayerMeta>, front: seq<LayerMeta>, after: map<string, LayerMeta>, last: LayerMeta)
    requires Records(before, front, after)
    ensures Records(before, front + [last], after[last.compressedDigest := last])
  {
    var metas, after' := front + [last], after[last.compressedDigest := last];
    forall d
      ensures HasDigest(metas, d) <==> HasDigest(front, d) || d == last.compressedDigest
    {
      HasDigestSnoc(front, last, d);
    }
    forall i | 0 <= i < |metas| && IsLast(metas, i)
      ensures metas[i].compressedDigest in after' && after'[metas[i].compressedDigest] == metas[i]
    {
      if i < |front| {
        assert metas[|front|].compressedDigest != metas[i].compressedDigest;
        assert IsLast(front, i) by {
          assert forall j :: i < j < |front| ==> metas[j] == front[j];
        }
      }
    }
  }

  lemma HasDigestSnoc(front: seq<LayerMeta>, last: LayerMeta, d: string)
    ensures HasDigest(front + [last], d) <==> HasDigest(front, d) || d == last.compressedDigest
  {
    var metas := front + [last];
    assert metas[|front|] == last;
    if HasDigest(front, d) {
      var i :| 0 <= i < |front| && front[i].compressedDigest == d;
      assert metas[i].compressedDigest == d;
    }
  }

  datatype PullError = NotAllUniqueLayersPulled(missing: int)

  /** The metadata database, of which a pull changes the layer part. */
  class MetaStore {
    var layerDb: map<string, LayerMeta>

    constructor ()
      ensures layerDb == map[]
    {
      layerDb := map[];
    }

    /** The end of `pull_task`: the metas of a pull enter the database, then they are counted. */
    method RecordPull(uniqueLayersLen: nat, metas: seq<LayerMeta>) returns (r: Result<(), PullError>)
      modifies this
      ensures layerDb == UpdateCache(old(layerDb), metas)
      ensures Records(old(layerDb), metas, layerDb)
      ensures r == if uniqueLayersLen == |metas| then Success(())
                   else Failure(NotAllUniqueLayersPulled(uniqueLayersLen - |metas|))
    {
      var db: map<string, LayerMeta> := map[];
      for i := 0 to |metas|
        invariant db == UpdateCache(map[], metas[..i])
      {
        db := db[metas[i].compressedDigest := metas[i]];
        assert metas[..i + 1][..i] == metas[..i];
      }
      assert metas[..|metas|] == metas;
      UpdateIsUnion(layerDb, metas);
      UpdateRecords(layerDb, metas);
      layerDb := layerDb + db;
      if uniqueLayersLen != |metas| {
        return Failure(NotAllUniqueLayersPulled(uniqueLayersLen - |metas|));
      }
      return Success(());
    }
  }

  datatype Pulled = Pulled(job: Job, metas: seq<LayerMeta>)

  /** The cache after some successful pulls; a failed pull leaves it alone. */
  function CacheAfter(history: seq<Pulled>): map<string, LayerMeta> {
    if history == [] then map[]
    else
      var n := |history| - 1;
      UpdateCache(CacheAfter(history[..n]), history[n].metas)
  }

  predicate IsHistory(history: seq<Pulled>) {
    forall p :: 0 <= p < |history| ==>
      history[p].job.cache == CacheAfter(history[..p]) && Outcome(history[p].job, history[p].metas)
  }

  /** `meta` was made by pull `p` for its layer `i`, where it passed the diff-id check. */
  predicate MadeBy(history: seq<Pulled>, p: nat, i: nat, digest: string, meta: LayerMeta) {
    && p < |history| && i < |history[p].metas| && Outcome(history[p].job, history[p].metas)
    && history[p].metas[i] == meta && history[p].job.layers[i].digest == digest
    && digest !in history[p].job.cache && meta.uncompressedDigest == history[p].job.diffIds[i]
  }

  lemma {:induction false} UpdateFinds(cache: map<string, LayerMeta>, metas: seq<LayerMeta>, digest: string)
    ensures digest in UpdateCache(cache, metas) ==>
              || (digest in cache && UpdateCache(cache, metas)[digest] == cache[digest])
              || exists i :: 0 <= i < |metas| && metas[i].compressedDigest == digest &&
                   UpdateCache(cache, metas)[digest] == metas[i]
    decreases |metas|
  {
    if metas != [] {
      var n := |metas| - 1;
      UpdateFinds(cache, metas[..n], digest);
      if metas[n].compressedDigest == digest {
        assert UpdateCache(cache, metas)[digest] == metas[n];
      }
    }
  }

  /**
   * Over every sequence of pulls, each key of the cache is its meta's compressed digest, and the
   * meta passed the diff-id check in the pull that made it.
   */
  lemma {:induction false} CacheSound(history: seq<Pulled>, digest: string)
    requires IsHistory(history) && digest in CacheAfter(history)
    ensures CacheAfter(history)[digest].compressedDigest == digest
    ensures exists p, i :: MadeBy(history, p, i, digest, CacheAfter(history)[digest])
    decreases |history|
  {
    var n := |history| - 1;
    var front, last := history[..n], history[n];
    forall p | 0 <= p < n
      ensures front[p].job.cache == CacheAfter(front[..p]) && Outcome(front[p].job, front[p].metas)
    {
      assert front[..p] == history[..p] && front[p] == history[p];
    }
    UpdateFinds(CacheAfter(front), last.metas, digest);
    var meta := CacheAfter(history)[digest];
    if digest in CacheAfter(front) && meta == CacheAfter(front)[digest] {
      CacheSoundBefore(history, front, digest, meta);
    } else {
      var i :| 0 <= i < |last.metas| && last.metas[i].compressedDigest == digest && meta == last.metas[i];
      var d := last.job.layers[i].digest;
      assert MetaFor(last.job, i, meta);
      if d in last.job.cache {
        CacheSoundBefore(history, front, d, meta);
      } else {
        assert MadeBy(history, n, i, digest, meta);
      }
    }
  }

  lemma {:induction false} CacheSoundBefore(history: seq<Pulled>, front: seq<Pulled>, digest: string, meta: LayerMeta)
    requires |front| < |history| && front == history[..|front|] && IsHistory(front)
    requires digest in CacheAfter(front) && meta == CacheAfter(front)[digest]
    ensures meta.compressedDigest == digest && exists p, i :: MadeBy(history, p, i, digest, meta)
    decreases |history|, 0
  {
    CacheSound(front, digest);
    var p, i :| MadeBy(front, p, i, digest, meta);
    assert MadeBy(history, p, i, digest, meta);
  }

  /**
   * So every result entry, cached or not, carries its descriptor's digest, and there are as many
   * metas as layers: the count check after a pull never fails.
   */
  lemma ResultCarriesDigests(history: seq<Pulled>, job: Job, metas: seq<LayerMeta>)
    requires IsHistory(history) && job.cache == CacheAfter(history) && Outcome(job, metas)
    ensures |metas| == |job.layers|
    ensures forall i :: 0 <= i < |metas| ==> metas[i].compressedDigest == job.layers[i].digest
  {
    forall i | 0 <= i < |metas|
      ensures metas[i].compressedDigest == job.layers[i].digest
    {
      assert MetaFor(job, i, metas[i]);
      if job.layers[i].digest in job.cache {
        CacheSound(history, job.layers[i].digest);
      }
    }
  }

  lemma HistoryBefore(history: seq<Pulled>, n: nat)
    requires IsHistory(history) && n <= |history|
    ensures IsHistory(history[..n])
  {
    forall p | 0 <= p < n
      ensures history[..n][p].job.cache == CacheAfter(history[..n][..p]) &&
              Outcome(history[..n][p].job, history[..n][p].metas)
    {
      assert history[..n][..p] == history[..p] && history[..n][p] == history[p];
    }
  }

  /** What the cache has of a digest, no later pull changes. */
  lemma {:induction false} CacheKeeps(history: seq<Pulled>, n: nat, digest: string)
    requires IsHistory(history) && n <= |history| && digest in CacheAfter(history[..n])
    ensures digest in CacheAfter(history) && CacheAfter(history)[digest] == CacheAfter(history[..n])[digest]
    decreases |history|
  {
    hide IsHistory, UpdateCache;
    if n == |history| {
      assert history[..n] == history;
    } else {
      var front, last := history[..|history| - 1], history[|history| - 1];
      LastOfHistory(history);
      assert front[..n] == history[..n];
      CacheKeeps(front, n, digest);
      OnePullKeeps(front, last, digest);
    }
  }

  lemma LastOfHistory(history: seq<Pulled>)
    requires IsHistory(history) && history != []
    ensures var front, last := history[..|history| - 1], history[|history| - 1];
            && IsHistory(front) && last.job.cache == CacheAfter(front) && Outcome(last.job, last.metas)
            && CacheAfter(history) == UpdateCache(CacheAfter(front), last.metas)
  {
    HistoryBefore(history, |history| - 1);
  }

  lemma OnePullKeeps(history: seq<Pulled>, pull: Pulled, digest: string)
    requires IsHistory(history) && digest in CacheAfter(history)
    requires pull.job.cache == CacheAfter(history) && Outcome(pull.job, pull.metas)
    ensures digest in UpdateCache(CacheAfter(history), pull.metas)
    ensures UpdateCache(CacheAfter(history), pull.metas)[digest] == CacheAfter(history)[digest]
  {
    var cache := CacheAfter(history);
    UpdateRecords(cache, pull.metas);
    ResultCarriesDigests(history, pull.job, pull.metas);
    UpdateFinds(cache, pull.metas, digest);
    forall i | 0 <= i < |pull.metas| && pull.metas[i].compressedDigest == digest
      ensures pull.metas[i] == cache[digest]
    {
      assert MetaFor(pull.job, i, pull.metas[i]);
    }
  }

  /**
   * Every layer of an earlier pull is a cache hit from then on, always with the same meta: the one
   * that pull returned for it, if its digest stands there once.
   */
  lemma EarlierLayersHit(history: seq<Pulled>, p: nat, i: nat)
    requires IsHistory(history) && p < |history| && i < |history[p].metas|
    ensures var digest := history[p].job.layers[i].digest;
            digest in CacheAfter(history) && (IsLast(history[p].metas, i) ==> CacheAfter(history)[digest] == history[p].metas[i])
  {
    var digest := history[p].job.layers[i].digest;
    HistoryBefore(history, p);
    ResultCarriesDigests(history[..p], history[p].job, history[p].metas);
    UpdateRecords(CacheAfter(history[..p]), history[p].metas);
    assert HasDigest(history[p].metas, digest);
    assert history[..p + 1][..p] == history[..p];
    CacheKeeps(history, p + 1, digest);
  }

  // ---------- a cache hit with another diff id ----------

  /** A successful pull of one layer that was not cached, with its right diff id. */
  function FirstPull(cached: LayerMeta): Pulled {
    Pulled(Job([Descriptor(cached.compressedDigest, "t")], [cached.uncompressedDigest], map[], "layers", 1), [cached])
  }

  lemma FirstPullCaches(cached: LayerMeta)
    ensures IsHistory([FirstPull(cached)])
    ensures CacheAfter([FirstPull(cached)]) == map[cached.compressedDigest := cached]
  {
    var first := FirstPull(cached);
    assert [first][..0] == [] && MetaFor(first.job, 0, cached);
    assert [cached][..0] == [];
    assert UpdateCache(map[], [cached]) == UpdateCache(map[], [])[cached.compressedDigest := cached];
  }

  /**
   * After any pull of one layer, an image that lists the same layer with any other diff id is
   * pulled with success and gets the meta of the first pull.
   */
  lemma CachedDiffIdNotChecked(cached: LayerMeta, wanted: string)
    requires wanted != cached.uncompressedDigest
    ensures var history := [FirstPull(cached)];
            var job := Job([Descriptor(cached.compressedDigest, "t")], [wanted], CacheAfter(history), "layers", 1);
            var s0 := InitialPull(job, 1);
            var s1 := s0.(tasks := [Opening], started := 1);
            var s2 := s1.(tasks := [Looking]);
            var s3 := s2.(tasks := [Finished(cached, None)], collected := [(0, cached)]);
            && IsHistory(history) && IsRun(job, [s0, s1, s2, s3], [Start, Opened(0), Look(0)], 1)
            && Succeeded(s3) && PulledMetas(s3) == [cached] && cached.uncompressedDigest != job.diffIds[0]
  {
    FirstPullCaches(cached);
    var job := Job([Descriptor(cached.compressedDigest, "t")], [wanted], CacheAfter([FirstPull(cached)]), "layers", 1);
    var s0 := InitialPull(job, 1);
    var s1 := s0.(tasks := [Opening], started := 1);
    var s2 := s1.(tasks := [Looking]);
    var s3 := s2.(tasks := [Finished(cached, None)], collected := [(0, cached)]);
    var states, steps := [s0, s1, s2, s3], [Start, Opened(0), Look(0)];
    InitialInv(job, 1);
    assert FlightSet(s0) == {};
    assert Next(job, s0, Start, s1);
    assert Next(job, s1, Opened(0), s2);
    assert s2.tasks[0 := Finished(cached, None)] == s3.tasks && s2.collected + [(0, cached)] == s3.collected;
    assert Next(job, s2, Look(0), s3);
    forall i | 0 <= i < |steps|
      ensures Next(job, states[i], steps[i], states[i + 1])
    {
      assert i == 0 || i == 1 || i == 2;
    }
    assert ToMap(s3.collected)[0] == cached;
    assert Ascending(ToMap(s3.collected), 0) == [];
  }
}
