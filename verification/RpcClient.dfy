/**
 * The cached RPC client under any number of concurrent callers: a cell behind a readers-writer
 * lock, filled on demand and emptied when a request finds its connection closed.
 */
module RpcClient {
  import opened Results

  type Caller = nat
  type Conn = nat

  /** What a caller is about to do. `retry` is set after a LocalClosed. */
  datatype Pc =
    | Check(retry: bool)                // read the cell under a read guard
    | WantWrite(retry: bool)            // wait for the write guard
    | Connecting(retry: bool)           // connect while holding the write guard
    | Request(conn: Conn, retry: bool)  // holds a clone and sends the request
    | Clear(conn: Conn)                 // found it closed; wait for the write guard to empty the cell
    | Done(ok: bool)

  /** `writer` holds the write guard between steps; `connects` numbers the connections made. */
  datatype State = State(
    client: Option<Conn>,
    writer: Option<Caller>,
    callers: map<Caller, Pc>,
    sent: map<Caller, nat>,
    connects: nat,
    clears: nat,
    closed: nat)

  datatype Action =
    | Call(c: Caller)
    | Read(c: Caller)
    | Lock(c: Caller)
    | Connected(c: Caller)
    | ConnectFailed(c: Caller)
    | Replied(c: Caller, reply: Reply)
    | Empty(c: Caller)
    | Cancel(c: Caller)

  datatype Reply = Answer | LocalClosed | OtherError

  function To(s: State, c: Caller, pc: Pc): State {
    s.(callers := s.callers[c := pc])
  }

  /** A caller that has a client sends its request. */
  function Send(s: State, c: Caller, conn: Conn, retry: bool): State
    requires c in s.sent
  {
    To(s, c, Request(conn, retry)).(sent := s.sent[c := s.sent[c] + 1])
  }

  predicate Enabled(s: State, a: Action) {
    match a
    case Call(c) => c !in s.callers
    case Read(c) => c in s.callers && c in s.sent && s.callers[c].Check? && s.writer.None?
    case Lock(c) => c in s.callers && c in s.sent && s.callers[c].WantWrite? && s.writer.None?
    case Connected(c) => c in s.callers && c in s.sent && s.callers[c].Connecting? && s.writer == Some(c)
    case ConnectFailed(c) => c in s.callers && s.callers[c].Connecting? && s.writer == Some(c)
    case Replied(c, _) => c in s.callers && s.callers[c].Request?
    case Empty(c) => c in s.callers && s.callers[c].Clear? && s.writer.None?
    case Cancel(c) => c in s.callers && !s.callers[c].Done?
  }

  function Apply(s: State, a: Action): State
    requires Enabled(s, a)
  {
    match a
    case Call(c) => To(s, c, Check(false)).(sent := s.sent[c := 0])
    case Read(c) =>
      if s.client.Some? then Send(s, c, s.client.value, s.callers[c].retry) else To(s, c, WantWrite(s.callers[c].retry))
    case Lock(c) =>
      // the cell is looked at again: another caller may have filled it meanwhile
      if s.client.Some? then Send(s, c, s.client.value, s.callers[c].retry)
      else To(s, c, Connecting(s.callers[c].retry)).(writer := Some(c))
    case Connected(c) =>
      Send(s, c, s.connects, s.callers[c].retry)
      .(client := Some(s.connects), connects := s.connects + 1, writer := None)
    case ConnectFailed(c) => To(s, c, Done(false)).(writer := None)
    case Replied(c, reply) =>
      To(s, c, if reply.Answer? then Done(true)
               else if reply.LocalClosed? && !s.callers[c].retry then Clear(s.callers[c].conn)
               else Done(false))
      .(closed := s.closed + if reply.LocalClosed? then 1 else 0)
    case Empty(c) =>
      To(s, c, Check(true)).(client := None, clears := s.clears + if s.client.Some? then 1 else 0)
    case Cancel(c) =>
      To(s, c, Done(false)).(writer := if s.writer == Some(c) then None else s.writer)
  }

  ghost predicate Next(s: State, a: Action, s': State) {
    Enabled(s, a) && s' == Apply(s, a)
  }

  const START: State := State(None, None, map[], map[], 0, 0, 0)

  // ---------- the invariant ----------

  /** Callers that have seen a LocalClosed and not emptied the cell for it yet. */
  function Clearing(s: State): set<Caller> {
    set c | c in s.callers && s.callers[c].Clear?
  }

  /** Connects less emptyings are what is cached, and every emptying had a reason. */
  ghost predicate CountsOk(s: State) {
    && s.connects == s.clears + (if s.client.Some? then 1 else 0)
    && s.clears + |Clearing(s)| <= s.closed
  }

  /** Only the caller that holds the write guard connects, and only into an empty cell. */
  predicate CellOk(s: State) {
    && (s.writer.Some? ==> s.client.None? && s.writer.value in s.callers && s.callers[s.writer.value].Connecting?)
    && (forall c <- s.callers :: s.callers[c].Connecting? ==> s.writer == Some(c))
    && (s.client.Some? ==> s.client.value == s.connects - 1)
  }

  predicate CallersOk(s: State) {
    forall c <- s.callers :: CallerOk(s.callers[c], s.connects) && c in s.sent && SentOk(s.callers[c], s.sent[c])
  }

  predicate CallerOk(pc: Pc, connects: nat) {
    pc.Request? || pc.Clear? ==> pc.conn < connects
  }

  ghost predicate Inv(s: State) {
    CountsOk(s) && CellOk(s) && CallersOk(s)
  }

  /** How many requests a caller has sent, by where it is: a second one only as a retry. */
  predicate SentOk(pc: Pc, n: nat) {
    match pc
    case Check(retry) => n == (if retry then 1 else 0)
    case WantWrite(retry) => n == (if retry then 1 else 0)
    case Connecting(retry) => n == (if retry then 1 else 0)
    case Request(_, retry) => n == (if retry then 2 else 1)
    case Clear(_) => n == 1
    case Done(_) => n <= 2
  }

  lemma ClearingAfter(s: State, c: Caller, pc: Pc, s': State)
    requires s'.callers == s.callers[c := pc]
    ensures c !in Clearing(s) && !pc.Clear? ==> Clearing(s') == Clearing(s)
    ensures c !in Clearing(s) && pc.Clear? ==> |Clearing(s')| == |Clearing(s)| + 1
    ensures c in Clearing(s) && !pc.Clear? ==> |Clearing(s')| == |Clearing(s)| - 1
  {
    if c !in Clearing(s) && !pc.Clear? {
      assert Clearing(s') == Clearing(s);
    } else if c !in Clearing(s) {
      assert Clearing(s') == Clearing(s) + {c};
    } else if !pc.Clear? {
      assert Clearing(s') == Clearing(s) - {c};
    }
  }

  lemma NextKeepsCounts(s: State, a: Action, s': State)
    requires CountsOk(s) && CellOk(s) && Next(s, a, s')
    ensures CountsOk(s')
  {
    ClearingAfter(s, a.c, s'.callers[a.c], s');
  }

  lemma NextKeepsCell(s: State, a: Action, s': State)
    requires CellOk(s) && Next(s, a, s')
    ensures CellOk(s')
  {
  }

  lemma NextKeepsCallers(s: State, a: Action, s': State)
    requires CellOk(s) && CallersOk(s) && Next(s, a, s')
    ensures CallersOk(s')
  {
    assert a.c in s.callers ==> CallerOk(s.callers[a.c], s.connects);
    forall c <- s'.callers
      ensures CallerOk(s'.callers[c], s'.connects) && c in s'.sent && SentOk(s'.callers[c], s'.sent[c])
    {
      assert c != a.c ==> CallerOk(s.callers[c], s.connects);
    }
  }

  lemma NextKeepsInv(s: State, a: Action, s': State)
    requires Inv(s) && Next(s, a, s')
    ensures Inv(s')
  {
    NextKeepsCounts(s, a, s');
    NextKeepsCell(s, a, s');
    NextKeepsCallers(s, a, s');
  }

  ghost predicate IsRun(states: seq<State>, actions: seq<Action>) {
    && |states| == |actions| + 1 && states[0] == START
    && forall i :: 0 <= i < |actions| ==> Next(states[i], actions[i], states[i + 1])
  }

  lemma {:induction false} RunKeepsInv(states: seq<State>, actions: seq<Action>, i: nat)
    requires IsRun(states, actions) && i <= |actions|
    ensures Inv(states[i])
  {
    if i == 0 {
      assert Clearing(START) == {};
    } else {
      RunKeepsInv(states, actions, i - 1);
      assert Next(states[i - 1], actions[i - 1], states[i - 1 + 1]);
      NextKeepsInv(states[i - 1], actions[i - 1], states[i]);
    }
  }

  /**
   * Conservation, for any number of callers in any order: successful connects less emptyings of a
   * full cell are one if a client is cached and none otherwise. So there are never more connects
   * than one and the LocalClosed replies, and no caller sends more than two requests, whether or not
   * they are answered.
   */
  lemma ConnectsConserved(states: seq<State>, actions: seq<Action>, i: nat)
    requires IsRun(states, actions) && i <= |actions|
    ensures states[i].connects - states[i].clears == if states[i].client.Some? then 1 else 0
    ensures states[i].connects <= 1 + states[i].closed
    ensures forall c <- states[i].callers :: c in states[i].sent && states[i].sent[c] <= 2
  {
    RunKeepsInv(states, actions, i);
    forall c <- states[i].callers
      ensures c in states[i].sent && states[i].sent[c] <= 2
    {
      assert CallerOk(states[i].callers[c], states[i].connects);
    }
  }

  /** A caller's second request is sent only after a LocalClosed reply to its first. */
  lemma SecondOnlyAfterClosed(states: seq<State>, actions: seq<Action>, i: nat, c: Caller)
    requires IsRun(states, actions) && i < |actions| && c in states[i].sent && c in states[i + 1].sent
    requires states[i].sent[c] == 1 && states[i + 1].sent[c] == 2
    ensures exists j :: 0 <= j < i && actions[j] == Replied(c, LocalClosed)
  {
    RunKeepsInv(states, actions, i);
    assert Next(states[i], actions[i], states[i + 1]);
    assert CallerOk(states[i].callers[c], states[i].connects);
    RetryHasReason(states, actions, i, c);
  }

  /** A retrying or clearing caller has had a LocalClosed reply. */
  predicate Retries(pc: Pc) {
    match pc
    case Clear(_) => true
    case Done(_) => false
    case _ => pc.retry
  }

  lemma {:induction false} RetryHasReason(states: seq<State>, actions: seq<Action>, i: nat, c: Caller)
    requires IsRun(states, actions) && i <= |actions| && c in states[i].callers && Retries(states[i].callers[c])
    ensures exists j :: 0 <= j < i && actions[j] == Replied(c, LocalClosed)
  {
    assert i > 0;
    assert Next(states[i - 1], actions[i - 1], states[i - 1 + 1]);
    if c in states[i - 1].callers && Retries(states[i - 1].callers[c]) {
      RetryHasReason(states, actions, i - 1, c);
    } else {
      assert actions[i - 1] == Replied(c, LocalClosed);
    }
  }

  /** Nobody else reads, connects or clears while one caller connects. */
  lemma ConnectExclusive(states: seq<State>, actions: seq<Action>, i: nat, c: Caller, d: Caller)
    requires IsRun(states, actions) && i <= |actions|
    requires c in states[i].callers && d in states[i].callers
    requires states[i].callers[c].Connecting? && states[i].callers[d].Connecting?
    ensures c == d && states[i].client.None?
  {
    RunKeepsInv(states, actions, i);
  }

  /** No deadlock: while some call has not ended, some caller can go on without being cancelled. */
  lemma NeverStuck(states: seq<State>, actions: seq<Action>, i: nat, c: Caller) returns (a: Action)
    requires IsRun(states, actions) && i <= |actions| && c in states[i].callers && !states[i].callers[c].Done?
    ensures Enabled(states[i], a) && !a.Cancel? && !a.Call?
  {
    RunKeepsInv(states, actions, i);
    var s := states[i];
    assert CallerOk(s.callers[c], s.connects);
    if s.writer.Some? {
      assert CallerOk(s.callers[s.writer.value], s.connects);
      a := Connected(s.writer.value);
    } else if s.callers[c].Check? {
      a := Read(c);
    } else if s.callers[c].WantWrite? {
      a := Lock(c);
    } else if s.callers[c].Request? {
      a := Replied(c, Answer);
    } else {
      a := Empty(c);
    }
  }

  // ---------- what a call returns ----------

  /**
   * A call succeeds with a reply exactly if the reply is an answer. A LocalClosed reply to its first
   * request does not end it; any other reply that is no answer ends it with an error.
   */
  lemma ReplyDecides(states: seq<State>, actions: seq<Action>, i: nat, c: Caller, reply: Reply)
    requires IsRun(states, actions) && i < |actions| && actions[i] == Replied(c, reply)
    ensures c in states[i].callers && c in states[i].sent && states[i].callers[c].Request? && c in states[i + 1].callers
    ensures states[i + 1].callers[c] == Done(true) <==> reply == Answer
    ensures states[i + 1].callers[c] == Clear(states[i].callers[c].conn) <==> reply == LocalClosed && states[i].sent[c] == 1
    ensures states[i + 1].callers[c] == Done(false) <==>
            reply == OtherError || (reply == LocalClosed && states[i].sent[c] == 2)
  {
    RunKeepsInv(states, actions, i);
    assert Next(states[i], actions[i], states[i + 1]);
    assert CallerOk(states[i].callers[c], states[i].connects);
  }

  /** A call that has succeeded has been answered. */
  lemma {:induction false} SuccessWasAnswered(states: seq<State>, actions: seq<Action>, i: nat, c: Caller)
    requires IsRun(states, actions) && i <= |actions| && c in states[i].callers && states[i].callers[c] == Done(true)
    ensures exists j :: 0 <= j < i && actions[j] == Replied(c, Answer)
  {
    assert i > 0;
    assert Next(states[i - 1], actions[i - 1], states[i - 1 + 1]);
    if c in states[i - 1].callers && states[i - 1].callers[c] == Done(true) {
      SuccessWasAnswered(states, actions, i - 1, c);
    } else {
      assert actions[i - 1] == Replied(c, Answer);
    }
  }

  /** What ends a call: a reply, a failed connect, or its caller giving up. */
  lemma EndsOnlyBy(states: seq<State>, actions: seq<Action>, i: nat, c: Caller)
    requires IsRun(states, actions) && i < |actions| && c in states[i].callers && !states[i].callers[c].Done?
    requires c in states[i + 1].callers && states[i + 1].callers[c].Done?
    ensures (actions[i].Replied? && actions[i].c == c) || actions[i] == ConnectFailed(c) || actions[i] == Cancel(c)
    ensures states[i + 1].callers[c].ok <==> actions[i] == Replied(c, Answer)
  {
    assert Next(states[i], actions[i], states[i + 1]);
  }

  /**
   * A request goes out on the connection in the cell: the one that was there already, or the one
   * just made for it, which nobody has used before.
   */
  lemma SendsOnCached(states: seq<State>, actions: seq<Action>, i: nat, c: Caller)
    requires IsRun(states, actions) && i < |actions| && c in states[i + 1].callers && states[i + 1].callers[c].Request?
    requires c in states[i].callers ==> !states[i].callers[c].Request?
    ensures states[i + 1].client == Some(states[i + 1].callers[c].conn)
    ensures actions[i] in {Read(c), Lock(c), Connected(c)}
    ensures actions[i] != Connected(c) ==> states[i].client == states[i + 1].client
    ensures actions[i] == Connected(c) ==>
              forall d <- states[i].callers :: states[i].callers[d].Request? ==>
                states[i].callers[d].conn < states[i + 1].callers[c].conn
  {
    RunKeepsInv(states, actions, i);
    assert Next(states[i], actions[i], states[i + 1]);
    forall d <- states[i].callers | states[i].callers[d].Request?
      ensures states[i].callers[d].conn < states[i].connects
    {
      assert CallerOk(states[i].callers[d], states[i].connects);
    }
  }

  // ---------- a late LocalClosed ----------

  lemma {:induction false} ConnectsGrow(states: seq<State>, actions: seq<Action>, j: nat, i: nat)
    requires IsRun(states, actions) && j <= i <= |actions|
    ensures states[j].connects <= states[i].connects
  {
    if j < i {
      ConnectsGrow(states, actions, j, i - 1);
      assert Next(states[i - 1], actions[i - 1], states[i - 1 + 1]);
    }
  }

  /** The step that made connection `conn`. */
  lemma {:induction false} MadeAt(states: seq<State>, actions: seq<Action>, i: nat, conn: Conn) returns (j: nat)
    requires IsRun(states, actions) && i <= |actions| && conn < states[i].connects
    ensures j < i && actions[j].Connected? && states[j].connects == conn && states[j + 1].connects == conn + 1
  {
    assert i > 0;
    assert Next(states[i - 1], actions[i - 1], states[i - 1 + 1]);
    if conn < states[i - 1].connects {
      j := MadeAt(states, actions, i - 1, conn);
    } else {
      j := i - 1;
    }
  }

  /** Connection `conn` was the newest at `k`, and one was made between there and `i`. */
  predicate Superseded(states: seq<State>, actions: seq<Action>, conn: Conn, k: nat, j: nat, i: nat) {
    |states| == |actions| + 1 && k <= j < i <= |actions| && states[k].connects == conn + 1 && actions[j].Connected?
  }

  /**
   * The emptying does not look at which client it throws away. In every run, a caller that empties
   * a full cell drops another connection than the one it found closed exactly when one was made
   * since its own was the newest.
   */
  lemma FreshClientDiscardedIff(states: seq<State>, actions: seq<Action>, i: nat, c: Caller)
    requires IsRun(states, actions) && i < |actions| && actions[i] == Empty(c) && states[i].client.Some?
    ensures states[i + 1].client.None? && c in states[i].callers && states[i].callers[c].Clear?
    ensures states[i].client.value != states[i].callers[c].conn <==>
            exists k, j :: Superseded(states, actions, states[i].callers[c].conn, k, j, i)
  {
    RunKeepsInv(states, actions, i);
    assert Next(states[i], actions[i], states[i + 1]);
    var conn := states[i].callers[c].conn;
    if conn + 1 < states[i].connects {
      var j := MadeAt(states, actions, i, conn + 1);
      assert Superseded(states, actions, conn, j, j, i);
    }
    forall k: nat, j: nat | Superseded(states, actions, conn, k, j, i)
      ensures conn + 1 < states[i].connects
    {
      ConnectsGrow(states, actions, k, j);
      assert Next(states[j], actions[j], states[j + 1]);
      ConnectsGrow(states, actions, j + 1, i);
    }
  }

  /** Whether three actions are possible in a row, and where they lead. */
  predicate Leads(s: State, a: Action, b: Action, c: Action, s': State) {
    && Enabled(s, a) && Enabled(Apply(s, a), b) && Enabled(Apply(Apply(s, a), b), c)
    && s' == Apply(Apply(Apply(s, a), b), c)
  }

  /**
   * This does happen. Two callers share connection 0 and both find it closed; the first has
   * connected again before the second empties the cell, and the new connection 1 is gone.
   */
  lemma FreshClientDiscarded() returns (s1: State, s2: State, s3: State, s4: State)
    ensures Leads(START, Call(0), Read(0), Lock(0), s1)
    ensures Leads(s1, Connected(0), Call(1), Read(1), s2)
    ensures Leads(s2, Replied(0, LocalClosed), Empty(0), Read(0), s3)
    ensures Leads(s3, Lock(0), Connected(0), Replied(1, LocalClosed), s4)
    ensures s4.client == Some(1) && 1 in s4.callers && s4.callers[1] == Clear(0)
    ensures Enabled(s4, Empty(1)) && Apply(s4, Empty(1)).client == None
  {
    s1 := FirstLocks();
    s2 := BothShareOne(s1);
    s3 := FirstClears(s2);
    s4 := SecondIsLate(s3);
  }

  lemma FirstLocks() returns (s: State)
    ensures Leads(START, Call(0), Read(0), Lock(0), s)
    ensures s == State(None, Some(0), map[0 := Connecting(false)], map[0 := 0], 0, 0, 0)
  {
    s := Apply(Apply(Apply(START, Call(0)), Read(0)), Lock(0));
    assert s.callers == map[0 := Connecting(false)];
  }

  lemma BothShareOne(s1: State) returns (s: State)
    requires s1 == State(None, Some(0), map[0 := Connecting(false)], map[0 := 0], 0, 0, 0)
    ensures Leads(s1, Connected(0), Call(1), Read(1), s)
    ensures s == State(Some(0), None, map[0 := Request(0, false), 1 := Request(0, false)], map[0 := 1, 1 := 1], 1, 0, 0)
  {
    s := Apply(Apply(Apply(s1, Connected(0)), Call(1)), Read(1));
    assert s.callers == map[0 := Request(0, false), 1 := Request(0, false)];
    assert s.sent == map[0 := 1, 1 := 1];
  }

  lemma FirstClears(s2: State) returns (s: State)
    requires s2 == State(Some(0), None, map[0 := Request(0, false), 1 := Request(0, false)], map[0 := 1, 1 := 1], 1, 0, 0)
    ensures Leads(s2, Replied(0, LocalClosed), Empty(0), Read(0), s)
    ensures s == State(None, None, map[0 := WantWrite(true), 1 := Request(0, false)], map[0 := 1, 1 := 1], 1, 1, 1)
  {
    s := Apply(Apply(Apply(s2, Replied(0, LocalClosed)), Empty(0)), Read(0));
    assert s.callers == map[0 := WantWrite(true), 1 := Request(0, false)];
  }

  lemma SecondIsLate(s3: State) returns (s: State)
    requires s3 == State(None, None, map[0 := WantWrite(true), 1 := Request(0, false)], map[0 := 1, 1 := 1], 1, 1, 1)
    ensures Leads(s3, Lock(0), Connected(0), Replied(1, LocalClosed), s)
    ensures s.client == Some(1) && 1 in s.callers && s.callers[1] == Clear(0)
    ensures Enabled(s, Empty(1)) && Apply(s, Empty(1)).client == None
  {
    s := Apply(Apply(Apply(s3, Lock(0)), Connected(0)), Replied(1, LocalClosed));
  }
}
