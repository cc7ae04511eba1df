/** Many callers of Set, the one worker, and the other users of the mutex, interleaved step by step:
    a bounded queue into the worker, a reply channel of capacity one for each item, and the mutex. */
module SetProtocol {
  import opened Keys
  import opened Items
  import opened FileSystem

  const CAPACITY: nat := 100

  /** A call of Set, from its push on, or of another operation that only takes the mutex. */
  datatype Phase =
    | Pushing      // at the send into the queue
    | Waiting      // at the receive from the item's reply channel
    | Locking      // at c.mu.Lock
    | Holding      // between Lock and the deferred Unlock
    | Finished

  /** What a Set is to store. */
  datatype Job = Job(key: Key, ttl: int, value: seq<byte>)

  datatype Kind = SetCall(job: Job) | OtherCall

  /** What `write` sends: no error, or the error. */
  type WriteReply = Option<WriteError>

  /** `reply` is the item's channel; `sent` counts what the worker has sent on it, `received` what Set has read. */
  datatype Call = Call(kind: Kind, phase: Phase, reply: Option<WriteReply>, sent: nat, received: nat)

  /** While it writes an item the worker has `left` to send, in this order, before it selects again. */
  datatype Worker = Selecting | Writing(item: nat, left: seq<WriteReply>) | TickLocking | Sweeping

  datatype Owner = ByCall(id: nat) | ByWorker

  datatype System = System(calls: seq<Call>, queue: seq<nat>, worker: Worker, mutex: Option<Owner>)

  /** The first three come from outside; the others serve what is under way. The worker writes an item,
      to whatever files there are then, when it takes it from the queue. */
  datatype Step =
    | StartSet(job: Job)
    | StartOther
    | Tick
    | Push(id: nat)
    | Take(fs: FS, dir: Path)
    | Reply
    | Receive(id: nat)
    | Lock(id: nat)
    | Unlock(id: nat)
    | TickLock
    | TickDone

  predicate FromOutside(e: Step) {
    e.StartSet? || e.StartOther? || e.Tick?
  }

  predicate InPhase(s: System, id: nat, p: Phase) {
    id < |s.calls| && s.calls[id].phase == p
  }

  predicate Enabled(s: System, e: Step) {
    match e
    case StartSet(_) => true
    case StartOther => true
    case Tick => s.worker.Selecting?
    case Push(i) => InPhase(s, i, Pushing) && |s.queue| < CAPACITY
    case Take(_, _) => s.worker.Selecting? && s.queue != [] && s.queue[0] < |s.calls|
                       && s.calls[s.queue[0]].kind.SetCall?
    case Reply => s.worker.Writing? && s.worker.left != [] && s.worker.item < |s.calls|
                  && s.calls[s.worker.item].reply.None?
    case Receive(i) => InPhase(s, i, Waiting) && s.calls[i].reply.Some?
    case Lock(i) => InPhase(s, i, Locking) && s.mutex.None?
    case Unlock(i) => InPhase(s, i, Holding)
    case TickLock => s.worker.TickLocking? && s.mutex.None?
    case TickDone => s.worker.Sweeping?
  }

  function At(s: System, i: nat, c: Call): System
    requires i < |s.calls|
  {
    s.(calls := s.calls[i := c])
  }

  /** All that the write of an item sends on its channel. */
  ghost function Sent(fs: FS, dir: Path, job: Job): seq<WriteReply> {
    WriteItem(fs, dir, HashOf(job.key), job.key, job.ttl, job.value).1
  }

  ghost function Next(s: System, e: Step): System
    requires Enabled(s, e)
  {
    match e
    case StartSet(job) => s.(calls := s.calls + [Call(SetCall(job), Pushing, None, 0, 0)])
    case StartOther => s.(calls := s.calls + [Call(OtherCall, Locking, None, 0, 0)])
    case Tick => s.(worker := TickLocking)
    case Push(i) => At(s, i, s.calls[i].(phase := Waiting)).(queue := s.queue + [i])
    case Take(fs, dir) =>
      var i := s.queue[0];
      s.(queue := s.queue[1..], worker := Writing(i, Sent(fs, dir, s.calls[i].kind.job)))
    case Reply =>
      var i, left := s.worker.item, s.worker.left;
      At(s, i, s.calls[i].(reply := Some(left[0]), sent := s.calls[i].sent + 1))
      .(worker := if |left| == 1 then Selecting else Writing(i, left[1..]))
    case Receive(i) =>
      // a failed write makes Set return without taking the lock
      At(s, i, s.calls[i].(reply := None, received := s.calls[i].received + 1,
                           phase := if s.calls[i].reply.value.None? then Locking else Finished))
    case Lock(i) => At(s, i, s.calls[i].(phase := Holding)).(mutex := Some(ByCall(i)))
    case Unlock(i) => At(s, i, s.calls[i].(phase := Finished)).(mutex := None)
    case TickLock => s.(worker := Sweeping, mutex := Some(ByWorker))
    case TickDone => s.(worker := Selecting, mutex := None)
  }

  const INITIAL := System([], [], Selecting, None)

  ghost predicate IsRun(s: System, run: seq<Step>)
    decreases |run|
  {
    run == [] || (Enabled(s, run[0]) && IsRun(Next(s, run[0]), run[1..]))
  }

  ghost function After(s: System, run: seq<Step>): System
    requires IsRun(s, run)
    decreases |run|
  {
    if run == [] then s else After(Next(s, run[0]), run[1..])
  }

  // ---------------------------------------------------------------- the invariant

  /** What `newItem` lets through: no ttl of a second or less reaches the queue. */
  predicate Admitted(e: Step) {
    e.StartSet? ==> e.job.ttl > SECOND
  }

  predicate AllAdmitted(run: seq<Step>) {
    forall i :: 0 <= i < |run| ==> Admitted(run[i])
  }

  /** The write of an item sends exactly one reply if its ttl is longer than a second, and two otherwise. */
  lemma RepliesSent(fs: FS, dir: Path, job: Job)
    ensures |Sent(fs, dir, job)| == if job.ttl > SECOND then 1 else 2
    ensures job.ttl <= SECOND ==> Sent(fs, dir, job)[0] == Some(StillTooShort)
  {
    hide MkdirAll, Create, Append, ItemDir, ItemPath, HashOf;
  }

  /** A Set that has had its reply. */
  predicate Answered(c: Call) {
    c.kind.SetCall? && c.phase != Pushing && c.phase != Waiting
  }

  /** Where the reply to a waiting call is: still to be written, being written, or in its channel. */
  predicate Owed(s: System, i: nat) {
    i in s.queue || (s.worker.Writing? && s.worker.item == i)
  }

  predicate CallSound(s: System, i: nat)
    requires i < |s.calls|
  {
    var c := s.calls[i];
    && (Owed(s, i) ==> c.phase == Waiting && c.reply.None?)
    && (c.reply.Some? ==> c.phase == Waiting)
    && (c.kind.SetCall? ==> c.kind.job.ttl > SECOND)
    && (c.phase == Waiting ==> c.kind.SetCall? && c.received == 0 && (Owed(s, i) || c.reply.Some?))
    && (c.phase == Pushing ==> c.kind.SetCall? && c.sent == 0)
    && c.sent == c.received + (if c.reply.Some? then 1 else 0)
    && (Answered(c) ==> c.received == 1)
    && (c.kind.OtherCall? ==> c.received == 0)
    && (c.phase == Holding <==> s.mutex == Some(ByCall(i)))
  }

  predicate Distinct(q: seq<nat>) {
    forall i, j :: 0 <= i < j < |q| ==> q[i] != q[j]
  }

  predicate Inv(s: System) {
    && |s.queue| <= CAPACITY && Distinct(s.queue)
    && (s.worker.Writing? ==> s.worker.item < |s.calls| && s.worker.item !in s.queue && |s.worker.left| == 1)
    && (forall i :: i in s.queue ==> i < |s.calls|)
    && (s.worker.Sweeping? <==> s.mutex == Some(ByWorker))
    && (s.mutex.Some? && s.mutex.value.ByCall? ==> s.mutex.value.id < |s.calls|)
    && (forall i: nat :: i < |s.calls| ==> CallSound(s, i))
  }

  lemma QueueEnds(q: seq<nat>, i: nat)
    requires Distinct(q)
    ensures i !in q ==> Distinct(q + [i])
    ensures forall j :: j in q + [i] <==> j in q || j == i
    ensures q != [] ==> Distinct(q[1..]) && q[0] !in q[1..] && forall j :: j in q <==> j == q[0] || j in q[1..]
  {
    if q != [] {
      assert q == [q[0]] + q[1..];
    }
  }

  predicate ByCaller(e: Step) {
    e.Push? || e.Receive? || e.Lock? || e.Unlock?
  }

  lemma CallKeptByCaller(s: System, e: Step, j: nat)
    requires Inv(s) && Enabled(s, e) && ByCaller(e) && j < |s.calls|
    ensures CallSound(Next(s, e), j)
  {
    QueueEnds(s.queue, e.id);
    assert CallSound(s, e.id) && CallSound(s, j);
  }

  lemma CallKeptByOthers(s: System, e: Step, j: nat)
    requires Inv(s) && Enabled(s, e) && Admitted(e) && !ByCaller(e) && j < |Next(s, e).calls|
    ensures CallSound(Next(s, e), j)
  {
    hide Sent;
    QueueEnds(s.queue, 0);
    if j < |s.calls| {
      assert CallSound(s, j);
    }
  }

  lemma StepKeeps(s: System, e: Step)
    requires Inv(s) && Enabled(s, e) && Admitted(e)
    ensures Inv(Next(s, e))
  {
    hide Sent;
    if e.Take? {
      assert CallSound(s, s.queue[0]);
      RepliesSent(e.fs, e.dir, s.calls[s.queue[0]].kind.job);
    }
    QueueEnds(s.queue, if e.Push? then e.id else 0);
    if ByCaller(e) {
      assert CallSound(s, e.id);
    }
    forall j: nat | j < |Next(s, e).calls| ensures CallSound(Next(s, e), j) {
      if ByCaller(e) {
        CallKeptByCaller(s, e, j);
      } else {
        CallKeptByOthers(s, e, j);
      }
    }
  }

  lemma {:induction false} RunKeeps(s: System, run: seq<Step>)
    requires Inv(s) && IsRun(s, run) && AllAdmitted(run)
    ensures Inv(After(s, run))
    decreases |run|
  {
    if run == [] {
    } else {
      StepKeeps(s, run[0]);
      RunKeeps(Next(s, run[0]), run[1..]);
    }
  }

  // ---------------------------------------------------------------- what holds in every interleaving

  /** Whatever the interleaving of calls that newItem admits: the worker's send finds the channel empty; nobody waits
      for the queue or for a reply with the mutex held; each Set has been sent one reply at most, and one that is past
      its wait was sent, and received, exactly one. */
  lemma Safety(run: seq<Step>)
    requires IsRun(INITIAL, run) && AllAdmitted(run)
    ensures var s := After(INITIAL, run);
            && (s.worker.Writing? ==> Enabled(s, Reply))
            && (forall i: nat :: i < |s.calls| && s.mutex == Some(ByCall(i)) ==> s.calls[i].phase == Holding)
            && (s.mutex == Some(ByWorker) ==> s.worker.Sweeping?)
            && (forall i: nat :: i < |s.calls| ==> s.calls[i].sent <= 1)
            && (forall i: nat :: i < |s.calls| && Answered(s.calls[i]) ==> s.calls[i].sent == s.calls[i].received == 1)
            && |s.queue| <= 100
  {
    assert Inv(INITIAL);
    RunKeeps(INITIAL, run);
    var s := After(INITIAL, run);
    if s.worker.Writing? {
      assert CallSound(s, s.worker.item) && Owed(s, s.worker.item);
    }
    forall i: nat | i < |s.calls|
      ensures s.calls[i].sent <= 1
      ensures Answered(s.calls[i]) ==> s.calls[i].sent == s.calls[i].received == 1
      ensures s.mutex == Some(ByCall(i)) ==> s.calls[i].phase == Holding
    {
      assert CallSound(s, i);
    }
  }

  /** The worker is at a send and the channel is full. */
  ghost predicate Blocked(s: System) {
    s.worker.Writing? && s.worker.item < |s.calls| && s.calls[s.worker.item].reply.Some?
  }

  /** Every ttl pushed in the run is one of these. */
  ghost predicate PushesOnly(run: seq<Step>, ttls: iset<int>) {
    forall i :: 0 <= i < |run| && run[i].StartSet? ==> run[i].job.ttl in ttls
  }

  lemma NotBlocked(s: System)
    requires s.worker.Writing? ==> Enabled(s, Reply)
    ensures !Blocked(s)
  {
  }

  lemma RunOf(s: System, e: Step, rest: seq<Step>)
    requires Enabled(s, e) && IsRun(Next(s, e), rest)
    ensures IsRun(s, [e] + rest) && After(s, [e] + rest) == After(Next(s, e), rest)
  {
    assert ([e] + rest)[1..] == rest;
  }

  /** One Set with a ttl this short is enough: its second reply finds the first one still in the channel. */
  lemma BlockingRun(t: int) returns (run: seq<Step>)
    requires t <= SECOND
    ensures IsRun(INITIAL, run) && Blocked(After(INITIAL, run))
    ensures forall i :: 0 <= i < |run| && run[i].StartSet? ==> run[i].job.ttl == t
  {
    hide Sent;
    var fs, job := FS(map[], {}), Job([97, 97], t, []);
    RepliesSent(fs, [], job);
    var s1 := Next(INITIAL, StartSet(job));
    var s2 := Next(s1, Push(0));
    var s3 := Next(s2, Take(fs, []));
    var s4 := Next(s3, Reply);
    assert Blocked(s4);
    RunOf(s3, Reply, []);
    RunOf(s2, Take(fs, []), [Reply]);
    RunOf(s1, Push(0), [Take(fs, []), Reply]);
    RunOf(INITIAL, StartSet(job), [Push(0), Take(fs, []), Reply]);
    run := [StartSet(job), Push(0), Take(fs, []), Reply];
    assert [StartSet(job)] + [Push(0), Take(fs, []), Reply] == run;
    assert [Push(0)] + [Take(fs, []), Reply] == [Push(0), Take(fs, []), Reply];
    assert [Take(fs, [])] + [Reply] == [Take(fs, []), Reply];
  }

  /** What newItem's check is for: given the ttls that may be pushed, the worker never finds a channel full, in any
      interleaving, if and only if all of them are longer than a second. */
  lemma NeverBlockedIff(ttls: iset<int>)
    ensures (forall run :: IsRun(INITIAL, run) && PushesOnly(run, ttls) ==> !Blocked(After(INITIAL, run)))
            <==> (forall t :: t in ttls ==> t > SECOND)
  {
    hide IsRun, After, Blocked, Enabled, Next;
    if t :| t in ttls && t <= SECOND {
      var run := BlockingRun(t);
      assert PushesOnly(run, ttls) && IsRun(INITIAL, run) && Blocked(After(INITIAL, run));
    } else {
      forall run | IsRun(INITIAL, run) && PushesOnly(run, ttls) ensures !Blocked(After(INITIAL, run)) {
        assert AllAdmitted(run);
        Safety(run);
        NotBlocked(After(INITIAL, run));
      }
    }
  }

  // ---------------------------------------------------------------- progress

  function Rank(p: Phase): nat {
    match p
    case Pushing => 7
    case Waiting => 3
    case Locking => 2
    case Holding => 1
    case Finished => 0
  }

  function Ranks(calls: seq<Call>): nat {
    if calls == [] then 0 else Ranks(calls[..|calls| - 1]) + Rank(calls[|calls| - 1].phase)
  }

  /** The steps still to be served. */
  function Work(s: System): nat {
    Ranks(s.calls) + 2 * |s.queue|
    + match s.worker
      case Selecting => 0
      case Writing(_, left) => |left|
      case TickLocking => 2
      case Sweeping => 1
  }

  lemma {:induction false} RanksUpdate(calls: seq<Call>, i: nat, c: Call)
    requires i < |calls|
    ensures Ranks(calls[i := c]) == Ranks(calls) - Rank(calls[i].phase) + Rank(c.phase)
  {
    var n := |calls| - 1;
    if i < n {
      assert calls[i := c][..n] == calls[..n][i := c];
      RanksUpdate(calls[..n], i, c);
    } else {
      assert calls[i := c][..n] == calls[..n];
    }
  }

  lemma CallerReducesWork(s: System, e: Step)
    requires Inv(s) && Enabled(s, e) && ByCaller(e)
    ensures Work(Next(s, e)) < Work(s)
  {
    hide CallSound;
    RanksUpdate(s.calls, e.id, Next(s, e).calls[e.id]);
  }

  lemma WorkerReducesWork(s: System, e: Step)
    requires Inv(s) && Enabled(s, e) && !ByCaller(e) && !FromOutside(e)
    ensures Work(Next(s, e)) < Work(s)
  {
    hide Sent;
    if e.Take? {
      assert CallSound(s, s.queue[0]);
      RepliesSent(e.fs, e.dir, s.calls[s.queue[0]].kind.job);
    } else if e.Reply? {
      RanksUpdate(s.calls, s.worker.item, Next(s, e).calls[s.worker.item]);
    }
  }

  lemma ServiceReducesWork(s: System, e: Step)
    requires Inv(s) && Enabled(s, e) && !FromOutside(e)
    ensures Work(Next(s, e)) < Work(s)
  {
    hide Inv, Work, Enabled;
    if ByCaller(e) {
      CallerReducesWork(s, e);
    } else {
      WorkerReducesWork(s, e);
    }
  }

  ghost predicate Served(s: System) {
    s.worker.Selecting? && forall i: nat :: i < |s.calls| ==> s.calls[i].phase == Finished
  }

  /** While anything is unfinished, some step that serves it can be taken. */
  lemma SomeStepServes(s: System) returns (e: Step)
    requires Inv(s) && !Served(s)
    ensures Enabled(s, e) && !FromOutside(e)
  {
    if s.mutex.Some? {
      // the mutex is held: its holder can give it back
      if s.mutex.value.ByWorker? {
        return TickDone;
      }
      assert CallSound(s, s.mutex.value.id);
      return Unlock(s.mutex.value.id);
    }
    match s.worker {
      case Writing(i, _) =>
        assert CallSound(s, i) && Owed(s, i);
        return Reply;
      case TickLocking => return TickLock;
      case Sweeping => return TickDone;
      case Selecting =>
        if s.queue != [] {
          assert s.queue[0] in s.queue;
          assert CallSound(s, s.queue[0]) && Owed(s, s.queue[0]);
          return Take(FS(map[], {}), []);
        }
        var i: nat :| i < |s.calls| && s.calls[i].phase != Finished;
        assert CallSound(s, i);
        match s.calls[i].phase {
          case Pushing => return Push(i);
          case Waiting => return Receive(i);
          case _ => return Lock(i);
        }
    }
  }

  /** From any state reached, serving steps alone, in any order they come, are at most Work(s) many. */
  lemma {:induction false} ServiceIsBounded(s: System, run: seq<Step>)
    requires Inv(s) && IsRun(s, run) && forall i :: 0 <= i < |run| ==> !FromOutside(run[i])
    ensures |run| <= Work(s) - Work(After(s, run))
    decreases |run|
  {
    if run == [] {
    } else {
      ServiceReducesWork(s, run[0]);
      StepKeeps(s, run[0]);
      ServiceIsBounded(Next(s, run[0]), run[1..]);
    }
  }

  /** Every call under way returns: from any state reached, serving steps lead to one where all calls have returned,
      and each Set among them was sent exactly the one reply it received. */
  lemma AllReturn(s: System) returns (run: seq<Step>)
    requires Inv(s)
    ensures IsRun(s, run) && Inv(After(s, run)) && Served(After(s, run)) && |run| <= Work(s)
    ensures forall i :: 0 <= i < |run| ==> !FromOutside(run[i])
    ensures forall i: nat :: i < |After(s, run).calls| && After(s, run).calls[i].kind.SetCall? ==>
              After(s, run).calls[i].sent == After(s, run).calls[i].received == 1
    decreases Work(s)
  {
    if Served(s) {
      forall i: nat | i < |s.calls| && s.calls[i].kind.SetCall? ensures s.calls[i].sent == s.calls[i].received == 1 {
        assert CallSound(s, i);
      }
      return [];
    }
    var e := SomeStepServes(s);
    ServiceReducesWork(s, e);
    StepKeeps(s, e);
    var rest := AllReturn(Next(s, e));
    run := [e] + rest;
    assert run[1..] == rest;
  }
}
