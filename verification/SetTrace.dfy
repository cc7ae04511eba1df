/** The protocol of Set as its steps alone tell it: whose reply is whose, and which Sets take the mutex. */
module SetTrace {
  import opened Keys
  import opened FileSystem
  import opened SetProtocol

  lemma {:induction false} LastStep(s: System, run: seq<Step>)
    requires IsRun(s, run) && run != []
    ensures var before, e := run[..|run| - 1], run[|run| - 1];
            IsRun(s, before) && Enabled(After(s, before), e) && After(s, run) == Next(After(s, before), e)
    decreases |run|
  {
    hide Next, Enabled;
    if |run| == 1 {
    } else {
      LastStep(Next(s, run[0]), run[1..]);
      assert run[..|run| - 1][1..] == run[1..][..|run| - 2];
    }
  }

  lemma {:induction false} RunThen(s: System, a: seq<Step>, b: seq<Step>)
    requires IsRun(s, a) && IsRun(After(s, a), b)
    ensures IsRun(s, a + b) && After(s, a + b) == After(After(s, a), b)
    decreases |a|
  {
    hide Next, Enabled;
    if a == [] {
      assert a + b == b;
    } else {
      RunThen(Next(s, a[0]), a[1..], b);
      assert (a + b)[1..] == a[1..] + b;
    }
  }

  // ---------------------------------------------------------------- whose reply it is

  /** The calls that were started, in order. */
  function Started(run: seq<Step>): seq<Kind> {
    if run == [] then []
    else
      var e := run[|run| - 1];
      Started(run[..|run| - 1]) + if e.StartSet? then [SetCall(e.job)] else if e.StartOther? then [OtherCall] else []
  }

  /** The calls whose items were pushed, in order. */
  function Pushed(run: seq<Step>): seq<nat> {
    if run == [] then []
    else Pushed(run[..|run| - 1]) + if run[|run| - 1].Push? then [run[|run| - 1].id] else []
  }

  /** The worker's takes from the queue, in order. */
  function Taken(run: seq<Step>): (ts: seq<Step>)
    ensures forall n :: 0 <= n < |ts| ==> ts[n].Take?
  {
    if run == [] then []
    else Taken(run[..|run| - 1]) + if run[|run| - 1].Take? then [run[|run| - 1]] else []
  }

  /** The n-th take is for call i, and its write sent r: what is pushed first is taken first. */
  ghost predicate SentAt(run: seq<Step>, n: nat, i: nat, r: WriteReply) {
    && n < |Taken(run)| && n < |Pushed(run)| && Pushed(run)[n] == i
    && i < |Started(run)| && Started(run)[i].SetCall?
    && Sent(Taken(run)[n].fs, Taken(run)[n].dir, Started(run)[i].job) == [r]
  }

  ghost predicate Sends(run: seq<Step>, i: nat, r: WriteReply) {
    exists n :: SentAt(run, n, i, r)
  }

  /** The queue holds what was pushed and not taken, in order. */
  ghost predicate QueueTraced(run: seq<Step>, s: System) {
    |Taken(run)| <= |Pushed(run)| && Pushed(run)[|Taken(run)|..] == s.queue
  }

  ghost predicate CallsTraced(run: seq<Step>, s: System) {
    |s.calls| == |Started(run)| && forall i :: 0 <= i < |s.calls| ==> s.calls[i].kind == Started(run)[i]
  }

  /** Every reply under way is what the write of the call's item sent. */
  ghost predicate RepliesTraced(run: seq<Step>, s: System) {
    && (s.worker.Writing? ==> |s.worker.left| == 1 && Sends(run, s.worker.item, s.worker.left[0]))
    && (forall i: nat :: i < |s.calls| && s.calls[i].reply.Some? ==> Sends(run, i, s.calls[i].reply.value))
  }

  /** What was sent stays sent. */
  lemma SendsOn(run: seq<Step>, i: nat, r: WriteReply)
    requires run != [] && Sends(run[..|run| - 1], i, r)
    ensures Sends(run, i, r)
  {
    hide Sent;
    var before := run[..|run| - 1];
    var n :| SentAt(before, n, i, r);
    assert SentAt(run, n, i, r);
  }

  lemma QueueOn(run: seq<Step>, s: System)
    requires run != [] && QueueTraced(run[..|run| - 1], s) && Enabled(s, run[|run| - 1])
    ensures QueueTraced(run, Next(s, run[|run| - 1]))
  {
    hide Sent;
  }

  lemma CallsOn(run: seq<Step>, s: System)
    requires run != [] && CallsTraced(run[..|run| - 1], s) && Enabled(s, run[|run| - 1])
    ensures CallsTraced(run, Next(s, run[|run| - 1]))
  {
    hide Sent;
  }

  lemma NewTake(run: seq<Step>, s: System)
    requires run != [] && QueueTraced(run[..|run| - 1], s) && CallsTraced(run[..|run| - 1], s) && Inv(s)
    requires run[|run| - 1].Take? && Enabled(s, run[|run| - 1])
    ensures var w := Next(s, run[|run| - 1]).worker; |w.left| == 1 && Sends(run, w.item, w.left[0])
  {
    hide Sent;
    var before, e := run[..|run| - 1], run[|run| - 1];
    var i, n := s.queue[0], |Taken(before)|;
    assert Pushed(before)[n..][0] == i && CallSound(s, i);
    RepliesSent(e.fs, e.dir, s.calls[i].kind.job);
    var sent := Sent(e.fs, e.dir, s.calls[i].kind.job);
    assert sent == [sent[0]] && Taken(run)[n] == e;
    assert SentAt(run, n, i, sent[0]);
  }

  lemma RepliesOn(run: seq<Step>, s: System)
    requires run != [] && RepliesTraced(run[..|run| - 1], s) && Enabled(s, run[|run| - 1])
    requires var w := Next(s, run[|run| - 1]).worker;
             run[|run| - 1].Take? ==> |w.left| == 1 && Sends(run, w.item, w.left[0])
    ensures RepliesTraced(run, Next(s, run[|run| - 1]))
  {
    hide Sends, Sent;
    var before, e := run[..|run| - 1], run[|run| - 1];
    forall i: nat, r | Sends(before, i, r) ensures Sends(run, i, r) {
      SendsOn(run, i, r);
    }
  }

  lemma {:induction false} AlwaysTraced(run: seq<Step>)
    requires IsRun(INITIAL, run) && AllAdmitted(run)
    ensures var s := After(INITIAL, run);
            Inv(s) && QueueTraced(run, s) && CallsTraced(run, s) && RepliesTraced(run, s)
    decreases |run|
  {
    if run == [] {
      assert Inv(INITIAL);
    } else {
      hide IsRun, After, Inv, QueueTraced, CallsTraced, RepliesTraced, Next, Enabled, Sends;
      var before, e := run[..|run| - 1], run[|run| - 1];
      LastStep(INITIAL, run);
      assert AllAdmitted(before) && Admitted(e);
      AlwaysTraced(before);
      var s := After(INITIAL, before);
      StepKeeps(s, e);
      QueueOn(run, s);
      CallsOn(run, s);
      if e.Take? {
        NewTake(run, s);
      }
      RepliesOn(run, s);
    }
  }

  // ---------------------------------------------------------------- who takes the mutex

  /** The reply that call i received, once it has. */
  ghost function Heard(run: seq<Step>, i: nat): Option<WriteReply>
    requires IsRun(INITIAL, run)
    decreases |run|
  {
    if run == [] then None
    else
      LastStep(INITIAL, run);
      var before := run[..|run| - 1];
      if run[|run| - 1] == Receive(i) then After(INITIAL, before).calls[i].reply else Heard(before, i)
  }

  ghost predicate Untouched(run: seq<Step>, i: nat) {
    Lock(i) !in run && Unlock(i) !in run
  }

  ghost predicate LockedAt(run: seq<Step>, i: nat, a: int, b: int) {
    0 <= a < b < |run| && run[a] == Receive(i) && run[b] == Lock(i)
  }

  ghost predicate UnlockedAt(run: seq<Step>, i: nat, a: int, b: int, c: int) {
    LockedAt(run, i, a, b) && b < c < |run| && run[c] == Unlock(i)
  }

  /** How far a Set has got, told by its steps. */
  ghost predicate Stage(run: seq<Step>, i: nat, p: Phase, heard: Option<WriteReply>) {
    match p
    case Pushing => heard.None? && Receive(i) !in run && Untouched(run, i)
    case Waiting => heard.None? && Receive(i) !in run && Untouched(run, i)
    case Locking => heard == Some(None) && Receive(i) in run && Untouched(run, i)
    case Holding => heard == Some(None) && Unlock(i) !in run && exists a, b :: LockedAt(run, i, a, b)
    case Finished =>
      && heard.Some?
      && (heard.value.Some? ==> Receive(i) in run && Untouched(run, i))
      && (heard.value.None? ==> exists a, b, c :: UnlockedAt(run, i, a, b, c))
  }

  lemma StageOn(run: seq<Step>, i: nat, p: Phase, heard: Option<WriteReply>)
    requires run != [] && Stage(run[..|run| - 1], i, p, heard)
    requires run[|run| - 1] != Receive(i) && run[|run| - 1] != Lock(i) && run[|run| - 1] != Unlock(i)
    ensures Stage(run, i, p, heard)
  {
    var before, e := run[..|run| - 1], run[|run| - 1];
    assert run == before + [e];
    if p == Holding {
      var a, b :| LockedAt(before, i, a, b);
      assert LockedAt(run, i, a, b);
    }
    if p == Finished && heard.value.None? {
      var a, b, c :| UnlockedAt(before, i, a, b, c);
      assert UnlockedAt(run, i, a, b, c);
    }
  }

  /** The three steps of call i's own. */
  lemma OwnStep(run: seq<Step>, i: nat, p: Phase, heard: Option<WriteReply>)
    requires run != [] && Stage(run[..|run| - 1], i, p, heard)
    ensures run[|run| - 1] == Receive(i) && p == Waiting ==>
              Stage(run, i, Locking, Some(None)) && forall e :: Stage(run, i, Finished, Some(Some(e)))
    ensures run[|run| - 1] == Lock(i) && p == Locking ==> Stage(run, i, Holding, heard)
    ensures run[|run| - 1] == Unlock(i) && p == Holding ==> Stage(run, i, Finished, heard)
  {
    var before, e := run[..|run| - 1], run[|run| - 1];
    assert run == before + [e];
    if e == Lock(i) && p == Locking {
      var a :| 0 <= a < |before| && before[a] == Receive(i);
      assert LockedAt(run, i, a, |run| - 1);
    }
    if e == Unlock(i) && p == Holding {
      var a, b :| LockedAt(before, i, a, b);
      assert UnlockedAt(run, i, a, b, |run| - 1);
    }
  }

  /** What a step does to the phase of a Set. */
  lemma PhaseMoves(s: System, e: Step, i: nat)
    requires Enabled(s, e) && i < |s.calls| && s.calls[i].kind.SetCall?
    ensures var p, p' := s.calls[i].phase, Next(s, e).calls[i].phase;
            && Next(s, e).calls[i].kind == s.calls[i].kind
            && (e == Receive(i) ==>
                  p == Waiting && s.calls[i].reply.Some?
                  && p' == if s.calls[i].reply.value.None? then Locking else Finished)
            && (e == Lock(i) ==> p == Locking && p' == Holding)
            && (e == Unlock(i) ==> p == Holding && p' == Finished)
            && (e == Push(i) ==> p == Pushing && p' == Waiting)
            && (e != Receive(i) && e != Lock(i) && e != Unlock(i) && e != Push(i) ==> p' == p)
  {
    hide Sent;
  }

  lemma SameStage(run: seq<Step>, i: nat, heard: Option<WriteReply>)
    ensures Stage(run, i, Pushing, heard) <==> Stage(run, i, Waiting, heard)
  {
  }

  lemma NewStage(run: seq<Step>, i: nat)
    requires run != [] && (run[|run| - 1].StartSet? || run[|run| - 1].StartOther?)
    requires Receive(i) !in run[..|run| - 1] && Untouched(run[..|run| - 1], i)
    ensures Stage(run, i, Pushing, None)
  {
    assert run == run[..|run| - 1] + [run[|run| - 1]];
  }

  lemma NotYet(s: System, e: Step, i: nat)
    requires Enabled(s, e) && i >= |Next(s, e).calls|
    ensures i >= |s.calls| && e != Receive(i) && e != Lock(i) && e != Unlock(i)
  {
    hide Sent;
  }

  /** A call that has not been started has taken no step. */
  lemma {:induction false} NotStarted(run: seq<Step>, i: nat)
    requires IsRun(INITIAL, run) && i >= |After(INITIAL, run).calls|
    ensures Heard(run, i).None? && Receive(i) !in run && Untouched(run, i)
    decreases |run|
  {
    if run == [] {
    } else {
      hide IsRun, After, Next, Enabled;
      var before, e := run[..|run| - 1], run[|run| - 1];
      LastStep(INITIAL, run);
      assert run == before + [e];
      NotYet(After(INITIAL, before), e, i);
      NotStarted(before, i);
    }
  }

  /** What a call has heard is what its item's write sent. */
  lemma {:induction false} HeardSent(run: seq<Step>, i: nat)
    requires IsRun(INITIAL, run) && AllAdmitted(run) && Heard(run, i).Some?
    ensures Sends(run, i, Heard(run, i).value)
    decreases |run|
  {
    hide IsRun, After, Sent, Sends, Next, Inv;
    var before, e := run[..|run| - 1], run[|run| - 1];
    LastStep(INITIAL, run);
    assert AllAdmitted(before);
    if e == Receive(i) {
      AlwaysTraced(before);
    } else {
      HeardSent(before, i);
    }
    SendsOn(run, i, Heard(run, i).value);
  }

  /** A step starts one call or none. */
  lemma CallsGrow(s: System, e: Step)
    requires Enabled(s, e)
    ensures var c, c' := s.calls, Next(s, e).calls;
            && |c| <= |c'| <= |c| + 1
            && (|c'| == |c| + 1 ==> (e.StartSet? || e.StartOther?)
                                    && (c'[|c|].kind.SetCall? ==> c'[|c|].phase == Pushing))
            && (forall i :: 0 <= i < |c| ==> c'[i].kind == c[i].kind)
  {
    hide Sent;
  }

  lemma {:induction false} AlwaysStaged(run: seq<Step>, i: nat)
    requires IsRun(INITIAL, run)
    requires i < |After(INITIAL, run).calls| && After(INITIAL, run).calls[i].kind.SetCall?
    ensures Stage(run, i, After(INITIAL, run).calls[i].phase, Heard(run, i))
    decreases |run|
  {
    if run == [] {
    } else {
      hide IsRun, After, Stage, Next, Enabled, Untouched;
      var before, e := run[..|run| - 1], run[|run| - 1];
      LastStep(INITIAL, run);
      assert run == before + [e];
      var s := After(INITIAL, before);
      CallsGrow(s, e);
      if i < |s.calls| {
        PhaseMoves(s, e, i);
        AlwaysStaged(before, i);
        var p := s.calls[i].phase;
        if e == Receive(i) || e == Lock(i) || e == Unlock(i) {
          OwnStep(run, i, p, Heard(before, i));
        } else {
          StageOn(run, i, p, Heard(before, i));
          SameStage(run, i, Heard(before, i));
        }
      } else {
        NotStarted(before, i);
        NewStage(run, i);
      }
    }
  }

  /** Over every run, from its steps: the reply a Set receives is what the write of its own item sent, items being
      written in the order they were pushed in. A Set that received an error never locks the mutex. One that received
      none and has finished locked it after that, and unlocked it after that. */
  lemma WrittenSetsLock(run: seq<Step>, i: nat)
    requires IsRun(INITIAL, run) && AllAdmitted(run)
    requires i < |Started(run)| && Started(run)[i].SetCall?
    ensures var c := After(INITIAL, run).calls;
            && i < |c| && c[i].kind == Started(run)[i]
            && (Heard(run, i).None? <==> c[i].phase == Pushing || c[i].phase == Waiting)
            && (Heard(run, i).Some? ==> Sends(run, i, Heard(run, i).value))
            && (Heard(run, i).None? || Heard(run, i).value.Some? ==> Lock(i) !in run && Unlock(i) !in run)
            && (Heard(run, i) == Some(None) && c[i].phase == Finished ==>
                  exists a, b, c :: 0 <= a < b < c < |run|
                                    && run[a] == Receive(i) && run[b] == Lock(i) && run[c] == Unlock(i))
  {
    hide Sends, IsRun, After, Inv, Heard;
    AlwaysTraced(run);
    AlwaysStaged(run, i);
    if Heard(run, i).Some? {
      HeardSent(run, i);
    }
    if Heard(run, i) == Some(None) && After(INITIAL, run).calls[i].phase == Finished {
      var a, b, c :| UnlockedAt(run, i, a, b, c);
      assert 0 <= a < b < c < |run| && run[a] == Receive(i) && run[b] == Lock(i) && run[c] == Unlock(i);
    }
  }

  /** A Set that is through: it received what the write of its item sent; if that was an error it never locked the
      mutex, and otherwise it received, then locked, then unlocked. */
  ghost predicate Through(run: seq<Step>, i: nat)
    requires IsRun(INITIAL, run)
  {
    && Heard(run, i).Some? && Sends(run, i, Heard(run, i).value)
    && (Heard(run, i).value.Some? ==> Lock(i) !in run && Unlock(i) !in run)
    && (Heard(run, i).value.None? ==>
          exists a, b, c :: 0 <= a < b < c < |run|
                            && run[a] == Receive(i) && run[b] == Lock(i) && run[c] == Unlock(i))
  }

  /** Every call under way finishes: after any run, serving steps lead to a state where all calls have returned,
      and every Set is through. */
  lemma AllAreServed(before: seq<Step>) returns (run: seq<Step>)
    requires IsRun(INITIAL, before) && AllAdmitted(before)
    ensures IsRun(INITIAL, before + run) && Served(After(INITIAL, before + run))
    ensures forall i :: 0 <= i < |run| ==> !FromOutside(run[i])
    ensures forall i: nat :: i < |Started(before + run)| && Started(before + run)[i].SetCall? ==>
              Through(before + run, i)
  {
    hide IsRun, After, Inv, Sends, Heard, Work, Started;
    AlwaysTraced(before);
    run := AllReturn(After(INITIAL, before));
    RunThen(INITIAL, before, run);
    var all := before + run;
    assert AllAdmitted(all);
    AlwaysTraced(all);
    forall i: nat | i < |Started(all)| && Started(all)[i].SetCall? ensures Through(all, i) {
      WrittenSetsLock(all, i);
    }
  }
}
