/** The mutex under contention. Go's mutex has no owner: whoever unlocks it frees it. Delete takes it with TryLock, goes
    on without it when that fails, and its not-found branch unlocks it by hand all the same. */
module Contention {

  /** Where a call is: between Lock and its deferred Unlock; in a Delete whose TryLock succeeded; in such a Delete after
      the unlock of its not-found branch, its deferred Unlock still to come; or in a Delete whose TryLock failed. */
  datatype Stage = Holding | Deleting | Returning | Loose

  datatype Step =
    | Lock(id: nat)
    | TryLock(id: nat)
    | NotFound(id: nat)   // the unlock by hand in Delete's not-found branch
    | Unlock(id: nat)     // the deferred one
    | Leave(id: nat)      // a Delete that never had the mutex returns

  /** `fatal` is the end of the program: an unlock of a mutex that is not locked. */
  datatype System = System(locked: bool, calls: map<nat, Stage>, fatal: bool)

  const INITIAL := System(false, map[], false)

  predicate At(s: System, id: nat, p: Stage) {
    id in s.calls && s.calls[id] == p
  }

  predicate Enabled(s: System, e: Step) {
    && !s.fatal
    && match e
       case Lock(i) => i !in s.calls && !s.locked
       case TryLock(i) => i !in s.calls
       case NotFound(i) => At(s, i, Deleting) || At(s, i, Loose)
       case Unlock(i) => i in s.calls && s.calls[i] != Loose
       case Leave(i) => At(s, i, Loose)
  }

  function Freed(s: System): System {
    if s.locked then s.(locked := false) else s.(fatal := true)
  }

  function Next(s: System, e: Step): System
    requires Enabled(s, e)
  {
    match e
    case Lock(i) => s.(locked := true, calls := s.calls[i := Holding])
    case TryLock(i) =>
      if s.locked then s.(calls := s.calls[i := Loose]) else s.(locked := true, calls := s.calls[i := Deleting])
    case NotFound(i) =>
      Freed(s.(calls := if s.calls[i] == Deleting then s.calls[i := Returning] else s.calls - {i}))
    case Unlock(i) => Freed(s.(calls := s.calls - {i}))
    case Leave(i) => s.(calls := s.calls - {i})
  }

  predicate IsRun(s: System, run: seq<Step>)
    decreases |run|
  {
    run == [] || (Enabled(s, run[0]) && IsRun(Next(s, run[0]), run[1..]))
  }

  function After(s: System, run: seq<Step>): System
    requires IsRun(s, run)
    decreases |run|
  {
    if run == [] then s else After(Next(s, run[0]), run[1..])
  }

  /** The call h has the mutex, and no other call has it or thinks so. */
  predicate Owns(s: System, h: nat) {
    && !s.fatal && s.locked && (At(s, h, Holding) || At(s, h, Deleting))
    && forall j :: j in s.calls && j != h ==> s.calls[j] == Loose
  }

  /** Throughout the run h owns the mutex. */
  predicate Keeps(s: System, run: seq<Step>, h: nat)
    requires IsRun(s, run)
    decreases |run|
  {
    Owns(s, h) && (run != [] ==> Keeps(Next(s, run[0]), run[1..], h))
  }

  /** The run has no step of h itself. */
  predicate WithoutOwn(run: seq<Step>, h: nat) {
    forall i :: 0 <= i < |run| ==> run[i].id != h
  }

  predicate NoneMisses(run: seq<Step>) {
    forall i :: 0 <= i < |run| ==> !run[i].NotFound?
  }

  /** For every run of other calls: the call that holds the mutex keeps it throughout, and alone, if and only if no
      Delete meanwhile fails to find its item. */
  lemma {:induction false} HolderKeepsIff(s: System, run: seq<Step>, h: nat)
    requires IsRun(s, run) && Owns(s, h) && WithoutOwn(run, h)
    ensures Keeps(s, run, h) <==> NoneMisses(run)
    decreases |run|
  {
    if run == [] {
    } else {
      var e, rest := run[0], run[1..];
      assert run == [e] + rest && e.id != h;
      assert NoneMisses(run) <==> !e.NotFound? && NoneMisses(rest);
      if Owns(Next(s, e), h) {
        HolderKeepsIff(Next(s, e), rest, h);
      }
    }
  }

  /** What the mutex promises between steps: it is locked exactly while one call has it. */
  ghost predicate Exclusive(s: System) {
    && !s.fatal
    && if s.locked then exists h :: Owns(s, h) else forall j :: j in s.calls ==> s.calls[j] == Loose
  }

  lemma ExclusiveStep(s: System, e: Step)
    requires Exclusive(s) && Enabled(s, e) && !e.NotFound?
    ensures Exclusive(Next(s, e))
  {
    if s.locked {
      var h :| Owns(s, h);
      if e != Unlock(h) {
        assert Owns(Next(s, e), h);
      }
    } else if e.Lock? || e.TryLock? {
      assert Owns(Next(s, e), e.id);
    }
  }

  /** In a run in which every Delete finds its item, in whatever interleaving, at most one call has the mutex at a time
      and the program is not ended. */
  lemma {:induction false} ExclusiveWithoutMisses(s: System, run: seq<Step>)
    requires Exclusive(s) && IsRun(s, run) && NoneMisses(run)
    ensures Exclusive(After(s, run))
    decreases |run|
  {
    if run == [] {
    } else {
      assert !run[0].NotFound?;
      ExclusiveStep(s, run[0]);
      ExclusiveWithoutMisses(Next(s, run[0]), run[1..]);
    }
  }

  /** What a miss does: one in a Delete that never had the mutex takes it from its holder, and any other call can then
      have it too; one in a Delete that has it leads to a second unlock, which ends the program unless
      another call has locked the mutex in between, and then frees it under that call. */
  lemma MissBreaks(s: System, h: nat, d: nat, other: nat)
    requires Owns(s, h) && other !in s.calls && d != h
    ensures At(s, d, Loose) ==>
              var s1 := Next(s, NotFound(d));
              && !s1.locked && s1.calls[h] == s.calls[h] && Enabled(s1, Lock(other))
              && Next(s1, Lock(other)).calls[h] == s.calls[h] && Next(s1, Lock(other)).calls[other] == Holding
    ensures At(s, h, Deleting) ==>
              var s1 := Next(s, NotFound(h));
              && Enabled(s1, Unlock(h)) && Next(s1, Unlock(h)).fatal
              && (forall e :: !Enabled(Next(s1, Unlock(h)), e))
              && Enabled(s1, Lock(other))
              && (var s2 := Next(s1, Lock(other));
                  Enabled(s2, Unlock(h)) && !Next(s2, Unlock(h)).locked && At(Next(s2, Unlock(h)), other, Holding))
  {
  }
}
