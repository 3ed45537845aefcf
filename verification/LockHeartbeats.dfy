/** Whose heartbeat the lock directory records: the condition under which a heartbeat reaches no directory but the one
its own instance made.
 */
module LockHeartbeats {
  import opened Wrappers
  import opened LockProtocol
  import opened LockBound

  /** Only an instance inside its lock has a heartbeat in flight, crashed instances aside. */
  ghost predicate OwnBeatsOnly(s: State) {
    forall i :: 0 <= i < |s.instances| ==>
      var x := s.instances[i];
      && (x.timer ==> x.phase == Held)
      && (x.pending.Some? ==> x.phase == FirstBeat || x.timer || x.phase.Stopping? || x.phase == Crashed)
  }

  lemma StepKeepsOwnBeats(cfg: Config, s: State, a: Step)
    requires cfg.unlockTimeoutMs == 0 && OwnBeatsOnly(s) && Enabled(cfg, s, a)
    ensures OwnBeatsOnly(Apply(cfg, s, a))
  {
  }

  lemma {:induction false} RunKeepsOwnBeats(cfg: Config, age: nat, n: nat, steps: seq<Step>)
    requires cfg.unlockTimeoutMs == 0 && Run(cfg, age, n, steps).Some?
    ensures OwnBeatsOnly(Run(cfg, age, n, steps).value)
    decreases |steps|
  {
    if steps != [] {
      var last := |steps| - 1;
      RunKeepsOwnBeats(cfg, age, n, steps[..last]);
      StepKeepsOwnBeats(cfg, Run(cfg, age, n, steps[..last]).value, steps[last]);
    }
  }

  /** An unlock that waits for a heartbeat began after every heartbeat in flight and the one last recorded. */
  ghost predicate StopsLast(s: State) {
    forall i :: 0 <= i < |s.instances| && s.instances[i].phase.Stopping? && s.instances[i].pending.Some? ==>
      StopIsLast(s, s.instances[i].phase.since)
  }

  ghost predicate StopIsLast(s: State, since: int) {
    && (s.dir.Present? ==> s.dir.mtime <= since)
    && forall j :: 0 <= j < |s.instances| && s.instances[j].pending.Some? ==> s.instances[j].pending.value <= since
  }

  /** While heartbeats are timely, an unlock cannot wait longer than `age` for one. */
  lemma NoLateStop(cfg: Config, age: nat, s: State, i: InstanceId)
    requires Inv(cfg, s) && Timely(s, age) && StopsLast(s) && cfg.unlockTimeoutMs > age
    requires Enabled(cfg, s, Rmdir(i))
    ensures s.instances[i].pending.None?
  {
    if s.instances[i].pending.Some? {
      assert Live(s, i) && StopIsLast(s, s.instances[i].phase.since);
    }
  }

  lemma StepKeepsOwnBeatsTimely(cfg: Config, age: nat, s: State, a: Step)
    requires Inv(cfg, s) && Timely(s, age) && cfg.unlockTimeoutMs > age
    requires OwnBeatsOnly(s) && StopsLast(s) && Enabled(cfg, s, a)
    ensures OwnBeatsOnly(Apply(cfg, s, a))
  {
    if a.Rmdir? {
      NoLateStop(cfg, age, s, a.i);
    }
  }

  lemma StepKeepsStopsLast(cfg: Config, s: State, a: Step)
    requires Inv(cfg, s) && OwnBeatsOnly(s) && StopsLast(s) && Enabled(cfg, s, a)
    ensures StopsLast(Apply(cfg, s, a))
  {
    var t := Apply(cfg, s, a);
    forall i | 0 <= i < |t.instances| && t.instances[i].phase.Stopping? && t.instances[i].pending.Some?
      ensures StopIsLast(t, t.instances[i].phase.since)
    {
      if s.instances[i].phase.Stopping? {
        assert Live(s, i) && s.instances[i].pending.Some? && StopIsLast(s, s.instances[i].phase.since);
        StopStaysLast(cfg, s, a, i);
      } else {
        assert a == Unlock(i, a.force) && Live(s, i);
      }
    }
  }

  /** Only the instance that stops is live, and it starts no heartbeat any more. */
  lemma StopStaysLast(cfg: Config, s: State, a: Step, i: InstanceId)
    requires Inv(cfg, s) && OwnBeatsOnly(s) && Enabled(cfg, s, a) && Live(s, i)
    requires s.instances[i].phase.Stopping? && StopIsLast(s, s.instances[i].phase.since)
    requires Apply(cfg, s, a).instances[i].phase == s.instances[i].phase
    ensures StopIsLast(Apply(cfg, s, a), s.instances[i].phase.since)
  {
    match a {
      case StartFirstBeat(j) => assert Live(s, j);
      case TimerBeat(j) => assert Live(s, j);
      case _ =>
    }
  }

  lemma {:induction false} RunKeepsOwnBeatsTimely(cfg: Config, age: nat, n: nat, steps: seq<Step>)
    requires age + cfg.statDelay <= Threshold(cfg) && cfg.unlockTimeoutMs > age
    requires Run(cfg, age, n, steps).Some?
    ensures OwnBeatsOnly(Run(cfg, age, n, steps).value) && StopsLast(Run(cfg, age, n, steps).value)
    decreases |steps|
  {
    if steps != [] {
      var last := |steps| - 1;
      RunKeepsOwnBeatsTimely(cfg, age, n, steps[..last]);
      RunKeepsInv(cfg, age, n, steps[..last]);
      StepKeepsOwnBeatsTimely(cfg, age, Run(cfg, age, n, steps[..last]).value, steps[last]);
      StepKeepsStopsLast(cfg, Run(cfg, age, n, steps[..last]).value, steps[last]);
    }
  }

  /** A heartbeat that lands belongs to the instance that made the directory, or to one that has crashed. */
  ghost predicate BeatsLandOwn(s: State) {
    s.dir.Present? ==>
      forall i :: 0 <= i < |s.instances| && s.instances[i].pending.Some? && s.instances[i].phase != Crashed
        ==> s.dir.creator == i
  }

  /** So it is when unlock waits without a timeout, or with one longer than a timely heartbeat can be old. */
  lemma BeatsReachOwnDirectory(cfg: Config, age: nat, n: nat, steps: seq<Step>)
    requires age + cfg.statDelay <= Threshold(cfg) && (cfg.unlockTimeoutMs == 0 || cfg.unlockTimeoutMs > age)
    requires Run(cfg, age, n, steps).Some?
    ensures BeatsLandOwn(Run(cfg, age, n, steps).value)
  {
    RunKeepsInv(cfg, age, n, steps);
    if cfg.unlockTimeoutMs == 0 {
      RunKeepsOwnBeats(cfg, age, n, steps);
    } else {
      RunKeepsOwnBeatsTimely(cfg, age, n, steps);
    }
    var s := Run(cfg, age, n, steps).value;
    forall i | 0 <= i < |s.instances| && s.instances[i].pending.Some? && s.instances[i].phase != Crashed
      ensures Live(s, i)
    {
    }
  }

  /** Instance 0 has given up on a heartbeat in flight, and its lock is gone. */
  lemma AbandonedBeat(cfg: Config, age: nat, late: nat) returns (steps: seq<Step>, s: State)
    requires 0 < cfg.unlockTimeoutMs <= late <= age
    ensures Run(cfg, age, 2, steps) == Some(s)
    ensures s == State(late, Absent, [Instance(Idle, false, Some(0)), Instance(Idle, false, None)], Resting, None)
  {
    steps, s := Acquire(cfg, age, 2, [], Init(2), 0);
    steps, s := Extend(cfg, age, 2, steps, s, TimerBeat(0));
    steps, s := Extend(cfg, age, 2, steps, s, Unlock(0, false));
    steps, s := Extend(cfg, age, 2, steps, s, Tick(late));
    steps, s := Extend(cfg, age, 2, steps, s, Rmdir(0));
  }

  /** With such an unlock timeout a heartbeat of the previous owner can land on the next owner's directory and set its
      modification time back: `before` is the state in which it is about to. */
  lemma StaleBeatLands(cfg: Config, age: nat, late: nat) returns (steps: seq<Step>, before: State, s: State)
    requires 0 < cfg.unlockTimeoutMs <= late <= age
    ensures Run(cfg, age, 2, steps) == Some(before)
    ensures !BeatsLandOwn(before) && Enabled(cfg, before, LandBeat(0)) && s == Apply(cfg, before, LandBeat(0))
    ensures Timely(s, age) && s.now == late && Live(s, 1) && s.dir == Present(0, 1)
  {
    steps, before := AbandonedBeat(cfg, age, late);
    steps, before := Acquire(cfg, age, 2, steps, before, 1);
    assert before.instances[0].pending.Some? && before.instances[0].phase != Crashed && before.dir.creator == 1;
    s := Apply(cfg, before, LandBeat(0));
  }

  /** The exact condition for heartbeats to reach their own directory over all runs with timely heartbeats. */
  lemma BeatsLandOwnIff(cfg: Config, age: nat)
    requires age + cfg.statDelay <= 2000 || age + cfg.statDelay <= 3 * cfg.intervalMs
    ensures (forall n: nat, steps ::
              Run(cfg, age, n, steps).Some? ==> BeatsLandOwn(Run(cfg, age, n, steps).value))
            <==> cfg.unlockTimeoutMs == 0 || cfg.unlockTimeoutMs > age
  {
    if cfg.unlockTimeoutMs == 0 || cfg.unlockTimeoutMs > age {
      forall n: nat, steps | Run(cfg, age, n, steps).Some?
        ensures BeatsLandOwn(Run(cfg, age, n, steps).value)
      {
        BeatsReachOwnDirectory(cfg, age, n, steps);
      }
    } else {
      var steps, before, s := StaleBeatLands(cfg, age, age);
      assert !BeatsLandOwn(Run(cfg, age, 2, steps).value);
    }
  }
}
