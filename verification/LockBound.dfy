/** The timing bound of the lock is exact: beyond it there is a run in which two instances hold the lock. */
module LockBound {
  import opened Wrappers
  import opened LockProtocol

  /** One more step of a run. */
  lemma Extend(cfg: Config, age: nat, n: nat, steps: seq<Step>, s: State, a: Step)
    returns (longer: seq<Step>, t: State)
    requires Run(cfg, age, n, steps) == Some(s)
    requires Enabled(cfg, s, a) && Timely(Apply(cfg, s, a), age)
    ensures t == Apply(cfg, s, a) && Run(cfg, age, n, longer) == Some(t)
  {
    longer, t := steps + [a], Apply(cfg, s, a);
    assert longer[..|longer| - 1] == steps;
  }

  /** An idle instance takes the free lock. */
  lemma Acquire(cfg: Config, age: nat, n: nat, steps: seq<Step>, s: State, i: InstanceId)
    returns (longer: seq<Step>, t: State)
    requires Run(cfg, age, n, steps) == Some(s) && s.dir == Absent
    requires i < |s.instances| && s.instances[i] == Instance(Idle, false, None)
    ensures Run(cfg, age, n, longer) == Some(t)
    ensures t == WithInstance(s, i, Instance(Held, true, None)).(dir := Present(s.now, i))
  {
    longer, t := Extend(cfg, age, n, steps, s, Mkdir(i));
    longer, t := Extend(cfg, age, n, longer, t, StartFirstBeat(i));
    longer, t := Extend(cfg, age, n, longer, t, LandBeat(i));
  }

  /** The collector reads the clock while instance 0 holds the lock, which is then released. */
  lemma ReleasedAfterRead(cfg: Config, age: nat) returns (steps: seq<Step>, s: State)
    ensures Run(cfg, age, 2, steps) == Some(s)
    ensures s == State(0, Absent, [Instance(Idle, false, None), Instance(Idle, false, None)], ClockRead(0), None)
  {
    steps, s := Acquire(cfg, age, 2, [], Init(2), 0);
    steps, s := Extend(cfg, age, 2, steps, s, List);
    steps, s := Extend(cfg, age, 2, steps, s, ReadClock);
    steps, s := Extend(cfg, age, 2, steps, s, Unlock(0, false));
    steps, s := Extend(cfg, age, 2, steps, s, Rmdir(0));
  }

  /** First half of the unsafe run: the collector reads the clock while instance 0 still holds the
      lock, `gap` milliseconds pass, and its stat sees the fresh directory of instance 1. */
  lemma LateStat(cfg: Config, age: nat, gap: nat) returns (steps: seq<Step>, s: State)
    requires gap <= cfg.statDelay && gap <= Threshold(cfg) + 1
    ensures Run(cfg, age, 2, steps) == Some(s)
    ensures s == State(gap, Present(gap, 1), [Instance(Idle, false, None), Instance(Held, true, None)],
                       Resting, Some(Check(gap, 0)))
  {
    steps, s := ReleasedAfterRead(cfg, age);
    steps, s := Extend(cfg, age, 2, steps, s, Tick(gap));
    steps, s := Acquire(cfg, age, 2, steps, s, 1);
    steps, s := Extend(cfg, age, 2, steps, s, Stat);
  }

  /** When the allowed age and the stat delay together exceed the threshold, the collector takes the
      lock from a live holder whose heartbeats are all timely, and a second instance gets it. */
  lemma UnsafeRun(cfg: Config, age: nat) returns (steps: seq<Step>, s: State)
    requires age + cfg.statDelay > Threshold(cfg)
    ensures Run(cfg, age, 2, steps) == Some(s)
    ensures Live(s, 0) && Live(s, 1)
  {
    var gap := if age > Threshold(cfg) then 0 else Threshold(cfg) + 1 - age;
    steps, s := LateStat(cfg, age, gap);
    steps, s := Extend(cfg, age, 2, steps, s, Tick(Threshold(cfg) + 1 - gap));
    steps, s := Extend(cfg, age, 2, steps, s, List);
    steps, s := Extend(cfg, age, 2, steps, s, ReadClock);
    steps, s := Extend(cfg, age, 2, steps, s, Stat);
    steps, s := Extend(cfg, age, 2, steps, s, Remove);
    steps, s := Extend(cfg, age, 2, steps, s, Mkdir(0));
  }

  /** The exact condition for mutual exclusion over all runs. With a stat that is immediate
      (`statDelay == 0`) it is the documented one: no heartbeat older than two seconds or three intervals. */
  lemma ExclusionIffTimely(cfg: Config, age: nat)
    ensures (forall n: nat, steps ::
              Run(cfg, age, n, steps).Some? ==> Exclusive(Run(cfg, age, n, steps).value))
            <==> age + cfg.statDelay <= 2000 || age + cfg.statDelay <= 3 * cfg.intervalMs
  {
    if age + cfg.statDelay <= Threshold(cfg) {
      forall n: nat, steps | Run(cfg, age, n, steps).Some?
        ensures Exclusive(Run(cfg, age, n, steps).value)
      {
        SafeWhenTimely(cfg, age, n, steps);
      }
    } else {
      var steps, s := UnsafeRun(cfg, age);
      assert !Exclusive(Run(cfg, age, 2, steps).value);
    }
  }
}
