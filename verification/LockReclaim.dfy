/** The collector's liveness: a lock directory that nobody refreshes is removed. */
module LockReclaim {
  import opened Wrappers
  import opened LockProtocol

  /** A step that leaves the directory as it is and does not restart the collector. */
  predicate Quiet(cfg: Config, s: State, a: Step) {
    Enabled(cfg, s, a) && !a.RestartCollector? && Apply(cfg, s, a).dir == s.dir
  }

  ghost predicate QuietRun(cfg: Config, s: State, steps: seq<Step>, t: State)
    decreases |steps|
  {
    if steps == [] then t == s
    else Quiet(cfg, s, steps[0]) && QuietRun(cfg, Apply(cfg, s, steps[0]), steps[1..], t)
  }

  lemma {:induction false} MemoryStays(cfg: Config, s: State, steps: seq<Step>, t: State)
    requires QuietRun(cfg, s, steps, t) && s.dir.Present? && s.memory.Some? && s.memory.value.mtime == s.dir.mtime
    ensures t.memory == s.memory && t.dir == s.dir
    decreases |steps|
  {
    if steps != [] {
      MemoryStays(cfg, Apply(cfg, s, steps[0]), steps[1..], t);
    }
  }

  /** Once the collector has found the lock expired only the removal or a restart can follow. */
  lemma {:induction false} DoomedStays(cfg: Config, s: State, steps: seq<Step>, t: State)
    requires QuietRun(cfg, s, steps, t) && s.dir.Present? && s.collector.Doomed?
    ensures t.collector.Doomed?
    decreases |steps|
  {
    if steps != [] {
      DoomedStays(cfg, Apply(cfg, s, steps[0]), steps[1..], t);
    }
  }

  /** What the collector remembers it saw no later than the clock it last read. */
  predicate RememberedBefore(s: State) {
    && (s.memory.Some? ==> s.memory.value.since <= s.now)
    && (s.collector.ClockRead? ==> s.collector.at <= s.now)
    && (s.memory.Some? && s.collector.ClockRead? ==> s.memory.value.since <= s.collector.at)
  }

  lemma StepRemembersBefore(cfg: Config, s: State, a: Step)
    requires RememberedBefore(s) && Enabled(cfg, s, a)
    ensures RememberedBefore(Apply(cfg, s, a))
  {
  }

  lemma {:induction false} RunRemembersBefore(cfg: Config, age: nat, n: nat, steps: seq<Step>)
    requires Run(cfg, age, n, steps).Some?
    ensures RememberedBefore(Run(cfg, age, n, steps).value)
    decreases |steps|
  {
    if steps != [] {
      var front := steps[..|steps| - 1];
      RunRemembersBefore(cfg, age, n, front);
      StepRemembersBefore(cfg, Run(cfg, age, n, front).value, steps[|steps| - 1]);
    }
  }

  /** The collector is about to remove the directory, and then does. */
  predicate Removes(cfg: Config, s: State) {
    Enabled(cfg, s, Remove) && Apply(cfg, s, Remove).dir == Absent
  }

  /** A lock nobody refreshes is removed: in every run, of two looks of the collector whose clock readings are more than
      two seconds and three intervals apart the second is followed by the removal of the directory, whatever else
      happened between. */
  lemma DanglingLockReclaimed(cfg: Config, age: nat, n: nat, before: seq<Step>, s: State, steps: seq<Step>, t: State)
    requires Run(cfg, age, n, before) == Some(s)
    requires s.dir.Present? && Enabled(cfg, s, Stat)
    requires QuietRun(cfg, Apply(cfg, s, Stat), steps, t) && Enabled(cfg, t, Stat)
    requires t.collector.at - s.collector.at > 2000 && t.collector.at - s.collector.at > 3 * cfg.intervalMs
    ensures Removes(cfg, Apply(cfg, t, Stat))
  {
    RunRemembersBefore(cfg, age, n, before);
    MemoryStays(cfg, Apply(cfg, s, Stat), steps, t);
    if Apply(cfg, s, Stat).collector.Doomed? {
      DoomedStays(cfg, Apply(cfg, s, Stat), steps, t);
    }
  }
}
