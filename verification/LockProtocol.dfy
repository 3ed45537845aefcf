/** The cross-process directory lock and the collector that reclaims stale lock directories.

Every stretch of code between two awaits is one atomic step, and the steps of all lock instances,
of the collector and of time itself interleave freely. The model follows one lock directory: locks
on different directories share no state.
 */
module LockProtocol {
  import opened Wrappers

  type InstanceId = nat

  /** The lock directory. `creator` names the instance whose mkdir made it; no code reads it. */
  datatype Directory = Absent | Present(mtime: int, creator: InstanceId)

  /** Where an instance stands between two awaits. */
  datatype Phase =
    | Idle                 // outside tryLock and unlock
    | Created              // mkdir succeeded, the first heartbeat has not started
    | FirstBeat            // the first heartbeat is awaited
    | Held                 // tryLock returned true
    | Stopping(since: int) // unlock cleared the interval and waits for a running heartbeat
    | Crashed

  /** An instance: `timer` is `interval !== null`; `pending` is the timestamp of the heartbeat in
      flight, so `intervalActive` is `pending.Some?`. */
  datatype Instance = Instance(phase: Phase, timer: bool, pending: Option<int>)

  /** The pair kept in `lastExpiryCheck`: the modification time seen, and when it was first seen. */
  datatype Check = Check(mtime: int, since: int)

  datatype Status = Unlocked | Locked | Expired

  datatype CollectorPhase =
    | Resting
    | Listed             // the directory listing contained the lock
    | ClockRead(at: int) // getStatus read the clock and awaits stat
    | Doomed             // getStatus answered expired, the removal is still to come

  datatype State = State(
    now: int,
    dir: Directory,
    instances: seq<Instance>,
    collector: CollectorPhase,
    memory: Option<Check>)

  /** `intervalMs`: heartbeat interval assumed by the collector. `statDelay`: the longest time a stat
      of the collector completes after the clock read before it. `unlockTimeoutMs`: 0 for none. */
  datatype Config = Config(intervalMs: int, statDelay: nat, unlockTimeoutMs: nat)

  /** The greater of two seconds and three intervals. */
  function Threshold(cfg: Config): (threshold: int)
    ensures threshold >= 2000 && threshold >= 3 * cfg.intervalMs
    ensures threshold == 2000 || threshold == 3 * cfg.intervalMs
  {
    if cfg.intervalMs * 3 < 2000 then 2000 else cfg.intervalMs * 3
  }

  datatype Step =
    | Mkdir(i: InstanceId)
    | StartFirstBeat(i: InstanceId)
    | TimerBeat(i: InstanceId)
    | LandBeat(i: InstanceId)
    | FailBeat(i: InstanceId)
    | Unlock(i: InstanceId, force: bool)
    | Rmdir(i: InstanceId)
    | Crash(i: InstanceId)
    | List
    | ReadClock
    | Stat
    | Remove
    | RestartCollector
    | Tick(d: nat)

  /** The instance is between a successful mkdir and its rmdir, and has neither crashed nor given up
      after a failed first heartbeat. */
  predicate Live(s: State, i: InstanceId) {
    && i < |s.instances|
    && var p := s.instances[i].phase;
       p == Created || p == FirstBeat || p == Held || p.Stopping?
  }

  // ---- getStatus

  /** The update of `lastExpiryCheck` for a directory last modified at `mtime`. */
  function Remember(threshold: int, memory: Option<Check>, at: int, mtime: int): Check {
    match memory
    case None => if at - mtime > threshold then Check(mtime, at - threshold - 1) else Check(mtime, at)
    case Some(c) => if c.mtime == mtime then c else Check(mtime, at)
  }

  function StatusOf(threshold: int, check: Check, at: int): Status {
    if at - check.since > threshold then Expired else Locked
  }

  /** One call of getStatus that found the directory: the clock it read and the time it saw. */
  datatype Observation = Observation(at: int, mtime: int)

  function MemoryAfter(threshold: int, seen: seq<Observation>): Option<Check> {
    if seen == [] then None
    else
      var o := seen[|seen| - 1];
      Some(Remember(threshold, MemoryAfter(threshold, seen[..|seen| - 1]), o.at, o.mtime))
  }

  /** Observations `k` onwards, and no earlier ones, saw the modification time seen last. */
  predicate UnchangedSince(seen: seq<Observation>, k: nat) {
    && k < |seen|
    && (forall j :: k <= j < |seen| ==> seen[j].mtime == seen[|seen| - 1].mtime)
    && (k > 0 ==> seen[k - 1].mtime != seen[k].mtime)
  }

  /** What `lastExpiryCheck` says about the whole history of observations. */
  lemma {:induction false} MemoryOfHistory(threshold: int, seen: seq<Observation>, k: nat)
    requires UnchangedSince(seen, k)
    ensures MemoryAfter(threshold, seen) == Some(Check(seen[k].mtime,
              if k == 0 && seen[0].at - seen[0].mtime > threshold then seen[0].at - threshold - 1 else seen[k].at))
  {
    var front := seen[..|seen| - 1];
    if k < |front| {
      assert forall j :: k <= j < |front| ==> front[j].mtime == seen[j].mtime;
      MemoryOfHistory(threshold, front, k);
    } else if k > 0 {
      // The run starts at the last observation: whatever was remembered had another time.
      var j := RunStart(front);
      MemoryOfHistory(threshold, front, j);
    }
  }

  lemma {:induction false} RunStart(seen: seq<Observation>) returns (k: nat)
    requires seen != []
    ensures UnchangedSince(seen, k)
  {
    var last := |seen| - 1;
    if last == 0 || seen[last - 1].mtime != seen[last].mtime {
      k := last;
    } else {
      k := RunStart(seen[..last]);
    }
  }

  /** getStatus answers expired exactly when the modification time it sees has not changed for more
      than the threshold of its own observations, or was that old when it was first looked at. */
  lemma ExpiredIffUnchanged(threshold: int, seen: seq<Observation>, k: nat)
    requires UnchangedSince(seen, k)
    requires forall j :: 0 <= j < |seen| ==> seen[j].at <= seen[|seen| - 1].at
    ensures StatusOf(threshold, MemoryAfter(threshold, seen).value, seen[|seen| - 1].at) == Expired
            <==> (|| seen[|seen| - 1].at - seen[k].at > threshold
                  || (k == 0 && seen[0].at - seen[0].mtime > threshold))
  {
    MemoryOfHistory(threshold, seen, k);
  }

  // ---- Heartbeat and unlock, on one instance

  /** The heartbeat closure up to its utimes: it does nothing while another beat is in flight. */
  function BeatBegin(x: Instance, now: int): Instance {
    if x.pending.Some? then x else x.(pending := Some(now))
  }

  /** The heartbeat closure after its utimes: a failure clears a running interval. */
  function BeatEnd(x: Instance, ok: bool): Instance {
    x.(pending := None, timer := x.timer && ok)
  }

  /** tryLock after its first heartbeat: on success the interval starts, on failure tryLock returns
      false and leaves the directory behind. */
  function FirstBeatEnd(x: Instance, ok: bool): Instance {
    if ok then BeatEnd(x, ok).(phase := Held, timer := true) else BeatEnd(x, ok).(phase := Idle)
  }

  function StopInterval(x: Instance, now: int): Instance {
    x.(phase := Stopping(now), timer := false)
  }

  // ---- Steps

  predicate Enabled(cfg: Config, s: State, a: Step) {
    match a
    case Mkdir(i) =>
      && i < |s.instances| && !s.instances[i].timer
      && (s.instances[i].phase == Idle || s.instances[i].phase == Held)
    case StartFirstBeat(i) => i < |s.instances| && s.instances[i].phase == Created
    case TimerBeat(i) => i < |s.instances| && s.instances[i].timer
    case LandBeat(i) => i < |s.instances| && s.instances[i].pending.Some? && s.dir.Present?
    case FailBeat(i) => i < |s.instances| && s.instances[i].pending.Some?
    case Unlock(i, force) =>
      i < |s.instances| && s.instances[i].phase == Held && (force || s.instances[i].timer)
    case Rmdir(i) =>
      && i < |s.instances| && s.instances[i].phase.Stopping?
      && (|| s.instances[i].pending.None?
          || (cfg.unlockTimeoutMs != 0 && s.now - s.instances[i].phase.since >= cfg.unlockTimeoutMs))
    case Crash(i) => i < |s.instances|
    case List => s.collector.Resting?
    case ReadClock => s.collector.Listed?
    case Stat => s.collector.ClockRead? && s.now - s.collector.at <= cfg.statDelay
    case Remove => s.collector.Doomed?
    case RestartCollector => true
    case Tick(_) => true
  }

  function WithInstance(s: State, i: InstanceId, x: Instance): State
    requires i < |s.instances|
  {
    s.(instances := s.instances[i := x])
  }

  function Apply(cfg: Config, s: State, a: Step): State
    requires Enabled(cfg, s, a)
  {
    match a
    case Mkdir(i) =>
      if s.dir.Present? then s // EEXIST
      else WithInstance(s, i, s.instances[i].(phase := Created)).(dir := Present(s.now, i))
    case StartFirstBeat(i) =>
      // A beat still in flight makes the closure return nothing, which tryLock takes for a failure.
      if s.instances[i].pending.Some? then WithInstance(s, i, s.instances[i].(phase := Idle))
      else WithInstance(s, i, BeatBegin(s.instances[i], s.now).(phase := FirstBeat))
    case TimerBeat(i) => WithInstance(s, i, BeatBegin(s.instances[i], s.now))
    case LandBeat(i) =>
      var x := s.instances[i];
      var y := if x.phase == FirstBeat then FirstBeatEnd(x, true) else BeatEnd(x, true);
      WithInstance(s, i, y).(dir := s.dir.(mtime := x.pending.value))
    case FailBeat(i) =>
      var x := s.instances[i];
      WithInstance(s, i, if x.phase == FirstBeat then FirstBeatEnd(x, false) else BeatEnd(x, false))
    case Unlock(i, _) => WithInstance(s, i, StopInterval(s.instances[i], s.now))
    case Rmdir(i) => WithInstance(s, i, s.instances[i].(phase := Idle)).(dir := Absent)
    case Crash(i) => WithInstance(s, i, s.instances[i].(phase := Crashed, timer := false))
    case List => if s.dir.Present? then s.(collector := Listed) else s.(memory := None)
    case ReadClock => s.(collector := ClockRead(s.now))
    case Stat =>
      if s.dir.Absent? then s.(collector := Resting) // ENOENT
      else
        var at := s.collector.at;
        var check := Remember(Threshold(cfg), s.memory, at, s.dir.mtime);
        var next := if StatusOf(Threshold(cfg), check, at) == Expired then Doomed else Resting;
        s.(memory := Some(check), collector := next)
    case Remove => s.(memory := None, dir := Absent, collector := Resting)
    case RestartCollector => s.(memory := None, collector := Resting)
    case Tick(d) => s.(now := s.now + d)
  }

  /** What happens to the directory: mkdir makes it where there is none, a heartbeat that lands dates it, rmdir and the
      collector remove it; nothing else touches it, a failed heartbeat and a crash included. */
  lemma DirectoryChanges(cfg: Config, s: State, a: Step)
    requires Enabled(cfg, s, a)
    ensures var dir := Apply(cfg, s, a).dir;
            if a.Mkdir? && s.dir == Absent then dir == Present(s.now, a.i)
            else if a.LandBeat? then s.dir.Present? && dir == Present(s.instances[a.i].pending.value, s.dir.creator)
            else if a.Rmdir? || a.Remove? then dir == Absent
            else dir == s.dir
  {
  }

  // ---- Runs

  /** The heartbeat recorded on the directory of a live owner is at most `age` milliseconds old. */
  predicate Timely(s: State, age: nat) {
    s.dir.Present? && Live(s, s.dir.creator) ==> s.now - s.dir.mtime <= age
  }

  function Init(n: nat): State {
    State(0, Absent, seq(n, _ => Instance(Idle, false, None)), Resting, None)
  }

  /** The state after `steps` when each of them is possible and every state on the way is timely. */
  function Run(cfg: Config, age: nat, n: nat, steps: seq<Step>): Option<State>
    decreases |steps|
  {
    if steps == [] then Some(Init(n))
    else
      var last := |steps| - 1;
      match Run(cfg, age, n, steps[..last])
      case None => None
      case Some(s) =>
        if Enabled(cfg, s, steps[last]) && Timely(Apply(cfg, s, steps[last]), age)
        then Some(Apply(cfg, s, steps[last])) else None
  }

  ghost predicate Exclusive(s: State) {
    forall i, j :: Live(s, i) && Live(s, j) ==> i == j
  }

  /** Nothing the collector is about to remove belongs to a live owner. */
  ghost predicate RemovalHarmless(s: State) {
    s.collector.Doomed? ==> forall i :: !Live(s, i)
  }

  // ---- The invariant

  ghost predicate Inv(cfg: Config, s: State) {
    && (forall i :: Live(s, i) ==> s.dir.Present? && s.dir.creator == i)
    && (s.dir.Present? ==> s.dir.mtime <= s.now)
    && (forall i :: 0 <= i < |s.instances| && s.instances[i].pending.Some?
          ==> s.instances[i].pending.value <= s.now)
    && (s.memory.Some? ==> s.memory.value.mtime <= s.memory.value.since + cfg.statDelay)
    && (s.collector.ClockRead? ==> s.collector.at <= s.now)
    && (s.collector.Doomed? ==> s.dir.Present?)
    && RemovalHarmless(s)
  }

  /** An expired answer means the recorded heartbeat is older than the threshold less the delay. */
  lemma ExpiredIsOld(cfg: Config, s: State)
    requires Inv(cfg, s) && Enabled(cfg, s, Stat) && s.dir.Present?
    requires Apply(cfg, s, Stat).collector.Doomed?
    ensures s.now - s.dir.mtime > Threshold(cfg) - cfg.statDelay
  {
  }

  /** The steps of an instance. */
  lemma InstanceKeepsInv(cfg: Config, s: State, a: Step)
    requires a.Mkdir? || a.StartFirstBeat? || a.TimerBeat? || a.LandBeat? || a.FailBeat? || a.Unlock? || a.Rmdir?
             || a.Crash?
    requires Inv(cfg, s) && Enabled(cfg, s, a)
    ensures Inv(cfg, Apply(cfg, s, a))
  {
    var t := Apply(cfg, s, a);
    match a {
      case Mkdir(i) =>
        assert forall j :: j != i ==> Live(t, j) == Live(s, j);
      case Rmdir(i) =>
        assert Live(s, i);
        assert forall j :: Live(t, j) ==> Live(s, j) && j != i;
      case StartFirstBeat(i) => assert Live(s, i); assert forall j :: Live(t, j) ==> Live(s, j);
      case Unlock(i, _) => assert Live(s, i); assert forall j :: Live(t, j) ==> Live(s, j);
      case TimerBeat(_) | LandBeat(_) | FailBeat(_) | Crash(_) => assert forall j :: Live(t, j) ==> Live(s, j);
    }
  }

  lemma StepKeepsInv(cfg: Config, age: nat, s: State, a: Step)
    requires age + cfg.statDelay <= Threshold(cfg)
    requires Inv(cfg, s) && Timely(s, age) && Enabled(cfg, s, a)
    ensures Inv(cfg, Apply(cfg, s, a))
  {
    var t := Apply(cfg, s, a);
    match a {
      case Stat =>
        if t.collector.Doomed? {
          ExpiredIsOld(cfg, s);
        }
        assert forall i :: Live(t, i) <==> Live(s, i);
      case List | ReadClock | Remove | RestartCollector | Tick(_) => assert forall j :: Live(t, j) ==> Live(s, j);
      case _ => InstanceKeepsInv(cfg, s, a);
    }
  }

  lemma {:induction false} RunKeepsInv(cfg: Config, age: nat, n: nat, steps: seq<Step>)
    requires age + cfg.statDelay <= Threshold(cfg)
    requires Run(cfg, age, n, steps).Some?
    ensures Inv(cfg, Run(cfg, age, n, steps).value) && Timely(Run(cfg, age, n, steps).value, age)
    decreases |steps|
  {
    if steps != [] {
      var last := |steps| - 1;
      RunKeepsInv(cfg, age, n, steps[..last]);
      StepKeepsInv(cfg, age, Run(cfg, age, n, steps[..last]).value, steps[last]);
    }
  }

  /** Mutual exclusion in spite of the collector: whatever the number of instances, crashes, failed
      heartbeats and timed-out unlocks, no two instances are live at once, and between the check that
      answers expired and the removal no instance is live. */
  lemma SafeWhenTimely(cfg: Config, age: nat, n: nat, steps: seq<Step>)
    requires age + cfg.statDelay <= Threshold(cfg)
    requires Run(cfg, age, n, steps).Some?
    ensures Exclusive(Run(cfg, age, n, steps).value)
    ensures RemovalHarmless(Run(cfg, age, n, steps).value)
  {
    RunKeepsInv(cfg, age, n, steps);
  }
}
