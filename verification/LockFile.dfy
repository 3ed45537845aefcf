/** The lock object as the code has it: fields updated in place, one method per stretch of code between
two awaits. The heartbeat methods do to the fields what the protocol's steps do to an instance.
 */
module LockFile {
  import opened Wrappers
  import opened LockProtocol

  class LockFile {
    const heartBeatIntervalMs: int
    var interval: bool
    var pending: Option<int>
    var lastExpiryCheck: Option<Check>

    constructor (heartBeatIntervalMs: int)
      ensures this.heartBeatIntervalMs == heartBeatIntervalMs
      ensures !interval && pending == None && lastExpiryCheck == None
    {
      this.heartBeatIntervalMs := heartBeatIntervalMs;
      interval, pending, lastExpiryCheck := false, None, None;
    }

    /** The instance this object is, when its code stands at `phase`. */
    ghost function At(phase: Phase): Instance
      reads this
    {
      Instance(phase, interval, pending)
    }

    /** getStatus, given the clock it read and the modification time its stat found, if any. */
    method GetStatus(currentTimeMs: int, stat: Option<int>) returns (status: Status)
      modifies this`lastExpiryCheck
      ensures stat == None <==> status == Unlocked
      ensures stat == None ==> lastExpiryCheck == old(lastExpiryCheck)
      ensures stat.Some? && old(lastExpiryCheck) == None ==>
                (status == Expired <==> currentTimeMs - stat.value > 2000
                                        && currentTimeMs - stat.value > 3 * heartBeatIntervalMs)
      ensures stat.Some? && old(lastExpiryCheck).Some? && old(lastExpiryCheck).value.mtime == stat.value ==>
                && lastExpiryCheck == old(lastExpiryCheck)
                && var since := old(lastExpiryCheck).value.since;
                   (status == Expired <==> currentTimeMs - since > 2000
                                           && currentTimeMs - since > 3 * heartBeatIntervalMs)
      ensures stat.Some? && old(lastExpiryCheck).Some? && old(lastExpiryCheck).value.mtime != stat.value ==>
                status == Locked && lastExpiryCheck == Some(Check(stat.value, currentTimeMs))
      ensures stat.Some? ==>
                var threshold := Threshold(Config(heartBeatIntervalMs, 0, 0));
                && lastExpiryCheck == Some(Remember(threshold, old(lastExpiryCheck), currentTimeMs, stat.value))
                && status == StatusOf(threshold, lastExpiryCheck.value, currentTimeMs)
    {
      if stat == None {
        return Unlocked;
      }
      var fileTimeMs := stat.value;
      var thresholdMs := if heartBeatIntervalMs * 3 < 2000 then 2000 else heartBeatIntervalMs * 3;
      if lastExpiryCheck == None {
        if currentTimeMs - fileTimeMs > thresholdMs {
          lastExpiryCheck := Some(Check(fileTimeMs, currentTimeMs - thresholdMs - 1));
        } else {
          lastExpiryCheck := Some(Check(fileTimeMs, currentTimeMs));
        }
      } else if lastExpiryCheck.value.mtime != fileTimeMs {
        lastExpiryCheck := Some(Check(fileTimeMs, currentTimeMs));
      }
      if currentTimeMs - lastExpiryCheck.value.since > thresholdMs {
        return Expired;
      }
      return Locked;
    }

    /** The heartbeat up to its utimes; `started` is false when another beat is in flight. */
    method HeartBeatBegin(now: int) returns (started: bool)
      modifies this`pending
      ensures started == old(pending).None?
      ensures pending == if started then Some(now) else old(pending)
      ensures forall p :: At(p) == BeatBegin(old(At(p)), now)
    {
      if pending.Some? {
        return false;
      }
      pending := Some(now);
      return true;
    }

    /** The heartbeat after its utimes. */
    method HeartBeatEnd(ok: bool)
      modifies this
      ensures pending == None && interval == (old(interval) && ok)
      ensures forall p :: At(p) == BeatEnd(old(At(p)), ok)
      ensures lastExpiryCheck == if !ok && old(interval) then None else old(lastExpiryCheck)
    {
      if !ok && interval {
        interval := false;
        lastExpiryCheck := None;
      }
      pending := None;
    }

    /** tryLock once mkdir has succeeded, up to the utimes of its first heartbeat; when an earlier heartbeat is still in
        flight there is none, and tryLock gives up. */
    method BeginTryLock(now: int) returns (started: bool)
      modifies this`pending, this`lastExpiryCheck
      ensures started == old(pending).None? && lastExpiryCheck == None
      ensures started ==> At(FirstBeat) == BeatBegin(old(At(FirstBeat)), now) && pending == Some(now)
      ensures !started ==> forall p :: At(p) == old(At(p))
    {
      lastExpiryCheck := None;
      started := HeartBeatBegin(now);
    }

    /** tryLock after its first heartbeat: its answer, and the phase the instance is in. */
    method FinishTryLock(ok: bool) returns (locked: bool)
      requires !interval
      modifies this
      ensures locked == ok && interval == ok && pending == None
      ensures At(if locked then Held else Idle) == FirstBeatEnd(old(At(FirstBeat)), ok)
    {
      HeartBeatEnd(ok);
      assert At(FirstBeat) == BeatEnd(old(At(FirstBeat)), ok);
      if ok {
        interval := true;
      }
      return ok;
    }

    /** unlock up to its wait for a running heartbeat; false stands for the failed assertion. */
    method BeginUnlock(force: bool, now: int) returns (accepted: bool)
      modifies this`interval
      ensures accepted == (force || old(interval))
      ensures accepted ==> !interval
      ensures accepted ==> At(Stopping(now)) == StopInterval(old(At(Held)), now)
      ensures !accepted ==> interval == old(interval)
    {
      if !force && !interval {
        return false;
      }
      interval := false;
      return true;
    }

    /** unlock before its rmdir, whether or not the wait ended in a timeout: a heartbeat may still be in flight. */
    method FinishUnlock()
      modifies this`lastExpiryCheck
      ensures lastExpiryCheck == None && forall p :: At(p) == old(At(p))
    {
      lastExpiryCheck := None;
    }
  }
}
