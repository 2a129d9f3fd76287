/**
 * The bookkeeping of the storage node's bucket integrity checker: per disk it
 * walks the bucket database in key order, interleaving retries of failed
 * repairs, counts the repair replies that come back, and decides from the
 * schedule whether a verification cycle should run now.
 */
module IntegrityChecker {
  import opened Wrappers
  import opened IntegritySchedule

  /**
   * A bucket, written as its bucket-database key (BucketId::toKey, which is
   * a bijection, so the key identifies the bucket); the database is kept in
   * key order.
   */
  type BucketId = uint64

  /** BucketId(0, 0): key 0, before every bucket; also the "no bucket" answer of iterate. */
  const NullBucket: BucketId := 0

  /** One bucket database entry: the bucket and the disk it lives on. */
  datatype DbEntry = DbEntry(bucket: BucketId, disk: uint8)

  /** The storage bucket database, as the ordered sequence its `each` walks. */
  type BucketDatabase = seq<DbEntry>

  /** Keys are strictly increasing: the database order, each key at most once. */
  predicate Ordered(db: BucketDatabase) {
    forall i, j :: 0 <= i < j < |db| ==> db[i].bucket < db[j].bucket
  }

  // ---------------------------------------------------------------------
  // Finding the next bucket of a disk

  /** The first bucket in database order that lives on `disk` and comes after `last`. */
  function NextOnDisk(db: BucketDatabase, last: BucketId, disk: uint8): (next: Option<BucketId>)
    ensures next.Some? ==> next.value > last
    ensures next.Some? ==>
      exists k :: 0 <= k < |db| && db[k] == DbEntry(next.value, disk) &&
        forall j :: 0 <= j < k ==> !(db[j].disk == disk && db[j].bucket > last)
    ensures next.None? ==> forall j :: 0 <= j < |db| ==> !(db[j].disk == disk && db[j].bucket > last)
  {
    if db == [] then None
    else if db[0].disk == disk && db[0].bucket > last then Some(db[0].bucket)
    else
      var rest := NextOnDisk(db[1..], last, disk);
      assert forall j :: 1 <= j < |db| ==> db[j] == db[1..][j - 1];
      rest
  }

  /** In an ordered database the next bucket is the smallest one of the disk after `last`. */
  lemma NextOnDiskIsSmallest(db: BucketDatabase, last: BucketId, disk: uint8)
    requires Ordered(db)
    ensures NextOnDisk(db, last, disk).Some? ==>
      forall j :: 0 <= j < |db| && db[j].disk == disk && db[j].bucket > last ==>
        NextOnDisk(db, last, disk).value <= db[j].bucket
  {
    var next := NextOnDisk(db, last, disk);
    if next.Some? {
      var k :| 0 <= k < |db| && db[k] == DbEntry(next.value, disk) &&
        forall j :: 0 <= j < k ==> !(db[j].disk == disk && db[j].bucket > last);
      forall j | 0 <= j < |db| && db[j].disk == disk && db[j].bucket > last
        ensures next.value <= db[j].bucket
      {
        if j > k {
          assert db[k].bucket < db[j].bucket;
        }
      }
    }
  }

  /**
   * getNextId with its NextEntryFinder: walks the database from the key of
   * `last` on, skips other disks and, once, `last` itself, and stops at the
   * first bucket left.
   */
  method GetNextId(db: BucketDatabase, last: BucketId, disk: uint8) returns (next: Option<BucketId>)
    requires Ordered(db)
    ensures next == NextOnDisk(db, last, disk)
  {
    var first := true;
    var i := 0;
    while i < |db|
      invariant 0 <= i <= |db|
      invariant NextOnDisk(db, last, disk) == NextOnDisk(db[i..], last, disk)
      invariant !first ==> forall j :: i <= j < |db| ==> db[j].bucket > last
    {
      assert db[i..][0] == db[i] && db[i..][1..] == db[i + 1..];
      var entry := db[i];
      if entry.bucket < last {
        // before the start key: not visited
      } else if entry.disk != disk {
        // CONTINUE
      } else if first && entry.bucket == last {
        first := false;
      } else {
        return Some(entry.bucket);  // ABORT
      }
      i := i + 1;
    }
    return None;
  }

  // ---------------------------------------------------------------------
  // Per-disk state

  datatype DiskState = NotStarted | InProgress | Done

  /** BucketIntegrityChecker::DiskData: the progress of the current cycle on one disk. */
  datatype DiskData = DiskData(
    disk: uint8,
    state: DiskState,
    currentBucket: BucketId,
    failedRepairs: seq<BucketId>,   // the deque, front first
    pendingCount: uint32,
    checkedBuckets: uint32,
    retriedBuckets: uint32)
  {
    /** DiskData::done. */
    predicate IsDone() {
      state == Done && failedRepairs == [] && pendingCount == 0
    }

    /** DiskData::working. */
    predicate IsWorking() {
      state == InProgress || failedRepairs != [] || pendingCount != 0
    }
  }

  /** A done disk is never working; a disk is done exactly when it has finished its walk and is idle. */
  lemma DoneMeansIdle(d: DiskData)
    ensures d.IsDone() ==> !d.IsWorking()
    ensures d.IsDone() <==> (d.state == Done && !d.IsWorking())
  {
  }

  // ---------------------------------------------------------------------
  // DiskData::iterate

  /** `++i % 10 == 9` on iterate's 32-bit function-static counter: every tenth call with retries pending. */
  predicate RetryDue(counter: uint32) {
    Wrap32(counter + 1) % 10 == 9
  }

  /** Where the walk continues: NOT_STARTED restarts before every bucket. */
  function ScanStart(d: DiskData): BucketId {
    if d.state == NotStarted then NullBucket else d.currentBucket
  }

  /** Takes the front of the failed-repairs deque for a retry. */
  function PopRetry(d: DiskData): (r: DiskData)
    requires d.failedRepairs != []
  {
    d.(failedRepairs := d.failedRepairs[1..], retriedBuckets := Wrap32(d.retriedBuckets + 1))
  }

  /** What one call of iterate leaves: the disk's new data, the counter, and the bucket handed out. */
  datatype IterateStep = IterateStep(data: DiskData, counter: uint32, bucket: BucketId)

  /** The effect of DiskData::iterate on a disk, given the shared counter and the database. */
  function IterateSpec(d: DiskData, counter: uint32, db: BucketDatabase): IterateStep {
    if d.failedRepairs != [] && RetryDue(counter) then
      IterateStep(PopRetry(d), Wrap32(counter + 1), d.failedRepairs[0])
    else
      var counter' := if d.failedRepairs != [] then Wrap32(counter + 1) else counter;
      var d1 := d.(currentBucket := ScanStart(d));
      var next := if d.state != Done then NextOnDisk(db, ScanStart(d), d.disk) else None;
      if next.Some? then
        IterateStep(d1.(state := InProgress, currentBucket := next.value), counter', next.value)
      else
        var d2 := d1.(state := Done);
        if d2.failedRepairs != [] then IterateStep(PopRetry(d2), counter', d2.failedRepairs[0])
        else IterateStep(d2, counter', NullBucket)
  }

  /** On the tenth call with retries pending, the front failed bucket is handed out and counted as retried. */
  lemma IterateRetriesOnSchedule(d: DiskData, counter: uint32, db: BucketDatabase)
    requires d.failedRepairs != [] && RetryDue(counter)
    ensures IterateSpec(d, counter, db) == IterateStep(PopRetry(d), Wrap32(counter + 1), d.failedRepairs[0])
  {
  }

  /**
   * Either the failed-repairs deque and the retry count stay as they were, or the
   * front bucket is handed out, popped, and the retry count goes up by exactly one;
   * the other counters are never touched, and the shared counter moves only while
   * retries are pending.
   */
  lemma IterateRetryBookkeeping(d: DiskData, counter: uint32, db: BucketDatabase)
    ensures var s := IterateSpec(d, counter, db);
      || (s.data.failedRepairs == d.failedRepairs && s.data.retriedBuckets == d.retriedBuckets)
      || (d.failedRepairs != [] && s.bucket == d.failedRepairs[0] &&
          s.data.failedRepairs == d.failedRepairs[1..] && s.data.retriedBuckets == Wrap32(d.retriedBuckets + 1))
    ensures var s := IterateSpec(d, counter, db);
      s.data.disk == d.disk && s.data.pendingCount == d.pendingCount && s.data.checkedBuckets == d.checkedBuckets
    ensures IterateSpec(d, counter, db).counter == if d.failedRepairs != [] then Wrap32(counter + 1) else counter
  {
  }

  /**
   * Without a scheduled retry, a disk that is not done hands out the first bucket
   * of its own disk after where it stands (after BucketId(0,0) when not started),
   * and is in progress at that bucket.
   */
  lemma IterateWalksDisk(d: DiskData, counter: uint32, db: BucketDatabase)
    requires !(d.failedRepairs != [] && RetryDue(counter))
    requires d.state != Done
    requires NextOnDisk(db, ScanStart(d), d.disk).Some?
    ensures var s := IterateSpec(d, counter, db);
      && s.bucket == NextOnDisk(db, ScanStart(d), d.disk).value
      && s.bucket > ScanStart(d)
      && s.data.state == InProgress && s.data.currentBucket == s.bucket
      && s.data.failedRepairs == d.failedRepairs && s.data.retriedBuckets == d.retriedBuckets
  {
  }

  /**
   * With no bucket left on the disk and no scheduled retry, the disk becomes DONE;
   * a pending failed repair is still retried: handed out, popped and counted.
   */
  lemma IterateExhausted(d: DiskData, counter: uint32, db: BucketDatabase)
    requires !(d.failedRepairs != [] && RetryDue(counter))
    requires d.state == Done || NextOnDisk(db, ScanStart(d), d.disk).None?
    ensures IterateSpec(d, counter, db).data.state == Done
    ensures d.failedRepairs != [] ==> IterateSpec(d, counter, db).bucket == d.failedRepairs[0]
    ensures d.failedRepairs != [] ==>
      && IterateSpec(d, counter, db).data.failedRepairs == d.failedRepairs[1..]
      && IterateSpec(d, counter, db).data.retriedBuckets == Wrap32(d.retriedBuckets + 1)
    ensures d.failedRepairs == [] ==>
      && IterateSpec(d, counter, db).bucket == NullBucket
      && IterateSpec(d, counter, db).data.retriedBuckets == d.retriedBuckets
  {
  }

  /** BucketId(0,0) comes back exactly when the disk has no bucket left and no failed repair to retry. */
  lemma IterateNullBucket(d: DiskData, counter: uint32, db: BucketDatabase)
    requires NullBucket !in d.failedRepairs
    ensures IterateSpec(d, counter, db).bucket == NullBucket <==>
      (d.failedRepairs == [] && (d.state == Done || NextOnDisk(db, ScanStart(d), d.disk).None?))
  {
    if d.failedRepairs != [] {
      assert d.failedRepairs[0] in d.failedRepairs;
    }
  }

  // ---------------------------------------------------------------------
  // Repair replies

  /** The three ways a repair result is treated: ok, non-critical for the checker, or a real failure. */
  datatype RepairResult = Succeeded | NonCriticalFailure | Failed

  /** The internal replies the checker sees; only repair bucket replies concern it. */
  datatype InternalReply =
    | RepairBucketReply(bucket: BucketId, disk: uint8, result: RepairResult)
    | OtherInternalReply

  /** The counter changes onInternalReply makes to the replying disk. */
  function AfterRepairReply(d: DiskData, bucket: BucketId, result: RepairResult): DiskData {
    var d1 := d.(pendingCount := Wrap32(d.pendingCount - 1));
    match result
    case Succeeded => d1.(checkedBuckets := Wrap32(d.checkedBuckets + 1))
    case NonCriticalFailure => d1.(checkedBuckets := Wrap32(d.checkedBuckets + 1))
    case Failed => d1.(failedRepairs := d.failedRepairs + [bucket])
  }

  /**
   * A reply always takes one off the pending count (32-bit); success and non-critical
   * failures count the bucket as checked, other failures queue it for retry.
   */
  lemma AfterRepairReplyCounters(d: DiskData, bucket: BucketId, result: RepairResult)
    ensures var r := AfterRepairReply(d, bucket, result);
      && Wrap32(r.pendingCount + 1) == d.pendingCount
      && (d.pendingCount > 0 ==> r.pendingCount == d.pendingCount - 1)
      && r.disk == d.disk && r.state == d.state && r.currentBucket == d.currentBucket
      && r.retriedBuckets == d.retriedBuckets
    ensures var r := AfterRepairReply(d, bucket, result);
      result != Failed ==> r.checkedBuckets == Wrap32(d.checkedBuckets + 1) && r.failedRepairs == d.failedRepairs
    ensures var r := AfterRepairReply(d, bucket, result);
      result == Failed ==> r.checkedBuckets == d.checkedBuckets && r.failedRepairs == d.failedRepairs + [bucket]
  {
  }

  /** Every disk has finished its cycle. */
  predicate AllDone(status: seq<DiskData>) {
    forall i :: 0 <= i < |status| ==> status[i].IsDone()
  }

  /** The exact sum of the pending counts. */
  function SumPending(status: seq<DiskData>): nat {
    if status == [] then 0
    else SumPending(status[..|status| - 1]) + status[|status| - 1].pendingCount
  }

  /** The total is zero exactly when no disk has a request pending. */
  lemma {:induction false} SumPendingZero(status: seq<DiskData>)
    ensures SumPending(status) == 0 <==> forall i :: 0 <= i < |status| ==> status[i].pendingCount == 0
  {
    if status != [] {
      var init := status[..|status| - 1];
      SumPendingZero(init);
      assert forall i :: 0 <= i < |init| ==> init[i] == status[i];
    }
  }

  /** Replacing one disk's data changes the total by the difference of that disk's pending counts. */
  lemma {:induction false} SumPendingUpdate(status: seq<DiskData>, k: nat, x: DiskData)
    requires k < |status|
    ensures SumPending(status[k := x]) == SumPending(status) - status[k].pendingCount + x.pendingCount
  {
    var n := |status|;
    var s' := status[k := x];
    if k == n - 1 {
      assert s'[..n - 1] == status[..n - 1];
    } else {
      assert s'[..n - 1] == status[..n - 1][k := x];
      SumPendingUpdate(status[..n - 1], k, x);
    }
  }

  /** A repair reply for a disk with requests pending lowers the exact total by one. */
  lemma RepairReplyLowersTotal(status: seq<DiskData>, k: nat, bucket: BucketId, result: RepairResult)
    requires k < |status| && status[k].pendingCount > 0
    ensures SumPending(status[k := AfterRepairReply(status[k], bucket, result)]) == SumPending(status) - 1
  {
    SumPendingUpdate(status, k, AfterRepairReply(status[k], bucket, result));
  }

  /** Truncation to 32 bits can be done before or after an addition. */
  lemma Wrap32Add(a: int, b: int)
    ensures Wrap32(Wrap32(a) + b) == Wrap32(a + b)
  {
    var q := a / 0x1_0000_0000;
    assert a == q * 0x1_0000_0000 + Wrap32(a);
  }

  // ---------------------------------------------------------------------
  // The checker

  class BucketIntegrityChecker {
    /** `_status`: one entry per disk, index = disk. */
    var status: seq<DiskData>
    /** The function-static counter `i` of DiskData::iterate, shared by every disk. */
    var retryCounter: uint32
    var scheduleOptions: SchedulingOptions
    var lastCycleStart: uint64          // seconds
    var lastResponseTime: uint64        // seconds
    var lastCycleCompleted: bool
    var currentRunWithFullVerification: bool
    var maxThreadWaitTime: uint64       // milliseconds

    /**
     * configure: takes the new options only when the config passes validation,
     * and then shortens the worker's wait to one second if a cycle may be
     * shorter than the current wait, else sets it to one minute.
     */
    method Configure(config: IntegrityCheckerConfig)
      modifies this`scheduleOptions, this`maxThreadWaitTime
      ensures ConfigOptions(config).None? ==>
        scheduleOptions == old(scheduleOptions) && maxThreadWaitTime == old(maxThreadWaitTime)
      ensures ConfigOptions(config).Some? ==>
        && scheduleOptions == ConfigOptions(config).value
        && maxThreadWaitTime == if Wrap64(scheduleOptions.minCycleTime * 1000) < old(maxThreadWaitTime) then 1000 else 60 * 1000
    {
      var options := BuildOptions(config);
      if options.None? {
        return;
      }
      if Wrap64(options.value.minCycleTime * 1000) < maxThreadWaitTime {
        maxThreadWaitTime := 1000;
      } else {
        maxThreadWaitTime := 60 * 1000;
      }
      scheduleOptions := options.value;
    }

    /**
     * getCurrentRunState, with the weekday (0 = Sunday) and minute of the day of
     * `currentTime` given rather than derived from the clock.
     */
    function CurrentRunState(weekday: nat, minuteOfDay: nat, currentTime: uint64): (state: RunState)
      reads this
      requires weekday < 7
      ensures state != Continue
    {
      var opts := scheduleOptions;
      var planned := opts.dailyStates[weekday];
      if !InDailyWindow(opts.dailyCycleStart, opts.dailyCycleStop, minuteOfDay) then DontRun
      else if planned == Continue then
        if lastCycleCompleted then DontRun
        else if currentRunWithFullVerification then RunFull
        else RunCheap
      else if (planned == RunFull || planned == RunCheap)
           && lastCycleCompleted && Wrap64(currentTime - lastCycleStart) < opts.minCycleTime
           && (currentRunWithFullVerification || planned == RunCheap) then
        DontRun
      else
        planned
    }

    /** DiskData::iterate on disk `d`, with the counter shared by all disks. */
    method Iterate(d: nat, db: BucketDatabase) returns (bid: BucketId)
      requires d < |status| && Ordered(db)
      modifies this`status, this`retryCounter
      ensures var step := IterateSpec(old(status[d]), old(retryCounter), db);
        status == old(status)[d := step.data] && retryCounter == step.counter && bid == step.bucket
    {
      var data := status[d];
      if data.failedRepairs != [] {
        retryCounter := Wrap32(retryCounter + 1);
        if retryCounter % 10 == 9 {
          bid := data.failedRepairs[0];
          status := status[d := PopRetry(data)];
          return;
        }
      }
      if data.state == NotStarted {
        data := data.(currentBucket := NullBucket);
      }
      if data.state != Done {
        var next := GetNextId(db, data.currentBucket, data.disk);
        if next.Some? {
          data := data.(state := InProgress, currentBucket := next.value);
          status := status[d := data];
          return next.value;
        }
        data := data.(state := Done);
      }
      if data.failedRepairs != [] {
        bid := data.failedRepairs[0];
        status := status[d := PopRetry(data)];
        return;
      }
      status := status[d := data];
      bid := NullBucket;
    }

    /**
     * onInternalReply: only repair bucket replies are handled. The replying disk's
     * counters change as AfterRepairReply says, no other disk changes, and after a
     * successful repair that leaves the disk done the cycle counts as completed
     * exactly when every disk is done.
     */
    method OnInternalReply(reply: InternalReply, now: uint64) returns (handled: bool)
      requires reply.RepairBucketReply? ==> reply.disk < |status|
      modifies this`status, this`lastResponseTime, this`lastCycleCompleted
      ensures handled == reply.RepairBucketReply?
      ensures !handled ==>
        status == old(status) && lastResponseTime == old(lastResponseTime) && lastCycleCompleted == old(lastCycleCompleted)
      ensures handled ==> lastResponseTime == now
      ensures handled ==>
        status == old(status)[reply.disk := AfterRepairReply(old(status[reply.disk]), reply.bucket, reply.result)]
      ensures handled ==>
        lastCycleCompleted ==
          if reply.result == Succeeded && status[reply.disk].IsDone() then AllDone(status) else old(lastCycleCompleted)
    {
      if !reply.RepairBucketReply? {
        return false;
      }
      lastResponseTime := now;
      var disk := reply.disk;
      var data := status[disk];
      data := data.(pendingCount := Wrap32(data.pendingCount - 1));
      match reply.result {
        case Succeeded =>
          data := data.(checkedBuckets := Wrap32(data.checkedBuckets + 1));
          status := status[disk := data];
          if data.IsDone() {
            var completed := true;
            var i := 0;
            while i < |status|
              invariant 0 <= i <= |status|
              invariant forall j :: 0 <= j < i ==> status[j].IsDone()
            {
              if !status[i].IsDone() {
                completed := false;
                break;
              }
              i := i + 1;
            }
            lastCycleCompleted := completed;
          }
        case NonCriticalFailure =>
          data := data.(checkedBuckets := Wrap32(data.checkedBuckets + 1));
          status := status[disk := data];
        case Failed =>
          data := data.(failedRepairs := data.failedRepairs + [reply.bucket]);
          status := status[disk := data];
      }
      return true;
    }

    /** getTotalPendingCount: the pending counts of all disks added up in 32 bits. */
    method GetTotalPendingCount() returns (total: uint32)
      ensures total == Wrap32(SumPending(status))
    {
      total := 0;
      var i := 0;
      while i < |status|
        invariant 0 <= i <= |status|
        invariant total == Wrap32(SumPending(status[..i]))
      {
        assert status[..i + 1][..i] == status[..i];
        Wrap32Add(SumPending(status[..i]), status[i].pendingCount);
        total := Wrap32(total + status[i].pendingCount);
        i := i + 1;
      }
      assert status[..|status|] == status;
    }
  }

  // ---------------------------------------------------------------------
  // Properties of the run-state decision

  /** Outside the daily window nothing runs. */
  lemma RunStateOutsideWindow(c: BucketIntegrityChecker, weekday: nat, minuteOfDay: nat, now: uint64)
    requires weekday < 7
    requires !InDailyWindow(c.scheduleOptions.dailyCycleStart, c.scheduleOptions.dailyCycleStop, minuteOfDay)
    ensures c.CurrentRunState(weekday, minuteOfDay, now) == DontRun
  {
  }

  /** A CONTINUE day resumes an unfinished cycle with its own verification level, and otherwise does not run. */
  lemma RunStateContinue(c: BucketIntegrityChecker, weekday: nat, minuteOfDay: nat, now: uint64)
    requires weekday < 7 && c.scheduleOptions.dailyStates[weekday] == Continue
    requires InDailyWindow(c.scheduleOptions.dailyCycleStart, c.scheduleOptions.dailyCycleStop, minuteOfDay)
    ensures c.CurrentRunState(weekday, minuteOfDay, now) ==
      if c.lastCycleCompleted then DontRun
      else if c.currentRunWithFullVerification then RunFull
      else RunCheap
  {
  }

  /**
   * A run day inside the window runs as planned, except that a new cycle sooner than
   * the minimum cycle time after the last start is put off, unless it brings full
   * verification after a cheap cycle.
   */
  lemma RunStateDelay(c: BucketIntegrityChecker, weekday: nat, minuteOfDay: nat, now: uint64)
    requires weekday < 7
    requires c.scheduleOptions.dailyStates[weekday] in {RunFull, RunCheap}
    requires InDailyWindow(c.scheduleOptions.dailyCycleStart, c.scheduleOptions.dailyCycleStop, minuteOfDay)
    ensures var planned := c.scheduleOptions.dailyStates[weekday];
      var tooSoon := c.lastCycleCompleted && Wrap64(now - c.lastCycleStart) < c.scheduleOptions.minCycleTime;
      c.CurrentRunState(weekday, minuteOfDay, now) ==
        if tooSoon && (c.currentRunWithFullVerification || planned == RunCheap) then DontRun else planned
  {
  }

  /** The decided state never asks for more than the day plans: a DONT_RUN day never runs, a cheap day never runs full. */
  lemma RunStateWithinPlan(c: BucketIntegrityChecker, weekday: nat, minuteOfDay: nat, now: uint64)
    requires weekday < 7
    ensures var planned := c.scheduleOptions.dailyStates[weekday];
      var decided := c.CurrentRunState(weekday, minuteOfDay, now);
      && (planned == DontRun ==> decided == DontRun)
      && (decided == RunFull ==> planned in {RunFull, Continue})
      && (decided == RunCheap ==> planned in {RunCheap, Continue})
  {
  }
}
