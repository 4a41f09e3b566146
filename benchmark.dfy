/**
 * The benchmark's shared state and the sequential parts of its threads: the
 * table of test records with the aggregate in its last slot, each record's
 * generator, the run-state flag, and the random-data buffer.
 */
module Benchmark {
  import opened Config
  import opened MersenneTwister
  import opened Offset
  import opened Accounting
  import opened States
  import opened Setup

  /** The block size of a record in bytes: block_size_kb shifted left by 10. */
  function BlockBytes(s: TestState): (todo: int)
    ensures s.blockSizeKb > 0 ==> todo >= 1024 && todo % 1024 == 0
    ensures IsPow2(s.blockSizeKb) ==> IsPow2(todo)
  {
    var todo := s.blockSizeKb * 1024;
    assert IsPow2(s.blockSizeKb) ==> IsPow2(todo) by {
      if IsPow2(s.blockSizeKb) {
        KibPow2(s.blockSizeKb);
      }
    }
    todo
  }

  /** A record reset for worker t of a phase whose settings are in the aggregate g. */
  function WorkerRecord(s: TestState, t: int, g: TestState, numThreads: int): (w: TestState)
    requires numThreads > 0
    ensures w.threadNum == t && w.bytesDone == 0 && w.iosDone == 0 && w.finishedFlag == 0
    ensures w.bytesTotal == Quota(g.bytesTotal, numThreads)
    ensures w.testFlags == g.testFlags && w.filesize == g.filesize && w.blockSizeKb == g.blockSizeKb
    ensures w.startTime == s.startTime && w.endTime == s.endTime
  {
    s.(threadNum := t, filesize := g.filesize, bytesTotal := Quota(g.bytesTotal, numThreads),
       iosDone := 0, bytesDone := 0, blockSizeKb := g.blockSizeKb, testFlags := g.testFlags,
       finishedFlag := 0)
  }

  /** The aggregate's settings for a phase. */
  function PhaseRecord(s: TestState, testFlags: bv8, blockSizeKb: int, fileSizeGb: int, numThreads: int): (g: TestState)
    ensures g.filesize == FileSize(fileSizeGb) && g.bytesTotal == BytesTotal(testFlags, g.filesize)
    ensures g.testFlags == testFlags && g.blockSizeKb == blockSizeKb && g.threadNum == numThreads
    ensures g.bytesDone == s.bytesDone && g.iosDone == s.iosDone && g.finishedFlag == s.finishedFlag
    ensures g.startTime == s.startTime && g.endTime == s.endTime
  {
    var fs := FileSize(fileSizeGb);
    s.(filesize := fs, blockSizeKb := blockSizeKb, testFlags := testFlags, threadNum := numThreads,
       bytesTotal := BytesTotal(testFlags, fs))
  }

  /**
   * The random-data buffer after the fill loop has run up to byte byteLimit:
   * the first byteLimit / 4 generator outputs, then the words as they were.
   */
  function Filled(seed: seq<bv32>, byteLimit: int, before: seq<bv32>): (r: seq<bv32>)
    requires |seed| == MT_LEN && 0 <= byteLimit && byteLimit / 4 <= |before|
    ensures |r| == |before|
    ensures forall k :: 0 <= k < byteLimit / 4 ==> r[k] == Outputs(State(seed, 0), byteLimit / 4)[k]
    ensures forall k :: byteLimit / 4 <= k < |before| ==> r[k] == before[k]
  {
    Outputs(State(seed, 0), byteLimit / 4) + before[byteLimit / 4..]
  }

  /** Storing word w at index k extends the filled prefix by w. */
  lemma FilledStore(done: seq<bv32>, before: seq<bv32>, k: int, w: bv32)
    requires |done| == k < |before|
    ensures (done + before[k..])[k := w] == (done + [w]) + before[k + 1..]
  {
    var a := (done + before[k..])[k := w];
    var b := (done + [w]) + before[k + 1..];
    assert |a| == |b|;
    forall j | 0 <= j < |a|
      ensures a[j] == b[j]
    {
    }
  }

  /** The contents of the statically zeroed random-data buffer. */
  function Zeros(): (z: seq<bv32>)
    ensures |z| == RANDOM_DATA_WORDS && forall k :: 0 <= k < |z| ==> z[k] == 0
  {
    seq(RANDOM_DATA_WORDS, _ => 0)
  }

  /**
   * The fill as written stops at byte RANDOM_DATA_BYTES >> 2: only the first
   * quarter of the buffer receives generator output, and the remaining three
   * quarters keep their static zeros.
   */
  lemma QuarterFill(seed: seq<bv32>)
    requires |seed| == MT_LEN
    ensures var d := Filled(seed, RANDOM_DATA_BYTES / 4, Zeros());
      d[..RANDOM_DATA_WORDS / 4] == Outputs(State(seed, 0), RANDOM_DATA_WORDS / 4) &&
      forall k :: RANDOM_DATA_WORDS / 4 <= k < RANDOM_DATA_WORDS ==> d[k] == 0
  {
    var d := Filled(seed, RANDOM_DATA_BYTES / 4, Zeros());
    var o := Outputs(State(seed, 0), RANDOM_DATA_WORDS / 4);
    assert d == o + Zeros()[RANDOM_DATA_WORDS / 4..];
    forall k | RANDOM_DATA_WORDS / 4 <= k < RANDOM_DATA_WORDS
      ensures d[k] == 0
    {
      assert d[k] == Zeros()[k];
    }
  }

  /**
   * The corrected fill, up to byte RANDOM_DATA_BYTES, covers the whole buffer:
   * word 624 q + r is word r of the seed regenerated q times.
   */
  lemma FullFill(seed: seq<bv32>)
    requires |seed| == MT_LEN
    ensures Filled(seed, RANDOM_DATA_BYTES, Zeros()) == Outputs(State(seed, 0), RANDOM_DATA_WORDS)
    ensures forall q, r :: 0 <= r < MT_LEN && 0 <= MT_LEN * q + r < RANDOM_DATA_WORDS ==>
      Filled(seed, RANDOM_DATA_BYTES, Zeros())[MT_LEN * q + r] == Iterate(seed, q)[r]
  {
    var d := Filled(seed, RANDOM_DATA_BYTES, Zeros());
    assert d == Outputs(State(seed, 0), RANDOM_DATA_WORDS) + [];
    forall q, r | 0 <= r < MT_LEN && 0 <= MT_LEN * q + r < RANDOM_DATA_WORDS
      ensures d[MT_LEN * q + r] == Iterate(seed, q)[r]
    {
      OutputFromSeed(seed, RANDOM_DATA_WORDS, q, r);
    }
  }

  /** The n quotas of a phase fall short of its byte bound by less than n bytes. */
  lemma PhaseQuotas(records: seq<TestState>, g: TestState)
    requires |records| > 0 && g.bytesTotal >= 0
    requires forall t :: 0 <= t < |records| ==> records[t].bytesTotal == Quota(g.bytesTotal, |records|)
    ensures SumBytesTotal(records) <= g.bytesTotal < SumBytesTotal(records) + |records|
  {
    SumUniformQuota(records, Quota(g.bytesTotal, |records|));
  }

  /** One more draw extends both the generator's state and the offsets of the run by one step. */
  lemma DrawStep(g: State, k: nat, filesize: int, todo: int)
    requires WellFormed(g) && filesize > 0 && todo > 0
    ensures After(g, k + 1) == Next(After(g, k)).1
    ensures Offsets(Outputs(g, k + 1), filesize, todo) ==
      Offsets(Outputs(g, k), filesize, todo) + [RandomOffset(Next(After(g, k)).0, filesize, todo)]
  {
    AfterSnoc(g, k);
    OffsetsSnoc(Outputs(g, k), Next(After(g, k)).0, filesize, todo);
  }

  /**
   * The offset of one random-mode operation: the next word of the worker's
   * generator mt, reduced modulo the file size, with the bits of todo - 1
   * cleared. The ghost parameters say where the generator stands in its
   * sequence of words: k draws after g.
   */
  method DrawOffset(mt: MT, filesize: int, todo: int, ghost g: State, ghost k: nat) returns (offset: int)
    requires mt.Valid() && filesize > 0 && todo > 0
    requires WellFormed(g) && mt.Model() == After(g, k)
    modifies mt, mt.buffer
    ensures mt.Valid()
    ensures mt.Model() == After(g, k + 1)
    ensures Offsets(Outputs(g, k), filesize, todo) + [offset] == Offsets(Outputs(g, k + 1), filesize, todo)
  {
    var r := mt.Random();
    offset := RandomOffset(r, filesize, todo);
    DrawStep(g, k, filesize, todo);
  }

  /**
   * One pass of test_thread's loop, the k-th, with counters p: the loop test;
   * if it passes, the offset draw in random mode, the I/O call's outcome
   * env[k].done and the counting. Pass k' comes next; while the loop goes on
   * the rest of the run is Work from there, otherwise the run ends here.
   */
  method Pass(mt: MT, random: bool, filesize: int, todo: int, total: int, env: seq<Tick>, k: int,
              p: Progress, ghost g: State)
    returns (exit: Exit, q: Progress, k': int, draws: seq<int>)
    requires 0 <= k < |env| && todo > 0 && mt.Valid() && WellFormed(g)
    requires random ==> filesize > 0 && mt.Model() == After(g, k)
    modifies mt, mt.buffer
    ensures mt.Valid()
    ensures k' == if exit == Finished then k else k + 1
    ensures exit == Pending ==> Work(p, todo, total, env, k) == Work(q, todo, total, env, k')
    ensures exit != Pending ==> Work(p, todo, total, env, k) == Run(exit, q, k')
    ensures random ==> mt.Model() == After(g, k')
    ensures random ==> Offsets(Outputs(g, k), filesize, todo) + draws == Offsets(Outputs(g, k'), filesize, todo)
    ensures !random ==> mt.Model() == old(mt.Model()) && draws == []
  {
    if !KeepsRunning(env[k].flagAtTest, total, p.bytesDone) {
      return Finished, p, k, [];
    }
    draws := [];
    if random {
      var o := DrawOffset(mt, filesize, todo, g, k);
      draws := [o];
    }
    var done := env[k].done;
    k' := k + 1;
    if done != todo {
      return IoError, p, k', draws;
    }
    exit := Pending;
    if Counted(total, env[k].flagAtCount) {
      q := Progress(p.bytesDone + done, p.iosDone + 1);
    } else {
      q := p;
    }
  }

  /** The process-wide state of the benchmark. */
  class Mozzio {
    /** state[0 .. MAX_THREADS-1]: the worker records; state[MAX_THREADS]: the aggregate. */
    const state: array<TestState>
    /** The generator embedded in each record: mts[t] is state[t].mt. */
    const mts: seq<MT>
    /** state_flag: STOPPED, STARTING or RUNNING. */
    var stateFlag: int
    /** random_data, as 32-bit words. */
    const randomData: array<bv32>

    ghost predicate Valid()
      reads this, mts
    {
      && state.Length == MAX_THREADS + 1
      && |mts| == MAX_THREADS + 1
      && randomData.Length == RANDOM_DATA_WORDS
      && (forall t :: 0 <= t < |mts| ==> mts[t].Valid() && mts[t].buffer != randomData)
      && (forall t, u :: 0 <= t < |mts| && 0 <= u < |mts| && t != u ==>
            mts[t] != mts[u] && mts[t].buffer != mts[u].buffer)
    }

    /** The static storage: every record, generator and data word zero, and the flag STOPPED. */
    constructor ()
      ensures Valid() && fresh(state) && fresh(randomData)
      ensures stateFlag == MOZZIO_STOPPED
      ensures forall t :: 0 <= t < state.Length ==> state[t] == ZeroState
      ensures randomData[..] == Zeros()
      ensures forall t :: 0 <= t < |mts| ==> fresh(mts[t]) && fresh(mts[t].buffer)
      ensures forall t :: 0 <= t < |mts| ==> mts[t].Model() == State(seq(MT_LEN, _ => 0), 0)
    {
      var gens: seq<MT> := [];
      while |gens| < MAX_THREADS + 1
        invariant |gens| <= MAX_THREADS + 1
        invariant forall t :: 0 <= t < |gens| ==> fresh(gens[t]) && fresh(gens[t].buffer)
        invariant forall t :: 0 <= t < |gens| ==> gens[t].Valid()
        invariant forall t :: 0 <= t < |gens| ==> gens[t].Model() == State(seq(MT_LEN, _ => 0), 0)
        invariant forall t, u :: 0 <= t < |gens| && 0 <= u < |gens| && t != u ==>
          gens[t] != gens[u] && gens[t].buffer != gens[u].buffer
      {
        var m := new MT();
        gens := gens + [m];
      }
      var data := new bv32[RANDOM_DATA_WORDS](_ => 0);
      assert data[..] == Zeros();
      state := new TestState[MAX_THREADS + 1](_ => ZeroState);
      randomData := data;
      mts := gens;
      stateFlag := MOZZIO_STOPPED;
    }

    /**
     * The fill loop of init_random_data with its byte bound as a parameter:
     * the global generator is seeded, and one output is stored per 4 bytes
     * of the bound, in order.
     */
    method FillRandomData(seed: seq<bv32>, byteLimit: int)
      requires Valid() && |seed| == MT_LEN
      requires 0 <= byteLimit <= RANDOM_DATA_BYTES && byteLimit % 4 == 0
      modifies mts[GLOBAL], mts[GLOBAL].buffer, randomData
      ensures Valid()
      ensures randomData[..] == Filled(seed, byteLimit, old(randomData[..]))
      ensures mts[GLOBAL].Model() == After(State(seed, 0), byteLimit / 4)
    {
      var mt := mts[GLOBAL];
      mt.Init(seed);
      ghost var g := State(seed, 0);
      ghost var before := randomData[..];
      var i, k := 0, 0;
      while i < byteLimit
        invariant i == 4 * k && 0 <= k <= byteLimit / 4
        invariant mt.Valid() && mt.Model() == After(g, k)
        invariant randomData[..] == Outputs(g, k) + before[k..]
        decreases byteLimit - i
      {
        var w := mt.Random();
        randomData[k] := w;
        FilledStore(Outputs(g, k), before, k, w);
        AfterSnoc(g, k);
        i := i + 4;
        k := k + 1;
      }
    }

    /** init_random_data as written: the loop bound is RANDOM_DATA_BYTES >> 2 bytes. */
    method InitRandomData(seed: seq<bv32>)
      requires Valid() && |seed| == MT_LEN
      modifies mts[GLOBAL], mts[GLOBAL].buffer, randomData
      ensures Valid()
      ensures randomData[..RANDOM_DATA_WORDS / 4] == Outputs(State(seed, 0), RANDOM_DATA_WORDS / 4)
      ensures randomData[RANDOM_DATA_WORDS / 4..] == old(randomData[RANDOM_DATA_WORDS / 4..])
      ensures mts[GLOBAL].Model() == After(State(seed, 0), RANDOM_DATA_WORDS / 4)
    {
      FillRandomData(seed, RANDOM_DATA_BYTES / 4);
    }

    /** init_random_data with the bound it evidently intends: every word of the buffer. */
    method InitRandomDataFull(seed: seq<bv32>)
      requires Valid() && |seed| == MT_LEN
      modifies mts[GLOBAL], mts[GLOBAL].buffer, randomData
      ensures Valid()
      ensures randomData[..] == Outputs(State(seed, 0), RANDOM_DATA_WORDS)
      ensures mts[GLOBAL].Model() == After(State(seed, 0), RANDOM_DATA_WORDS)
    {
      FillRandomData(seed, RANDOM_DATA_BYTES);
    }
  
    /**
     * The bookkeeping of perform_test before the workers start: the open mode
     * and cache decision, the aggregate's settings, the initial run state, and
     * for each of the numThreads workers a reseeded generator (seeds[t] stands
     * for the words rand() supplies) and a reset record.
     */
    method StartPhase(testFlags: bv8, blockSizeKb: int, fileSizeGb: int, numThreads: int, seeds: seq<seq<bv32>>)
      returns (mode: OpenMode, dropCache: bool)
      requires Valid() && 1 <= numThreads <= MAX_THREADS
      requires |seeds| == numThreads && forall t :: 0 <= t < numThreads ==> |seeds[t]| == MT_LEN
      modifies this, state
      modifies set t | 0 <= t < numThreads :: mts[t]
      modifies set t | 0 <= t < numThreads :: mts[t].buffer
      ensures Valid()
      ensures mode == OpenModeFor(testFlags) && dropCache == DropsCache(testFlags)
      ensures stateFlag == StartFlag(numThreads)
      ensures state[GLOBAL] == PhaseRecord(old(state[GLOBAL]), testFlags, blockSizeKb, fileSizeGb, numThreads)
      ensures forall t :: 0 <= t < numThreads ==>
        state[t] == WorkerRecord(old(state[t]), t, state[GLOBAL], numThreads) &&
        mts[t].Model() == State(seeds[t], 0)
      ensures forall t :: numThreads <= t < MAX_THREADS ==> state[t] == old(state[t])
    {
      mode := OpenModeFor(testFlags);
      dropCache := DropsCache(testFlags);
      var g := PhaseRecord(state[GLOBAL], testFlags, blockSizeKb, fileSizeGb, numThreads);
      state[GLOBAL] := g;
      stateFlag := StartFlag(numThreads);
      var t := 0;
      while t < numThreads
        invariant 0 <= t <= numThreads
        invariant Valid() && state[GLOBAL] == g
        invariant forall u :: 0 <= u < t ==>
          state[u] == WorkerRecord(old(state[u]), u, g, numThreads) && mts[u].Model() == State(seeds[u], 0)
        invariant forall u :: t <= u < MAX_THREADS ==> state[u] == old(state[u])
        invariant stateFlag == StartFlag(numThreads)
      {
        mts[t].Init(seeds[t]);
        state[t] := WorkerRecord(state[t], t, g, numThreads);
        t := t + 1;
      }
    }

    /**
     * test_thread for worker t over the observations env, with startTime and
     * endTime the clock readings it takes. The counters follow Work; in a
     * random phase each I/O call first draws one generator word and its offset
     * is recorded in offsets; a phase that ends normally sets the end time and
     * the finished flag.
     */
    method TestThread(t: int, env: seq<Tick>, startTime: int, endTime: int) returns (run: Run, offsets: seq<int>)
      requires Valid() && 0 <= t < MAX_THREADS && state[t].blockSizeKb > 0
      requires state[t].testFlags & MOZZIO_SEQUENTIAL == 0 ==> state[t].filesize > 0
      modifies state, mts[t], mts[t].buffer
      ensures Valid()
      ensures run == Work(Progress(old(state[t].bytesDone), old(state[t].iosDone)),
        BlockBytes(old(state[t])), old(state[t].bytesTotal), env, 0)
      ensures state[t] == old(state[t]).(bytesDone := run.progress.bytesDone, iosDone := run.progress.iosDone,
        startTime := startTime,
        endTime := if run.exit == Finished then endTime else old(state[t].endTime),
        finishedFlag := if run.exit == Finished then 1 else old(state[t].finishedFlag))
      ensures old(state[t].testFlags) & MOZZIO_SEQUENTIAL == 0 ==>
        mts[t].Model() == After(old(mts[t].Model()), run.ops) &&
        offsets == Offsets(Outputs(old(mts[t].Model()), run.ops), old(state[t].filesize), BlockBytes(old(state[t])))
      ensures old(state[t].testFlags) & MOZZIO_SEQUENTIAL != 0 ==>
        mts[t].Model() == old(mts[t].Model()) && offsets == []
      ensures forall u :: 0 <= u < state.Length && u != t ==> state[u] == old(state[u])
    {
      var s0 := state[t];
      var todo := BlockBytes(s0);
      var total := s0.bytesTotal;
      var random := s0.testFlags & MOZZIO_SEQUENTIAL == 0;
      var mt := mts[t];
      ghost var g0 := mt.Model();
      ghost var whole := Work(Progress(s0.bytesDone, s0.iosDone), todo, total, env, 0);
      var bd, io := s0.bytesDone, s0.iosDone;
      state[t] := s0.(startTime := startTime);
      offsets := [];
      var k := 0;
      var exit := Pending;
      while k < |env|
        invariant 0 <= k <= |env|
        invariant mt.Valid()
        invariant state[t] == s0.(bytesDone := bd, iosDone := io, startTime := startTime)
        invariant forall u :: 0 <= u < state.Length && u != t ==> state[u] == old(state[u])
        invariant random ==> mt.Model() == After(g0, k) && offsets == Offsets(Outputs(g0, k), s0.filesize, todo)
        invariant !random ==> mt.Model() == g0 && offsets == []
        invariant whole == Work(Progress(bd, io), todo, total, env, k)
      {
        var e, q, k', draws := Pass(mt, random, s0.filesize, todo, total, env, k, Progress(bd, io), g0);
        offsets := offsets + draws;
        if q != Progress(bd, io) {
          bd, io := q.bytesDone, q.iosDone;
          state[t] := s0.(bytesDone := bd, iosDone := io, startTime := startTime);
        }
        k := k';
        if e != Pending {
          exit := e;
          break;
        }
      }
      if exit == Finished {
        state[t] := state[t].(endTime := endTime, finishedFlag := 1);
      }
      run := Run(exit, Progress(bd, io), k);
    }

    /**
     * collect_thread_stats: the aggregate gets the summed counters and the
     * latest start time of records 0 .. n-1, and the result is how many of
     * them have not finished.
     */
    method CollectThreadStats(n: int) returns (unfinished: int)
      requires state.Length == MAX_THREADS + 1 && 0 <= n <= MAX_THREADS
      modifies state
      ensures unfinished == CountUnfinished(state[..n])
      ensures state[GLOBAL] == old(state[GLOBAL]).(
        bytesDone := SumBytesDone(state[..n]), iosDone := SumIosDone(state[..n]),
        startTime := if n == 0 then old(state[GLOBAL].startTime) else LatestStart(state[..n]))
      ensures forall u :: 0 <= u < MAX_THREADS ==> state[u] == old(state[u])
    {
      ghost var recs := state[..n];
      var g0 := state[GLOBAL];
      var bytes, ios, start := 0, 0, g0.startTime;
      state[GLOBAL] := g0.(iosDone := ios, bytesDone := bytes);
      unfinished := 0;
      var thr := 0;
      while thr < n
        invariant 0 <= thr <= n
        invariant forall u :: 0 <= u < MAX_THREADS ==> state[u] == old(state[u])
        invariant unfinished == CountUnfinished(recs[..thr])
        invariant bytes == SumBytesDone(recs[..thr]) && ios == SumIosDone(recs[..thr])
        invariant start == if thr == 0 then g0.startTime else LatestStart(recs[..thr])
        invariant state[GLOBAL] == g0.(bytesDone := bytes, iosDone := ios, startTime := start)
      {
        var s := state[thr];
        assert s == recs[thr];
        PrefixStep(recs, thr);
        bytes, ios := bytes + s.bytesDone, ios + s.iosDone;
        if s.finishedFlag == 0 {
          unfinished := unfinished + 1;
        }
        if thr == 0 || start < s.startTime {
          start := s.startTime;
        }
        state[GLOBAL] := g0.(bytesDone := bytes, iosDone := ios, startTime := start);
        thr := thr + 1;
      }
      assert recs[..n] == recs;
      assert state[..n] == recs;
    }
  }
}
