/**
 * The counting and termination logic of one worker loop (test_thread), with
 * the I/O call and the shared run-state flag abstracted into what the worker
 * observes on each pass.
 */
module Accounting {
  import opened Config

  /**
   * One pass of the loop as the worker sees it: the run-state flag when the
   * loop condition is tested, the byte count the I/O call returns, and the
   * run-state flag when the worker decides whether to count the operation.
   */
  datatype Tick = Tick(flagAtTest: int, done: int, flagAtCount: int)

  /** The counters bytes_done and ios_done. */
  datatype Progress = Progress(bytesDone: int, iosDone: int)

  /**
   * How a stretch of the loop ends: the loop condition failed, an operation
   * fell short (the process exits through fail), or the observations ran out
   * while the loop was still going.
   */
  datatype Exit = Finished | IoError | Pending

  /** The end of a stretch: how it ended, the counters, and the I/O calls issued. */
  datatype Run = Run(exit: Exit, progress: Progress, ops: nat)

  /** The loop condition: the run is not stopped and the quota, if any, is not yet met. */
  predicate KeepsRunning(flag: int, bytesTotal: int, bytesDone: int)
    ensures flag == MOZZIO_STOPPED ==> !KeepsRunning(flag, bytesTotal, bytesDone)
    ensures bytesTotal == 0 ==> (KeepsRunning(flag, bytesTotal, bytesDone) <==> flag != MOZZIO_STOPPED)
    ensures bytesTotal != 0 && bytesDone >= bytesTotal ==> !KeepsRunning(flag, bytesTotal, bytesDone)
  {
    flag != MOZZIO_STOPPED && (bytesTotal == 0 || bytesDone < bytesTotal)
  }

  /** A completed operation is counted unless a duration phase is still starting up. */
  predicate Counted(bytesTotal: int, flag: int)
    ensures bytesTotal != 0 ==> Counted(bytesTotal, flag)
    ensures bytesTotal == 0 ==> (Counted(bytesTotal, flag) <==> flag != MOZZIO_STARTING)
  {
    bytesTotal != 0 || flag != MOZZIO_STARTING
  }

  /** The counters after one operation that moved `done` bytes. */
  function Account(p: Progress, done: int, bytesTotal: int, flag: int): (q: Progress)
    ensures q.iosDone == p.iosDone + 1 <==> Counted(bytesTotal, flag)
    ensures q.iosDone == p.iosDone <==> !Counted(bytesTotal, flag)
    ensures q.bytesDone == p.bytesDone + (q.iosDone - p.iosDone) * done
  {
    if Counted(bytesTotal, flag) then Progress(p.bytesDone + done, p.iosDone + 1) else p
  }

  /**
   * The loop of test_thread from pass k on, with counters p. The result's ops
   * is the number of passes, counted from the first, that issued their I/O
   * call; on a Finished run it is also the pass whose test failed.
   */
  function Work(p: Progress, todo: int, bytesTotal: int, env: seq<Tick>, k: int): (r: Run)
    requires 0 <= k <= |env|
    ensures k <= r.ops <= |env|
    ensures r.exit == Pending ==> r.ops == |env|
    ensures r.exit == Finished ==>
      r.ops < |env| && !KeepsRunning(env[r.ops].flagAtTest, bytesTotal, r.progress.bytesDone)
    ensures r.exit == IoError ==> k < r.ops && env[r.ops - 1].done != todo
    decreases |env| - k
  {
    if k == |env| then Run(Pending, p, k)
    else if !KeepsRunning(env[k].flagAtTest, bytesTotal, p.bytesDone) then Run(Finished, p, k)
    else if env[k].done != todo then Run(IoError, p, k + 1)
    else Work(Account(p, todo, bytesTotal, env[k].flagAtCount), todo, bytesTotal, env, k + 1)
  }

  /** Every counted operation moved exactly todo bytes. */
  predicate InStep(p: Progress, todo: int) {
    p.bytesDone == p.iosDone * todo
  }

  /**
   * The counters never decrease, advance by at most one operation per I/O call,
   * and keep bytes_done == ios_done * todo.
   */
  lemma {:induction false} WorkCounters(p: Progress, todo: int, bytesTotal: int, env: seq<Tick>, k: int)
    requires todo > 0 && InStep(p, todo) && 0 <= k <= |env|
    ensures var q := Work(p, todo, bytesTotal, env, k).progress;
      InStep(q, todo) && p.bytesDone <= q.bytesDone && p.iosDone <= q.iosDone
    ensures Work(p, todo, bytesTotal, env, k).progress.iosDone <= p.iosDone + Work(p, todo, bytesTotal, env, k).ops - k
    decreases |env| - k
  {
    if k < |env| && KeepsRunning(env[k].flagAtTest, bytesTotal, p.bytesDone) && env[k].done == todo {
      var p' := Account(p, todo, bytesTotal, env[k].flagAtCount);
      assert (p.iosDone + 1) * todo == p.iosDone * todo + todo;
      WorkCounters(p', todo, bytesTotal, env, k + 1);
    }
  }

  /** With a quota, no operation starts once bytes_done has reached it, so it is overshot by less than one block. */
  lemma {:induction false} QuotaOvershoot(p: Progress, todo: int, bytesTotal: int, env: seq<Tick>, k: int)
    requires bytesTotal > 0 && p.bytesDone < bytesTotal + todo && 0 <= k <= |env|
    ensures Work(p, todo, bytesTotal, env, k).progress.bytesDone < bytesTotal + todo
    decreases |env| - k
  {
    if k < |env| && KeepsRunning(env[k].flagAtTest, bytesTotal, p.bytesDone) && env[k].done == todo {
      QuotaOvershoot(Account(p, todo, bytesTotal, env[k].flagAtCount), todo, bytesTotal, env, k + 1);
    }
  }

  /** Every observed pass runs: the flag never reads STOPPED and every call moves todo bytes. */
  predicate AllGood(env: seq<Tick>, todo: int) {
    forall i :: 0 <= i < |env| ==> env[i].flagAtTest != MOZZIO_STOPPED && env[i].done == todo
  }

  /**
   * With a quota and nothing going wrong, the loop ends as soon as bytes_done
   * reaches the quota, provided enough passes are observed.
   */
  lemma {:induction false} QuotaReached(p: Progress, todo: int, bytesTotal: int, env: seq<Tick>, k: int)
    requires bytesTotal > 0 && todo > 0 && AllGood(env, todo)
    requires 0 <= k < |env| && bytesTotal <= p.bytesDone + (|env| - 1 - k) * todo
    ensures Work(p, todo, bytesTotal, env, k).exit == Finished
    ensures Work(p, todo, bytesTotal, env, k).progress.bytesDone >= bytesTotal
    decreases |env| - k
  {
    if p.bytesDone < bytesTotal {
      var p' := Account(p, todo, bytesTotal, env[k].flagAtCount);
      assert p'.bytesDone == p.bytesDone + todo;
      assert (|env| - 1 - k) * todo == (|env| - 1 - (k + 1)) * todo + todo;
      QuotaReached(p', todo, bytesTotal, env, k + 1);
    }
  }

  /** During the start-up of a duration phase nothing is counted. */
  lemma {:induction false} StartupNotCounted(p: Progress, todo: int, env: seq<Tick>, k: int)
    requires 0 <= k <= |env|
    requires forall i :: k <= i < |env| ==> env[i].flagAtCount == MOZZIO_STARTING
    ensures Work(p, todo, 0, env, k).progress == p
    decreases |env| - k
  {
    if k < |env| && KeepsRunning(env[k].flagAtTest, 0, p.bytesDone) && env[k].done == todo {
      StartupNotCounted(p, todo, env, k + 1);
    }
  }

  /**
   * A duration phase (no quota) whose operations all succeed finishes exactly
   * at the first pass that observes the STOPPED flag, and is still running
   * when the observations run out if there is none.
   */
  lemma {:induction false} DurationStops(p: Progress, todo: int, env: seq<Tick>, k: int)
    requires 0 <= k <= |env|
    requires forall i :: k <= i < |env| ==> env[i].done == todo
    ensures Work(p, todo, 0, env, k).exit == Finished <==>
      exists i :: k <= i < |env| && env[i].flagAtTest == MOZZIO_STOPPED
    ensures Work(p, todo, 0, env, k).exit != IoError
    ensures forall i :: k <= i < Work(p, todo, 0, env, k).ops ==> env[i].flagAtTest != MOZZIO_STOPPED
    decreases |env| - k
  {
    if k < |env| && env[k].flagAtTest != MOZZIO_STOPPED {
      DurationStops(Account(p, todo, 0, env[k].flagAtCount), todo, env, k + 1);
    }
  }
}
