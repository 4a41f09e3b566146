/**
 * The per-thread test record (struct MOZZIO_TEST_STATE) and the aggregates
 * collect_thread_stats builds from the first n records.
 */
module States {
  /**
   * One test record, without its generator (kept beside it as an object):
   * the thread's number, the phase's flags, file size, byte quota and block
   * size, the two counters, the two timestamps (abstract clock readings) and
   * the finished flag.
   */
  datatype TestState = TestState(
    threadNum: int,
    testFlags: bv8,
    filesize: int,
    bytesTotal: int,
    blockSizeKb: int,
    bytesDone: int,
    iosDone: int,
    startTime: int,
    endTime: int,
    finishedFlag: int)

  /** The all-zero record a static array starts out with. */
  const ZeroState := TestState(0, 0, 0, 0, 0, 0, 0, 0, 0, 0)

  /** bytes_done summed over the records, in index order. */
  function SumBytesDone(s: seq<TestState>): (sum: int)
    ensures (forall i :: 0 <= i < |s| ==> s[i].bytesDone >= 0) ==> sum >= 0
    decreases |s|
  {
    if s == [] then 0 else SumBytesDone(s[..|s| - 1]) + s[|s| - 1].bytesDone
  }

  /** ios_done summed over the records, in index order. */
  function SumIosDone(s: seq<TestState>): (sum: int)
    ensures (forall i :: 0 <= i < |s| ==> s[i].iosDone >= 0) ==> sum >= 0
    decreases |s|
  {
    if s == [] then 0 else SumIosDone(s[..|s| - 1]) + s[|s| - 1].iosDone
  }

  /** bytes_total summed over the records. */
  function SumBytesTotal(s: seq<TestState>): int
    decreases |s|
  {
    if s == [] then 0 else SumBytesTotal(s[..|s| - 1]) + s[|s| - 1].bytesTotal
  }

  /** The number of records whose finished flag is still 0. */
  function CountUnfinished(s: seq<TestState>): (c: int)
    ensures 0 <= c <= |s|
    decreases |s|
  {
    if s == [] then 0
    else CountUnfinished(s[..|s| - 1]) + (if s[|s| - 1].finishedFlag == 0 then 1 else 0)
  }

  /** The latest start time among the records. */
  function LatestStart(s: seq<TestState>): (m: int)
    requires s != []
    ensures forall i :: 0 <= i < |s| ==> s[i].startTime <= m
    ensures exists i :: 0 <= i < |s| && s[i].startTime == m
    decreases |s|
  {
    if |s| == 1 then s[0].startTime
    else
      var m := LatestStart(s[..|s| - 1]);
      if m < s[|s| - 1].startTime then s[|s| - 1].startTime else m
  }

  /** Extending the record prefix by record i extends each aggregate by that record. */
  lemma PrefixStep(s: seq<TestState>, i: int)
    requires 0 <= i < |s|
    ensures SumBytesDone(s[..i + 1]) == SumBytesDone(s[..i]) + s[i].bytesDone
    ensures SumIosDone(s[..i + 1]) == SumIosDone(s[..i]) + s[i].iosDone
    ensures CountUnfinished(s[..i + 1]) == CountUnfinished(s[..i]) + if s[i].finishedFlag == 0 then 1 else 0
    ensures LatestStart(s[..i + 1]) ==
      if i == 0 || LatestStart(s[..i]) < s[i].startTime then s[i].startTime else LatestStart(s[..i])
  {
    assert s[..i + 1][..i] == s[..i];
  }

  /** No worker is unfinished exactly when every finished flag is set. */
  lemma {:induction false} UnfinishedNone(s: seq<TestState>)
    ensures CountUnfinished(s) == 0 <==> forall i :: 0 <= i < |s| ==> s[i].finishedFlag != 0
    decreases |s|
  {
    if s != [] {
      var init := s[..|s| - 1];
      UnfinishedNone(init);
      assert forall i :: 0 <= i < |init| ==> init[i] == s[i];
    }
  }

  /**
   * When every record moved exactly todo bytes per counted operation, so do
   * the sums: the aggregate bytes_done is the aggregate ios_done times todo.
   */
  lemma {:induction false} SumsInStep(s: seq<TestState>, todo: int)
    requires forall i :: 0 <= i < |s| ==> s[i].bytesDone == s[i].iosDone * todo
    ensures SumBytesDone(s) == SumIosDone(s) * todo
    decreases |s|
  {
    if s != [] {
      var init := s[..|s| - 1];
      assert forall i :: 0 <= i < |init| ==> init[i] == s[i];
      SumsInStep(init, todo);
      assert (SumIosDone(init) + s[|s| - 1].iosDone) * todo
        == SumIosDone(init) * todo + s[|s| - 1].iosDone * todo;
    }
  }

  /** Records that all carry quota q sum to |s| q. */
  lemma {:induction false} SumUniformQuota(s: seq<TestState>, q: int)
    requires forall i :: 0 <= i < |s| ==> s[i].bytesTotal == q
    ensures SumBytesTotal(s) == |s| * q
    decreases |s|
  {
    if s != [] {
      var init := s[..|s| - 1];
      assert forall i :: 0 <= i < |init| ==> init[i] == s[i];
      SumUniformQuota(init, q);
      assert (|s| - 1) * q + q == |s| * q;
    }
  }
}
