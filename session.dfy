/**
 * What a reader sees over a whole session of read calls on one open file, for
 * the read as written (data ends at `BUF_LEN`) and as intended (data ends at
 * `strlen(msg)`), and what repeated opens do to the shared buffer.
 */
module ReadSession {
  import opened Format
  import opened Chardrv

  /** One `read(2)` on the open file: the count asked for and the transfer's verdict. */
  datatype ReadCall = ReadCall(length: SizeT, copyOk: bool)

  function Max(a: int, b: int): int {
    if a < b then b else a
  }

  /**
   * The steps of a session of read calls on one file whose offset starts at
   * `offset`, when the readable data ends at `limit`; each call starts where
   * the previous one left the offset.
   */
  function Run(limit: nat, offset: nat, calls: seq<ReadCall>): (steps: seq<Step>)
    ensures |steps| == |calls|
    ensures forall k | 0 <= k < |steps| :: offset <= steps[k].offset <= Max(offset, limit)
    decreases |calls|
  {
    if calls == [] then []
    else
      var s := ReadStep(limit, calls[0].length, offset, calls[0].copyOk);
      [s] + Run(limit, s.offset, calls[1..])
  }

  /** The offset a session's `k`-th call starts from. */
  function Before(offset: nat, steps: seq<Step>, k: nat): int
    requires k <= |steps|
  {
    if k == 0 then offset else steps[k - 1].offset
  }

  /** The offset after the last call of a session. */
  function Final(limit: nat, offset: nat, calls: seq<ReadCall>): nat
    decreases |calls|
  {
    if calls == [] then offset
    else
      var s := ReadStep(limit, calls[0].length, offset, calls[0].copyOk);
      Final(limit, s.offset, calls[1..])
  }

  /** Bytes handed out over a session: the sum of the successful calls' returns. */
  function Delivered(steps: seq<Step>): int {
    if steps == [] then 0 else Max(steps[0].ret, 0) + Delivered(steps[1..])
  }

  /**
   * Every call of a session is one read from the offset the previous call
   * left: it returns `-EFAULT` and keeps the offset, or returns its count and
   * moves the offset by exactly that count.
   */
  lemma {:induction false} RunSteps(limit: nat, offset: nat, calls: seq<ReadCall>)
    ensures var steps := Run(limit, offset, calls);
      forall k | 0 <= k < |steps| ::
        && Before(offset, steps, k) >= 0
        && steps[k] == ReadStep(limit, calls[k].length, Before(offset, steps, k), calls[k].copyOk)
        && (steps[k].ret == -EFAULT || steps[k].ret >= 0)
        && steps[k].offset == Before(offset, steps, k) + Max(steps[k].ret, 0)
    decreases |calls|
  {
    if calls != [] {
      var steps := Run(limit, offset, calls);
      var s := steps[0];
      var rest := Run(limit, s.offset, calls[1..]);
      assert steps[1..] == rest;
      RunSteps(limit, s.offset, calls[1..]);
      forall k | 1 <= k < |steps|
        ensures Before(offset, steps, k) == Before(s.offset, rest, k - 1)
      {
      }
    }
  }

  /** Over a session the offset never goes back. */
  lemma {:induction false} RunNonDecreasing(limit: nat, offset: nat, calls: seq<ReadCall>)
    ensures forall j, k | 0 <= j <= k < |calls| ::
      Run(limit, offset, calls)[j].offset <= Run(limit, offset, calls)[k].offset
    decreases |calls|
  {
    if calls != [] {
      var steps := Run(limit, offset, calls);
      var s := steps[0];
      var rest := Run(limit, s.offset, calls[1..]);
      assert steps[1..] == rest;
      RunNonDecreasing(limit, s.offset, calls[1..]);
      forall j, k | 0 <= j <= k < |steps|
        ensures steps[j].offset <= steps[k].offset
      {
        if 0 < j {
          assert steps[j] == rest[j - 1] && steps[k] == rest[k - 1];
          assert rest[j - 1].offset <= rest[k - 1].offset;
        } else if 0 < k {
          assert steps[k] == rest[k - 1];
          assert s.offset <= rest[k - 1].offset;
        }
      }
    }
  }

  /** The last step of a session leaves the offset at `Final`. */
  lemma {:induction false} RunEndsAtFinal(limit: nat, offset: nat, calls: seq<ReadCall>)
    requires calls != []
    ensures Run(limit, offset, calls)[|calls| - 1].offset == Final(limit, offset, calls)
    decreases |calls|
  {
    var s := ReadStep(limit, calls[0].length, offset, calls[0].copyOk);
    if |calls| > 1 {
      RunEndsAtFinal(limit, s.offset, calls[1..]);
      assert Run(limit, offset, calls)[|calls| - 1] == Run(limit, s.offset, calls[1..])[|calls| - 2];
    }
  }

  /** A session moves the offset by exactly the number of bytes it handed out. */
  lemma {:induction false} FinalIsOffsetPlusDelivered(limit: nat, offset: nat, calls: seq<ReadCall>)
    ensures Final(limit, offset, calls) == offset + Delivered(Run(limit, offset, calls))
    decreases |calls|
  {
    if calls != [] {
      var steps := Run(limit, offset, calls);
      var s := steps[0];
      assert steps[1..] == Run(limit, s.offset, calls[1..]);
      FinalIsOffsetPlusDelivered(limit, s.offset, calls[1..]);
    }
  }

  /** At or past the end of the data every call returns 0 and the offset stays put. */
  lemma {:induction false} RunAtEnd(limit: nat, offset: nat, calls: seq<ReadCall>)
    requires limit <= offset
    ensures forall k | 0 <= k < |calls| :: Run(limit, offset, calls)[k] == Step(0, offset)
    decreases |calls|
  {
    if calls != [] {
      var steps := Run(limit, offset, calls);
      assert steps[0] == Step(0, offset);
      RunAtEnd(limit, offset, calls[1..]);
      forall k | 1 <= k < |calls|
        ensures steps[k] == Step(0, offset)
      {
        assert steps[k] == Run(limit, offset, calls[1..])[k - 1];
      }
    }
  }

  /**
   * The driver as written: from offset 0 a session keeps the offset within
   * `[0, BUF_LEN]` and non-decreasing, ends at the number of bytes it handed
   * out, and once the offset is `BUF_LEN` every further call returns 0,
   * whether or not the caller's buffer is valid.
   */
  lemma AsWrittenSession(calls: seq<ReadCall>, more: seq<ReadCall>)
    ensures var steps := Run(BUF_LEN, 0, calls);
      && (forall k | 0 <= k < |steps| :: 0 <= steps[k].offset <= BUF_LEN)
      && (forall j, k | 0 <= j <= k < |steps| :: steps[j].offset <= steps[k].offset)
    ensures calls != [] ==>
      Run(BUF_LEN, 0, calls)[|calls| - 1].offset == Delivered(Run(BUF_LEN, 0, calls))
    ensures forall k | 0 <= k < |more| :: Run(BUF_LEN, BUF_LEN, more)[k] == Step(0, BUF_LEN)
  {
    RunNonDecreasing(BUF_LEN, 0, calls);
    if calls != [] {
      RunEndsAtFinal(BUF_LEN, 0, calls);
    }
    FinalIsOffsetPlusDelivered(BUF_LEN, 0, calls);
    RunAtEnd(BUF_LEN, BUF_LEN, more);
  }

  // ---------------------------------------------------------------------------
  // The read as intended: reads follow the offset through the text.
  // ---------------------------------------------------------------------------

  /** The bytes a session of intended reads hands out, in order, from the text `text`. */
  function Drained(text: string, offset: nat, calls: seq<ReadCall>): string
    requires offset <= |text|
    decreases |calls|
  {
    if calls == [] then []
    else
      var s := ReadStep(|text|, calls[0].length, offset, calls[0].copyOk);
      (if s.ret < 0 then [] else text[offset..s.offset]) + Drained(text, s.offset, calls[1..])
  }

  /** An intended session hands out the text between its first and last offsets, in order. */
  lemma {:induction false} DrainedIsSlice(text: string, offset: nat, calls: seq<ReadCall>)
    requires offset <= |text|
    ensures offset <= Final(|text|, offset, calls) <= |text|
    ensures Drained(text, offset, calls) == text[offset..Final(|text|, offset, calls)]
    decreases |calls|
  {
    if calls != [] {
      var s := ReadStep(|text|, calls[0].length, offset, calls[0].copyOk);
      DrainedIsSlice(text, s.offset, calls[1..]);
      var f := Final(|text|, offset, calls);
      assert text[offset..s.offset] + text[s.offset..f] == text[offset..f];
    }
  }

  /**
   * Enough successful calls asking for at least one byte each drain the text
   * to its end.
   */
  lemma {:induction false} DrainCompletes(text: string, offset: nat, calls: seq<ReadCall>)
    requires offset <= |text|
    requires forall k | 0 <= k < |calls| :: calls[k].length > 0 && calls[k].copyOk
    requires |text| - offset <= |calls|
    ensures Final(|text|, offset, calls) == |text|
    ensures Drained(text, offset, calls) == text[offset..]
    decreases |calls|
  {
    DrainedIsSlice(text, offset, calls);
    if calls != [] {
      var s := ReadStep(|text|, calls[0].length, offset, calls[0].copyOk);
      DrainCompletes(text, s.offset, calls[1..]);
    }
  }

  /**
   * End to end, as intended: after a bounded open of a table whose snapshot
   * fits, a session of successful reads recovers the process table exactly.
   */
  lemma IntendedSessionRecoversTasks(tasks: seq<Task>, calls: seq<ReadCall>)
    requires forall k | 0 <= k < |tasks| :: PrintableComm(tasks[k].comm)
    requires |Snapshot(tasks)| < BUF_LEN
    requires forall k | 0 <= k < |calls| :: calls[k].length > 0 && calls[k].copyOk
    requires |Snapshot(tasks)| <= |calls|
    ensures ParseSnapshot(Drained(Clip(Snapshot(tasks)), 0, calls)) == Some(tasks)
  {
    var text := Clip(Snapshot(tasks));
    DrainCompletes(text, 0, calls);
    assert text[0..] == text;
    SnapshotRoundTrip(tasks);
  }

  // ---------------------------------------------------------------------------
  // Discrepancies between the driver as written and as intended.
  // ---------------------------------------------------------------------------

  /** The two-process table used in the witnesses below. */
  function SampleTasks(): seq<Task> {
    [Task("init", 1), Task("kworker", 12)]
  }

  /** The snapshot of the sample table: 20 bytes. */
  lemma SampleSnapshot()
    ensures Snapshot(SampleTasks()) == "init 1 \nkworker 12 \n"
    ensures |Snapshot(SampleTasks())| == 20
  {
    var t1, t2 := Task("init", 1), Task("kworker", 12);
    assert Decimal(1) == "1";
    assert Decimal(12) == "12" by {
      assert Digits(12) == Digits(1) + [DigitChar(2)];
    }
    assert Line(t1) == "init 1 \n";
    assert Line(t2) == "kworker 12 \n";
    assert [] + [t1] == [t1];
    SnapshotSnoc([], t1);
    assert [t1] + [t2] == SampleTasks();
    SnapshotSnoc([t1], t2);
  }

  /**
   * As written, the second 10-byte read (at offset 10) hands out the first
   * ten bytes again, and reads past the text go on returning NUL padding
   * instead of end of file; the intended read hands out bytes 10..20 and then
   * returns 0.
   */
  lemma AsWrittenRereadsHead()
    ensures var text := Snapshot(SampleTasks());
      && ReadStep(BUF_LEN, 10, 0, true) == Step(10, 10)
      && ReadStep(BUF_LEN, 10, 10, true) == Step(10, 20)
      && Padded(text)[..10] == "init 1 \nkw"
      && text[10..20] == "orker 12 \n"
      && Padded(text)[..10] != text[10..20]
      && ReadStep(BUF_LEN, 100, 20, true) == Step(100, 120)
      && Padded(text)[..100][20..] == seq(80, _ => NUL)
      && ReadStep(|text|, 100, 20, true) == Step(0, 20)
  {
    SampleSnapshot();
    var text := Snapshot(SampleTasks());
    var p := Padded(text);
    assert p[..10] == p[..20][..10];
    assert p[..100][20..] == seq(80, _ => NUL) by {
      forall i | 0 <= i < 80
        ensures p[..100][20..][i] == NUL
      {
        assert p[..100][20..][i] == p[20 + i];
      }
    }
  }

  /** The text left in `msg` by `k` as-written opens of the same table: nothing is ever cleared. */
  function AfterOpens(snapshot: string, k: nat): string {
    if k == 0 then [] else AfterOpens(snapshot, k - 1) + snapshot
  }

  lemma {:induction false} AfterOpensLength(snapshot: string, k: nat)
    ensures |AfterOpens(snapshot, k)| == k * |snapshot|
  {
    if k > 0 {
      AfterOpensLength(snapshot, k - 1);
    }
  }

  /**
   * As written, reopening the device with the sample table stays inside
   * `msg` for the first 399 opens (`k` is the number of earlier opens), and
   * the 400th puts its NUL terminator one byte past the end.
   */
  lemma RepeatedOpenOverflows(k: nat)
    ensures Fits(|AfterOpens(Snapshot(SampleTasks()), k)|, SampleTasks()) <==> k < 399
    ensures k == 399 ==> |AfterOpens(Snapshot(SampleTasks()), k)| + |Snapshot(SampleTasks())| == BUF_LEN
  {
    SampleSnapshot();
    AfterOpensLength(Snapshot(SampleTasks()), k);
  }

  /** As written, any non-empty process table overflows `msg` after enough opens. */
  lemma OpensEventuallyOverflow(tasks: seq<Task>)
    requires tasks != []
    ensures !Fits(|AfterOpens(Snapshot(tasks), BUF_LEN)|, tasks)
  {
    AfterOpensLength(Snapshot(tasks), BUF_LEN);
    assert Snapshot(tasks) == Line(tasks[0]) + Snapshot(tasks[1..]);
  }
}
