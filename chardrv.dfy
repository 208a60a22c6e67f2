/**
 * The device session protocol of the `chardrv` character device: the
 * process-wide buffer `msg[BUF_LEN]`, the open that prints the process table
 * into it, the read that hands it out by offset, and the write and release
 * that do nothing.
 *
 * `Open`, `Read`, `Write` and `Release` model the driver as written.
 * `OpenBounded` and `ReadAt` are the behaviour the driver evidently intends
 * (a fresh, truncated snapshot per open; reads that follow the offset and stop
 * at the end of the text); they sit beside the as-written operations.
 */
module Chardrv {
  import opened Format

  /** Capacity of `msg`. */
  const BUF_LEN: nat := 8000

  /** The errno returned for a failed transfer to the caller's buffer. */
  const EFAULT: int := 14

  const SSIZE_MAX: int := 0x7FFF_FFFF_FFFF_FFFF

  /** The C type `size_t` of a 64-bit kernel. */
  type SizeT = n: int | 0 <= n < 0x1_0000_0000_0000_0000

  /**
   * Converting a `size_t` to the `ssize_t` a file operation returns: the same
   * bit pattern read as a two's-complement number.
   */
  function ToSsize(n: SizeT): (r: int)
    ensures -SSIZE_MAX - 1 <= r <= SSIZE_MAX
    ensures r % 0x1_0000_0000_0000_0000 == n
    ensures n <= SSIZE_MAX <==> r == n
  {
    if n <= SSIZE_MAX then n else n - 0x1_0000_0000_0000_0000
  }

  /**
   * How many bytes a read at `offset` asking for `length` hands out when the
   * readable data ends at `limit`: `min(length, limit - offset)`, and none at or
   * past the end. The driver as written reads up to `BUF_LEN`.
   */
  function ReadCount(limit: nat, length: nat, offset: nat): (n: nat)
    ensures n <= length
    ensures offset < limit ==> offset + n <= limit && (n == length || offset + n == limit)
    ensures limit <= offset ==> n == 0
  {
    if limit <= offset then 0
    else if length < limit - offset then length
    else limit - offset
  }

  /**
   * Whether `copy_to_user` reports a fault when asked to move `n` bytes;
   * `copyOk` is its verdict on the caller's buffer. Moving nothing never faults.
   */
  predicate CopyFaults(n: nat, copyOk: bool) {
    n > 0 && !copyOk
  }

  /** What a read call returns, and the file offset after it. */
  datatype Step = Step(ret: int, offset: int)

  /** The outcome of one read: `-EFAULT` and no advance, or the count and the advance. */
  function ReadStep(limit: nat, length: nat, offset: nat, copyOk: bool): Step {
    var n := ReadCount(limit, length, offset);
    if CopyFaults(n, copyOk) then Step(-EFAULT, offset) else Step(n, offset + n)
  }

  /** The whole 8000-byte buffer holding the text `s` followed by NUL bytes. */
  function Padded(s: string): (p: string)
    requires |s| <= BUF_LEN
    ensures |p| == BUF_LEN && p[..|s|] == s
    ensures forall i | |s| <= i < BUF_LEN :: p[i] == NUL
  {
    s + seq(BUF_LEN - |s|, _ => NUL)
  }

  /**
   * Whether `dev_open` stays inside `msg`: the text already there, the new
   * lines and the terminating NUL fit in `BUF_LEN` bytes. The driver makes no
   * such check; past it, `sprintf` writes beyond the array.
   */
  predicate Fits(filled: nat, tasks: seq<Task>) {
    filled + |Snapshot(tasks)| < BUF_LEN
  }

  /** The longest prefix of `s` that fits in `msg` with its NUL terminator. */
  function Clip(s: string): (c: string)
    ensures |c| < BUF_LEN
    ensures |s| < BUF_LEN ==> c == s
    ensures BUF_LEN <= |s| ==> c == s[..BUF_LEN - 1]
  {
    if |s| < BUF_LEN then s else s[..BUF_LEN - 1]
  }

  lemma ConcatAssoc(a: string, b: string, c: string, bc: string)
    requires bc == b + c
    ensures (a + b) + c == a + bc
  {
  }

  /** A line cut to the room left completes the clipped snapshot. */
  lemma CutLineFillsBuffer(done: string, line: string, n: nat, next: string, rest: string)
    requires |done| + n == BUF_LEN - 1 && n < |line|
    requires next == done + line
    ensures done + line[..n] == Clip(next + rest)
  {
    var all := next + rest;
    assert |all| >= BUF_LEN;
    forall k | 0 <= k < BUF_LEN - 1
      ensures (done + line[..n])[k] == all[k]
    {
      if k >= |done| {
        assert all[k] == line[k - |done|];
      }
    }
  }

  class Device {
    /** The process-wide `msg[BUF_LEN]`. The array is fixed; its contents change. */
    const msg: array<char>

    /** `strlen(msg)`. The driver keeps no length: it rescans `msg` on every append. */
    ghost var used: nat

    /**
     * `msg` is a C string of length `used`, and every byte after it is still
     * NUL, as the zero-initialised array was.
     */
    ghost predicate Valid()
      reads this, msg
    {
      && msg.Length == BUF_LEN
      && used < BUF_LEN
      && (forall i | 0 <= i < used :: msg[i] != NUL)
      && (forall i | used <= i < BUF_LEN :: msg[i] == NUL)
    }

    /** The text in the buffer. */
    ghost function Contents(): (s: string)
      reads this, msg
      requires Valid()
      ensures |s| == used && NUL !in s
    {
      msg[..used]
    }

    /** The buffer at module load: a static array, so all zero. */
    constructor ()
      ensures Valid() && fresh(msg)
      ensures Contents() == []
      ensures msg[..] == Padded([])
    {
      msg := new char[BUF_LEN](_ => NUL);
      used := 0;
    }

    /** `used` is what `strlen(msg)` computes. */
    lemma UsedIsStrlen()
      requires Valid()
      ensures used == IndexOf(msg[..], NUL)
    {
      var k := IndexOf(msg[..], NUL);
      assert msg[..][used] == NUL;
    }

    /** The whole array is the text followed by NUL padding. */
    lemma BufferIsPaddedContents()
      requires Valid()
      ensures msg[..] == Padded(Contents())
    {
      var p := Padded(Contents());
      forall i | 0 <= i < BUF_LEN
        ensures msg[..][i] == p[i]
      {
        if i < used {
          assert p[i] == p[..used][i];
        }
      }
    }

    /** `strlen(msg)`: scans for the first NUL. */
    method Strlen() returns (n: nat)
      requires Valid()
      ensures n == used
      ensures n == IndexOf(msg[..], NUL)
    {
      n := 0;
      while msg[n] != NUL
        invariant n <= used
        decreases used - n
      {
        n := n + 1;
      }
      UsedIsStrlen();
    }

    /** What `sprintf` does with the text `s`: its bytes at `at`, then a NUL. */
    method PutString(at: nat, s: string)
      requires at + |s| < msg.Length
      modifies msg
      ensures forall i | 0 <= i < msg.Length ::
        msg[i] == if at <= i < at + |s| then s[i - at] else if i == at + |s| then NUL else old(msg[i])
    {
      var j := 0;
      while j < |s|
        invariant 0 <= j <= |s|
        invariant forall i | 0 <= i < msg.Length ::
          msg[i] == if at <= i < at + j then s[i - at] else old(msg[i])
      {
        msg[at + j] := s[j];
        j := j + 1;
      }
      msg[at + |s|] := NUL;
    }

    /**
     * Appends the NUL-free text `s` at the string end, moving the string end
     * past it; bytes before the old end and after the new NUL keep their values.
     */
    method Append(s: string)
      requires Valid()
      requires NUL !in s
      requires used + |s| < BUF_LEN
      modifies this, msg
      ensures Valid()
      ensures Contents() == old(Contents()) + s
    {
      var end := Strlen();
      PutString(end, s);
      used := end + |s|;
      assert msg[..used] == old(msg[..used]) + s by {
        forall i | 0 <= i < used
          ensures msg[..used][i] == (old(msg[..used]) + s)[i]
        {
        }
      }
    }

    /**
     * `dev_open`: for each task, in enumeration order, appends
     * `"<comm> <pid> \n"` at `strlen(msg)`. Nothing is cleared first, so the
     * text of earlier opens stays in front; returns 0.
     */
    method Open(tasks: seq<Task>) returns (result: int)
      requires Valid()
      requires forall k | 0 <= k < |tasks| :: NUL !in tasks[k].comm
      requires Fits(used, tasks)
      modifies this, msg
      ensures Valid()
      ensures Contents() == old(Contents()) + Snapshot(tasks)
      ensures result == 0
    {
      ghost var before := Contents();
      var i := 0;
      while i < |tasks|
        invariant 0 <= i <= |tasks|
        invariant Valid()
        invariant Contents() == before + Snapshot(tasks[..i])
      {
        SnapshotPrefix(tasks, i);
        var line := Line(tasks[i]);
        LineHasNoNul(tasks[i]);
        ghost var done := Snapshot(tasks[..i]);
        ghost var next := Snapshot(tasks[..i + 1]);
        Append(line);
        ConcatAssoc(before, done, line, next);
        i := i + 1;
      }
      assert tasks[..i] == tasks;
      result := 0;
    }

    /**
     * `dev_read`: hands out `min(length, BUF_LEN - offset)` bytes taken from
     * the START of `msg`, whatever the offset, and advances the offset by that
     * many; `-EFAULT` and no advance when the transfer faults.
     */
    method Read(length: SizeT, offset: int, copyOk: bool) returns (result: int, newOffset: int, data: string)
      requires Valid()
      requires 0 <= offset <= BUF_LEN
      ensures CopyFaults(ReadCount(BUF_LEN, length, offset), copyOk) ==>
        result == -EFAULT && newOffset == offset && data == []
      ensures !CopyFaults(ReadCount(BUF_LEN, length, offset), copyOk) ==>
        && result == ReadCount(BUF_LEN, length, offset)
        && newOffset == offset + result
        && data == msg[..result]
        && data == Padded(Contents())[..result]
      ensures Step(result, newOffset) == ReadStep(BUF_LEN, length, offset, copyOk)
    {
      var bytes := if length < BUF_LEN - offset then length else BUF_LEN - offset;
      if CopyFaults(bytes, copyOk) {
        return -EFAULT, offset, [];
      }
      data := msg[..bytes];
      newOffset := offset + bytes;
      result := bytes;
      BufferIsPaddedContents();
    }

    /** `dev_write`: discards the data and reports `len` bytes written. */
    method Write(buffer: string, len: SizeT, offset: int) returns (result: int)
      ensures result == ToSsize(len)
      ensures len <= SSIZE_MAX ==> result == len
    {
      result := ToSsize(len);
    }

    /** `dev_release`: nothing to undo; reports success. */
    method Release() returns (result: int)
      ensures result == 0
    {
      result := 0;
    }

    /** Empties the buffer: zeroes the text and moves the string end to 0. */
    method Clear()
      requires Valid()
      modifies this, msg
      ensures Valid() && Contents() == []
    {
      var n := Strlen();
      var j := 0;
      while j < n
        invariant 0 <= j <= n
        invariant forall i | 0 <= i < j :: msg[i] == NUL
        invariant forall i | j <= i < BUF_LEN :: msg[i] == old(msg[i])
      {
        msg[j] := NUL;
        j := j + 1;
      }
      used := 0;
    }

    /**
     * The open the driver evidently intends: starts from an empty buffer and
     * appends each line with `snprintf` bounded by the room left, so the text
     * is the snapshot cut to `BUF_LEN - 1` bytes; once a line is cut, the
     * remaining tasks are dropped. Returns 0.
     */
    method OpenBounded(tasks: seq<Task>) returns (result: int)
      requires Valid()
      requires forall k | 0 <= k < |tasks| :: NUL !in tasks[k].comm
      modifies this, msg
      ensures Valid()
      ensures Contents() == Clip(Snapshot(tasks))
      ensures result == 0
    {
      Clear();
      var i := 0;
      var full := false;
      while i < |tasks| && !full
        invariant 0 <= i <= |tasks|
        invariant Valid()
        invariant !full ==> Contents() == Snapshot(tasks[..i])
        invariant full ==> Contents() == Clip(Snapshot(tasks))
      {
        var end := Strlen();
        var room := BUF_LEN - end;
        var line := Line(tasks[i]);
        LineHasNoNul(tasks[i]);
        SnapshotPrefix(tasks, i);
        ghost var done := Snapshot(tasks[..i]);
        ghost var next := Snapshot(tasks[..i + 1]);
        var n := if |line| < room then |line| else room - 1;
        var part := line[..n];
        assert NUL !in part;
        Append(part);
        if n < |line| {
          // `snprintf` reports a cut line: the buffer is full.
          CutLineFillsBuffer(done, line, n, next, Snapshot(tasks[i + 1..]));
          full := true;
        } else {
          assert part == line;
        }
        i := i + 1;
      }
      if !full {
        assert tasks[..i] == tasks;
      }
      result := 0;
    }

    /**
     * The read the driver evidently intends: hands out
     * `min(length, strlen(msg) - offset)` bytes starting AT the offset, and
     * nothing once the offset reaches the end of the text.
     */
    method ReadAt(length: SizeT, offset: int, copyOk: bool) returns (result: int, newOffset: int, data: string)
      requires Valid()
      requires 0 <= offset <= BUF_LEN
      ensures CopyFaults(ReadCount(used, length, offset), copyOk) ==>
        result == -EFAULT && newOffset == offset && data == []
      ensures !CopyFaults(ReadCount(used, length, offset), copyOk) ==>
        && result == ReadCount(used, length, offset)
        && newOffset == offset + result
        && (offset < used ==> newOffset <= used && data == Contents()[offset..newOffset])
        && (used <= offset ==> result == 0 && data == [])
      ensures Step(result, newOffset) == ReadStep(used, length, offset, copyOk)
    {
      var len := Strlen();
      var bytes := if len <= offset then 0 else if length < len - offset then length else len - offset;
      if CopyFaults(bytes, copyOk) {
        return -EFAULT, offset, [];
      }
      assert bytes == ReadCount(used, length, offset);
      data := msg[offset..offset + bytes];
      if offset < len {
        assert data == msg[..used][offset..offset + bytes];
      }
      newOffset := offset + bytes;
      result := bytes;
    }
  }
}
