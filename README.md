# chardrv: a Dafny model of the device session protocol

`chardrv` is a Linux character device. Reading it lists the running processes.
The kernel module keeps one process-wide buffer, `char msg[BUF_LEN]` with
`BUF_LEN = 8000`, which starts zeroed. Four file operations act on it:

- **open** (`dev_open`) walks the process table. For each task it appends the
  line `"<comm> <pid> \n"` at `strlen(msg)`. Nothing is cleared first.
- **read** (`dev_read`) computes `bytes = min(length, BUF_LEN - *offset)`. It
  hands out `bytes` bytes taken from the start of `msg` through
  `copy_to_user`. If the transfer faults it returns `-EFAULT`; otherwise it
  moves `*offset` forward by `bytes` and returns `bytes`.
- **write** (`dev_write`) discards the data and returns `len`.
- **release** (`dev_release`) returns 0.

The model has three modules:

- `Format` (format.dfy): the line format `"%s %d \n"`, `%d` for any `int`,
  and `strlen` as `IndexOf(buffer, NUL)`. It also has a decoder, which is the
  inverse of the format. It shows that the snapshot text determines the
  process list it was printed from.
- `Chardrv` (chardrv.dfy): the class `Device`. It holds the fixed array `msg`
  and a ghost `used` that stands for `strlen(msg)`. Its invariant says three
  things: `msg` holds a C string of length `used`, every byte after it is NUL,
  and `used < BUF_LEN`. `Open`, `Read`, `Write` and `Release` follow the code
  as written. `Open` is a loop that rescans `strlen(msg)` for each task and
  then copies the line and its NUL byte by byte. Beside them, `OpenBounded`
  and `ReadAt` give the behaviour the driver evidently intends (see
  Findings).
- `ReadSession` (session.dfy): what a sequence of read calls on one open file
  does to the offset, what the intended read hands out over a session, and the
  two discrepancies below, each shown on a concrete input.

The per-file offset (`*offset`, the kernel's file position) is an input of
`Read` and a result of it. `copy_to_user` is the input `copyOk`: its verdict on
the caller's buffer. A zero-byte copy moves nothing, so it never faults.

Where the driver's design description and its code disagree, the model follows
the code:

- The design says a read is bounded by the text length and copies from the
  offset. The code bounds it by `BUF_LEN` and copies from `msg[0]`.
- The design says an open truncates what does not fit. The code has no bound,
  so `Open` requires that the text fits (`Fits`).
- The design gives the two-process example `init 1`, `kworker 12` a length of
  21 bytes. The text `"init 1 \nkworker 12 \n"` is 20 bytes
  (`ReadSession.SampleSnapshot`).
- With truncation, as the design intends, the text is at most `BUF_LEN - 1`
  bytes, not `BUF_LEN`, because the NUL terminator also needs a byte.

## Model

| member | source | states |
|---|---|---|
| `Format.IndexOf` | chardrv.c:112 | `strlen`: the index of the first NUL (or the end), with no NUL before it |
| `Format.Decimal` | chardrv.c:112 | `%d` output is non-empty, holds no NUL, space or newline, and starts with `-` exactly for negative numbers |
| `Format.DecimalRoundTrip` | chardrv.c:112 | reading the `%d` output back gives the pid |
| `Format.LineHasNoNul` | chardrv.c:112 | a line for a NUL-free name has no NUL, is `|comm| + |pid digits| + 3` long and ends in `'\n'` |
| `Format.SnapshotAppend` | chardrv.c:111-113 | printing the tasks `a + b` gives the text of `a` followed by the text of `b` |
| `Format.SnapshotPrefix` | chardrv.c:111-113 | each task in enumeration order adds its line after the lines of the tasks before it |
| `Format.SnapshotHasNoNul` | chardrv.c:111-113 | the snapshot of NUL-free names contains no NUL, so `strlen` finds its end |
| `Format.LineRoundTrip` | chardrv.c:112 | one line reads back as the task it came from, even if the name contains spaces or digits |
| `Format.SnapshotRoundTrip` | chardrv.c:111-113 | for names without NUL or newline, the whole snapshot reads back as the task list, in order |
| `Chardrv.ReadCount` | chardrv.c:127 | the count is `min(length, limit - offset)`: at most `length`, never past `limit`, equal to one of the two, and 0 at or past `limit` |
| `Chardrv.ToSsize` | chardrv.c:144-147 | the `size_t` to `ssize_t` conversion keeps the bit pattern and is the identity up to `SSIZE_MAX` |
| `Chardrv.Device.constructor` | chardrv.c:36 | the buffer starts as 8000 NUL bytes with an empty string |
| `Chardrv.Device.UsedIsStrlen` | chardrv.c:112 | the ghost string end `used` is what `strlen(msg)` computes |
| `Chardrv.Device.BufferIsPaddedContents` | chardrv.c:36 | the whole array is the text followed by NUL bytes up to `BUF_LEN` |
| `Chardrv.Device.Strlen` | chardrv.c:112 | the scan stops at the string end `used` |
| `Chardrv.Device.PutString` | chardrv.c:112 | `sprintf` writes the line's bytes at the string end, then a NUL, and changes no other byte |
| `Chardrv.Device.Append` | chardrv.c:112 | one `sprintf` at `strlen(msg)` extends the text by the line and keeps the buffer invariant |
| `Chardrv.Device.Open` | chardrv.c:109-115 | the new text is the old text followed by the tasks' lines in enumeration order; returns 0 |
| `Chardrv.Device.Read` | chardrv.c:125-134 | on a fault: `-EFAULT`, offset unchanged, nothing handed out; otherwise: returns `min(length, BUF_LEN - offset)`, moves the offset by exactly that much, and hands out `msg[0..count)` (text then NUL padding) whatever the offset |
| `Chardrv.Device.Write` | chardrv.c:144-147 | returns `len` (as `ssize_t`) and changes nothing |
| `Chardrv.Device.Release` | chardrv.c:154-157 | returns 0 and changes nothing |
| `Chardrv.Device.Clear` | chardrv.c:111-113 | the reset the intended open starts with: the text becomes empty and the array all NUL |
| `Chardrv.Device.OpenBounded` | chardrv.c:109-115 | the intended open: the text becomes the snapshot cut to `BUF_LEN - 1` bytes, whatever the number of tasks; returns 0 |
| `Chardrv.Device.ReadAt` | chardrv.c:125-134 | the intended read: returns `min(length, strlen - offset)` and hands out `text[offset..offset + count)`, or 0 at the end of the text; faults as `Read` does |
| `ReadSession.Run` | chardrv.c:127-133 | over a session the offset stays between the start offset and `max(start, limit)` |
| `ReadSession.RunSteps` | chardrv.c:127-133 | each call is one read from the offset the previous call left: it returns `-EFAULT` and keeps the offset, or returns its count and moves the offset by exactly that count |
| `ReadSession.RunNonDecreasing` | chardrv.c:132 | over a session the offset never decreases |
| `ReadSession.RunEndsAtFinal` | chardrv.c:132 | the last call of a session leaves the offset at the session's final offset |
| `ReadSession.FinalIsOffsetPlusDelivered` | chardrv.c:132-133 | a session moves the offset by exactly the sum of the successful calls' returns |
| `ReadSession.RunAtEnd` | chardrv.c:127-133 | once the offset is at the end of the data, every further call returns 0 and keeps the offset, whatever the caller's buffer |
| `ReadSession.AsWrittenSession` | chardrv.c:125-134 | from offset 0 the offset stays in `[0, BUF_LEN]`, never decreases, and ends at the bytes handed out; at `BUF_LEN` reads return 0 forever |
| `ReadSession.DrainedIsSlice` | chardrv.c:125-134 | the intended reads of a session hand out the text between the first and last offsets, in order, with nothing repeated or skipped |
| `ReadSession.DrainCompletes` | chardrv.c:125-134 | enough successful non-empty intended reads drain the text to its end |
| `ReadSession.IntendedSessionRecoversTasks` | chardrv.c:109-134 | after the intended open of a table that fits, a reader doing intended reads recovers the process table exactly |
| `ReadSession.SampleSnapshot` | chardrv.c:112 | the sample table `init 1`, `kworker 12` prints as the 20-byte `"init 1 \nkworker 12 \n"` |
| `ReadSession.AsWrittenRereadsHead` | chardrv.c:127-129 | as written, the second 10-byte read hands out `"init 1 \nkw"` again instead of `"orker 12 \n"`, and a read at offset 20 returns 100 NUL-padded bytes where the intended read returns 0 |
| `ReadSession.AfterOpensLength` | chardrv.c:111-113 | after `k` opens of the same table, nothing having been cleared, the text is `k` times the snapshot length |
| `ReadSession.RepeatedOpenOverflows` | chardrv.c:111-113 | with the sample table, the first 399 opens stay inside `msg` and the 400th writes its NUL one byte past the end |
| `ReadSession.OpensEventuallyOverflow` | chardrv.c:111-113 | any non-empty process table overflows `msg` after enough opens |

## Left out

- Module load and unload (`chardev_init`, `chardev_exit`, chardrv.c:62-102): these are calls into kernel registration APIs that cannot be seen. Their reverse-order rollback is plumbing.
- `printk` logging: output only, with no effect on the protocol.
- `copy_to_user` (chardrv.c:129): this is a foreign primitive, modelled only by its verdict `copyOk`.
- `Chardrv.Device.Read`: on a fault the model hands out nothing. The real `copy_to_user` may already have written part of the bytes into the caller's buffer.
- `for_each_process` (chardrv.c:111): the model takes the task list as an input, in enumeration order. Names must hold no NUL. The kernel's 16-byte limit on `comm` is not imposed, because nothing depends on it.
- `Chardrv.Device.Open`: it requires that the text and its NUL fit (`Fits`). Past that point `sprintf` writes beyond the array, which is undefined behaviour in C. The second finding shows that repeated opens do reach it.
- Offsets outside `[0, BUF_LEN]`: they are required away. At chardrv.c:127 such an offset would mix signed `loff_t` and unsigned `size_t` in a platform-dependent way.
- Concurrency: the driver does not lock `msg`, so calls are treated as sequential.
- `size_of_message`, `majorNumber`, `chardevClass`, `chardevDevice` (chardrv.c:32-35): unused by the protocol.
- `Chardrv.Device.Write`: it ignores its `buffer` and `offset` arguments, as the driver does.

## Findings

| source | as written | input that shows it | evidently intended | confidence | as-written member | corrected member |
|---|---|---|---|---|---|---|
| chardrv.c:127-129 | `dev_read` copies `bytes` from `msg` (its start), whatever `*offset` is, and bounds `bytes` by `BUF_LEN` rather than by `strlen(msg)` | after an open listing `init 1` and `kworker 12`, two reads of 10 bytes: the second hands out `"init 1 \nkw"` again, not `"orker 12 \n"`; a read of 100 at offset 20 returns 100 NUL-padded bytes, not end of file | copy `msg[offset..]`, stop at the end of the text, and return 0 there | not executed; high | `ReadSession.AsWrittenRereadsHead` (about `Chardrv.Device.Read`) | `Chardrv.Device.ReadAt`, with `ReadSession.DrainedIsSlice` and `ReadSession.IntendedSessionRecoversTasks` |
| chardrv.c:111-113 | `dev_open` never clears `msg` and appends with unbounded `sprintf`, so each open adds a full snapshot after the previous ones | open the device 400 times while the table is `init 1`, `kworker 12`: the 400th open writes its NUL at `msg[8000]` | start each open from an empty buffer and drop what does not fit | not executed; high | `ReadSession.RepeatedOpenOverflows` (about `Chardrv.Device.Open`) | `Chardrv.Device.OpenBounded` |

For each row the as-written member stays the model of the driver. The
corrected member sits beside it and has its intended property proved.
