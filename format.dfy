/**
 * The text the driver produces for each process: `sprintf("%s %d \n", comm, pid)`,
 * the C string conventions it relies on (`strlen` stops at the first NUL), and a
 * decoder that is the inverse of the format, so that the snapshot text is known to
 * determine the process list it was made from.
 */
module Format {

  datatype Option<T> = None | Some(value: T)

  /** The C string terminator. */
  const NUL: char := '\0'

  /** One entry of the process table: the task's `comm` and its `pid`. */
  datatype Task = Task(comm: string, pid: int)

  /**
   * Index of the first `c` in `s`, or `|s|` when there is none.
   * `strlen` of a character buffer is `IndexOf(buffer, NUL)`.
   */
  function IndexOf(s: string, c: char): (k: nat)
    ensures k <= |s|
    ensures k < |s| ==> s[k] == c
    ensures forall j | 0 <= j < k :: s[j] != c
  {
    if s == [] then 0
    else if s[0] == c then 0
    else 1 + IndexOf(s[1..], c)
  }

  /** Index of the last `c` in `s`, or -1 when there is none. */
  function LastIndexOf(s: string, c: char): (k: int)
    ensures -1 <= k < |s|
    ensures 0 <= k ==> s[k] == c
    ensures forall j | k < j < |s| :: s[j] != c
  {
    if s == [] then -1
    else if s[|s| - 1] == c then |s| - 1
    else LastIndexOf(s[..|s| - 1], c)
  }

  predicate IsDigit(c: char) {
    '0' <= c <= '9'
  }

  predicate AllDigits(s: string) {
    forall i | 0 <= i < |s| :: IsDigit(s[i])
  }

  function DigitChar(d: nat): (c: char)
    requires d < 10
    ensures IsDigit(c) && c as int - '0' as int == d
  {
    ('0' as int + d) as char
  }

  /** The decimal digits of `n`, most significant first, without leading zeros. */
  function Digits(n: nat): (s: string)
    ensures 1 <= |s|
    ensures AllDigits(s)
    ensures |s| > 1 ==> s[0] != '0'
  {
    if n < 10 then [DigitChar(n)]
    else Digits(n / 10) + [DigitChar(n % 10)]
  }

  /** What the `%d` conversion prints for the `int` value `n`. */
  function Decimal(n: int): (s: string)
    ensures 1 <= |s|
    ensures NUL !in s && ' ' !in s && '\n' !in s
    ensures n < 0 <==> s[0] == '-'
  {
    if n < 0 then "-" + Digits(-n) else Digits(n)
  }

  /** The line `dev_open` writes for one task: `"%s %d \n"`. */
  function Line(t: Task): string {
    t.comm + " " + Decimal(t.pid) + " \n"
  }

  /** The lines of all tasks, in enumeration order. */
  function Snapshot(ts: seq<Task>): string {
    if ts == [] then [] else Line(ts[0]) + Snapshot(ts[1..])
  }

  /**
   * A `comm` the line format can carry: `%s` stops at a NUL, and a newline
   * inside a name would be read as the end of its line.
   */
  predicate PrintableComm(s: string) {
    NUL !in s && '\n' !in s
  }

  lemma {:induction false} LineHasNoNul(t: Task)
    requires NUL !in t.comm
    ensures NUL !in Line(t)
    ensures |Line(t)| == |t.comm| + |Decimal(t.pid)| + 3
    ensures Line(t)[|Line(t)| - 1] == '\n'
  {
    var d := Decimal(t.pid);
    assert Line(t) == t.comm + [' '] + d + [' ', '\n'];
  }

  /** The snapshot of `a + b` is the snapshot of `a` followed by that of `b`. */
  lemma {:induction false} SnapshotAppend(a: seq<Task>, b: seq<Task>)
    ensures Snapshot(a + b) == Snapshot(a) + Snapshot(b)
  {
    if a == [] {
      assert a + b == b;
    } else {
      assert (a + b)[1..] == a[1..] + b;
      SnapshotAppend(a[1..], b);
    }
  }

  /** Appending one task to the list appends its line to the snapshot. */
  lemma {:induction false} SnapshotSnoc(ts: seq<Task>, t: Task)
    ensures Snapshot(ts + [t]) == Snapshot(ts) + Line(t)
  {
    SnapshotAppend(ts, [t]);
    assert Snapshot([t]) == Line(t) + Snapshot([]);
  }

  /** Cutting the task list anywhere cuts its snapshot at the same place. */
  lemma {:induction false} SnapshotTakeDrop(ts: seq<Task>, j: nat)
    requires j <= |ts|
    ensures Snapshot(ts) == Snapshot(ts[..j]) + Snapshot(ts[j..])
  {
    var pre, post := ts[..j], ts[j..];
    assert pre + post == ts;
    SnapshotAppend(pre, post);
  }

  /** The snapshot of a longer prefix of `ts` extends that of a shorter one by one line. */
  lemma {:induction false} SnapshotPrefix(ts: seq<Task>, i: nat)
    requires i < |ts|
    ensures Snapshot(ts[..i + 1]) == Snapshot(ts[..i]) + Line(ts[i])
    ensures Snapshot(ts) == Snapshot(ts[..i + 1]) + Snapshot(ts[i + 1..])
  {
    var pre := ts[..i + 1];
    assert ts[..i] + [ts[i]] == pre;
    SnapshotSnoc(ts[..i], ts[i]);
    SnapshotTakeDrop(ts, i + 1);
  }

  /** A snapshot of tasks whose names hold no NUL contains no NUL. */
  lemma {:induction false} SnapshotHasNoNul(ts: seq<Task>)
    requires forall k | 0 <= k < |ts| :: NUL !in ts[k].comm
    ensures NUL !in Snapshot(ts)
  {
    if ts != [] {
      LineHasNoNul(ts[0]);
      SnapshotHasNoNul(ts[1..]);
    }
  }

  // ---------------------------------------------------------------------------
  // Decoding: the inverse of the line format.
  // ---------------------------------------------------------------------------

  /** The value of a string of decimal digits. */
  function DigitsValue(s: string): nat
    requires AllDigits(s)
  {
    if s == [] then 0
    else DigitsValue(s[..|s| - 1]) * 10 + (s[|s| - 1] as int - '0' as int)
  }

  /** Reads back an optionally signed decimal numeral. */
  function ParseDecimal(s: string): Option<int> {
    if 1 <= |s| && AllDigits(s) then Some(DigitsValue(s))
    else if 2 <= |s| && s[0] == '-' && AllDigits(s[1..]) then Some(-(DigitsValue(s[1..]) as int))
    else None
  }

  /** Reads back one line without its final `'\n'`: the name, a space, the number, a space. */
  function ParseLine(line: string): Option<Task> {
    if line == [] || line[|line| - 1] != ' ' then None
    else
      var body := line[..|line| - 1];
      var k := LastIndexOf(body, ' ');
      if k < 0 then None
      else match ParseDecimal(body[k + 1..])
        case None => None
        case Some(pid) => Some(Task(body[..k], pid))
  }

  /** Reads back a whole snapshot, line by line. */
  function ParseSnapshot(s: string): Option<seq<Task>>
    decreases |s|
  {
    if s == [] then Some([])
    else
      var k := IndexOf(s, '\n');
      if k == |s| then None
      else match ParseLine(s[..k])
        case None => None
        case Some(t) =>
          match ParseSnapshot(s[k + 1..])
          case None => None
          case Some(ts) => Some([t] + ts)
  }

  lemma {:induction false} DigitsRoundTrip(n: nat)
    ensures DigitsValue(Digits(n)) == n
  {
    if n >= 10 {
      var p := Digits(n / 10);
      var s := p + [DigitChar(n % 10)];
      assert s[..|s| - 1] == p;
      DigitsRoundTrip(n / 10);
    }
  }

  /** `%d` followed by reading the numeral back gives the number. */
  lemma {:induction false} DecimalRoundTrip(n: int)
    ensures ParseDecimal(Decimal(n)) == Some(n)
  {
    if n < 0 {
      var d := Digits(-n);
      var s := "-" + d;
      assert Decimal(n) == s;
      assert s[1..] == d;
      assert !IsDigit(s[0]);
      DigitsRoundTrip(-n);
      assert ParseDecimal(s) == Some(-(DigitsValue(d) as int));
    } else {
      DigitsRoundTrip(n);
    }
  }

  lemma {:induction false} IndexOfFirst(a: string, c: char, b: string)
    requires c !in a
    ensures IndexOf(a + [c] + b, c) == |a|
  {
    var s := a + [c] + b;
    assert s[|a|] == c;
    forall j | 0 <= j < |a|
      ensures s[j] != c
    {
      assert s[j] == a[j];
    }
  }

  lemma {:induction false} LastIndexOfLast(a: string, c: char, b: string)
    requires c !in b
    ensures LastIndexOf(a + [c] + b, c) == |a|
  {
    var s := a + [c] + b;
    if b != [] {
      var b' := b[..|b| - 1];
      assert s[..|s| - 1] == a + [c] + b';
      assert s[|s| - 1] == b[|b| - 1];
      LastIndexOfLast(a, c, b');
    }
  }

  /** Each line reads back as the task it was printed from. */
  lemma {:induction false} LineRoundTrip(t: Task)
    ensures ParseLine(t.comm + " " + Decimal(t.pid) + " ") == Some(t)
  {
    var d := Decimal(t.pid);
    var line := t.comm + " " + d + " ";
    var body := t.comm + [' '] + d;
    assert line[..|line| - 1] == body;
    LastIndexOfLast(t.comm, ' ', d);
    assert body[..|t.comm|] == t.comm;
    assert body[|t.comm| + 1..] == d;
    DecimalRoundTrip(t.pid);
  }

  /** A line of a name without newline has no newline before its last character. */
  lemma {:induction false} LineHeadHasNoNewline(t: Task)
    requires '\n' !in t.comm
    ensures '\n' !in t.comm + " " + Decimal(t.pid) + " "
  {
    var d := Decimal(t.pid);
    var head := t.comm + " " + d + " ";
    forall j | 0 <= j < |head| ensures head[j] != '\n' {
      if j < |t.comm| {
        assert head[j] == t.comm[j];
      } else if |t.comm| < j < |t.comm| + 1 + |d| {
        assert head[j] == d[j - |t.comm| - 1];
      }
    }
  }

  /** Splitting a snapshot's text at its first newline gives the first task's line and the rest. */
  lemma {:induction false} SnapshotSplit(ts: seq<Task>)
    requires ts != [] && '\n' !in ts[0].comm
    ensures
      var head := ts[0].comm + " " + Decimal(ts[0].pid) + " ";
      var s := Snapshot(ts);
      var k := IndexOf(s, '\n');
      k == |head| && s[..k] == head && s[k + 1..] == Snapshot(ts[1..])
  {
    var t := ts[0];
    var head := t.comm + " " + Decimal(t.pid) + " ";
    var rest := Snapshot(ts[1..]);
    var s := Snapshot(ts);
    assert s == head + ['\n'] + rest;
    LineHeadHasNoNewline(t);
    IndexOfFirst(head, '\n', rest);
    assert s[..|head|] == head;
    assert s[|head| + 1..] == rest;
  }

  /** The snapshot text determines the process list it was printed from. */
  lemma {:induction false} SnapshotRoundTrip(ts: seq<Task>)
    requires forall k | 0 <= k < |ts| :: PrintableComm(ts[k].comm)
    ensures ParseSnapshot(Snapshot(ts)) == Some(ts)
  {
    if ts != [] {
      var t := ts[0];
      var s := Snapshot(ts);
      SnapshotSplit(ts);
      LineRoundTrip(t);
      SnapshotRoundTrip(ts[1..]);
      assert [t] + ts[1..] == ts;
    }
  }
}
