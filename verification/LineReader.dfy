/**
 `hxconsole_exec_file`: reads a file through a fixed buffer and passes it to the
 console line by line, without a system call per character.
 */
module LineReaders {
  import opened Scanning
  import opened Settings

  newtype byte = b: int | 0 <= b < 256

  type Bytes = seq<byte>

  const NUL: byte := 0
  const NEWLINE: byte := 10

  /** The longest line the buffer holds. */
  const LIMIT: nat := MAX_LINE - 1

  // ---- What a file is split into ----

  /** The first `c`, or the end. */
  function Index(s: Bytes, c: byte): (k: nat)
    ensures k <= |s| && c !in s[..k] && (k < |s| ==> s[k] == c)
  {
    Find(s, c, 0)
  }

  /** Newline-terminated lines; a run of `LIMIT` bytes without a newline is cut off; the last line may lack its newline. */
  function Lines(s: Bytes): (lines: seq<Bytes>)
    decreases |s|
  {
    var k := Index(s, NEWLINE);
    if s == [] then []
    else if k < LIMIT then
      if k == |s| then [s] else [s[..k]] + Lines(s[k + 1..])
    else [s[..LIMIT]] + Lines(s[LIMIT..])
  }

  /** The file split at its newlines alone. */
  function TextLines(s: Bytes): (lines: seq<Bytes>)
    decreases |s|
  {
    var k := Index(s, NEWLINE);
    if s == [] then [] else if k == |s| then [s] else [s[..k]] + TextLines(s[k + 1..])
  }

  function Flatten(lines: seq<Bytes>): Bytes {
    if lines == [] then [] else lines[0] + Flatten(lines[1..])
  }

  function WithoutNewlines(s: Bytes): Bytes {
    if s == [] then [] else (if s[0] == NEWLINE then [] else [s[0]]) + WithoutNewlines(s[1..])
  }

  lemma IndexIs(s: Bytes, c: byte, k: nat)
    requires k <= |s| && c !in s[..k] && (k < |s| ==> s[k] == c)
    ensures Index(s, c) == k
  {
    FindIs(s, c, 0, k);
  }

  lemma IndexAtLeast(s: Bytes, c: byte, n: nat)
    requires n <= |s| && c !in s[..n]
    ensures n <= Index(s, c)
  {
    FindAtLeast(s, c, 0, n);
  }

  // ---- One line at a time ----

  /** A newline soon enough. */
  lemma LinesNewline(s: Bytes, k: nat)
    requires k == Index(s, NEWLINE) && k < LIMIT && k < |s|
    ensures Lines(s) == [s[..k]] + Lines(s[k + 1..])
  {
    hide Index, Find;
    var rest := s[k + 1..];
    assert Lines(s) == [s[..k]] + Lines(rest);
  }

  /** A buffer full without one. */
  lemma LinesCut(s: Bytes)
    requires LIMIT <= Index(s, NEWLINE)
    ensures Lines(s) == [s[..LIMIT]] + Lines(s[LIMIT..])
  {
    hide Index, Find;
  }

  lemma LinesLast(s: Bytes)
    requires Index(s, NEWLINE) == |s| <= LIMIT
    ensures Lines(s) == if s == [] then [] else [s]
  {
    hide Index;
    if |s| == LIMIT {
      hide Lines;
      LinesCut(s);
      assert s[..LIMIT] == s && s[LIMIT..] == [];
      LinesEmpty();
    }
  }

  lemma LinesEmpty()
    ensures Lines([]) == []
  {
  }

  lemma TextLinesNewline(s: Bytes, k: nat)
    requires k == Index(s, NEWLINE) && k < |s|
    ensures TextLines(s) == [s[..k]] + TextLines(s[k + 1..])
  {
    hide Index, Find;
  }

  lemma TextLinesLast(s: Bytes)
    requires Index(s, NEWLINE) == |s|
    ensures TextLines(s) == if s == [] then [] else [s]
  {
  }

  // ---- Nothing is lost ----

  lemma {:induction false} WithoutNewlinesConcat(s: Bytes, t: Bytes)
    ensures WithoutNewlines(s + t) == WithoutNewlines(s) + WithoutNewlines(t)
  {
    if s == [] {
      assert s + t == t;
    } else {
      assert (s + t)[1..] == s[1..] + t;
      WithoutNewlinesConcat(s[1..], t);
    }
  }

  lemma {:induction false} WithoutNewlinesSame(s: Bytes)
    requires NEWLINE !in s
    ensures WithoutNewlines(s) == s
  {
    if s != [] {
      assert s[0] in s && s == [s[0]] + s[1..];
      WithoutNewlinesSame(s[1..]);
    }
  }

  lemma FlattenCons(first: Bytes, rest: seq<Bytes>)
    ensures Flatten([first] + rest) == first + Flatten(rest)
  {
    assert ([first] + rest)[1..] == rest;
  }

  lemma FlattenOne(s: Bytes)
    ensures Flatten(if s == [] then [] else [s]) == s
  {
    if s != [] {
      assert [s] == [s] + [];
      FlattenCons(s, []);
      assert s + [] == s;
    }
  }

  lemma DropLine(line: Bytes, rest: Bytes)
    requires NEWLINE !in line
    ensures WithoutNewlines(line + rest) == line + WithoutNewlines(rest)
  {
    hide WithoutNewlines;
    WithoutNewlinesSame(line);
    WithoutNewlinesConcat(line, rest);
  }

  lemma DropNewline(rest: Bytes)
    ensures WithoutNewlines([NEWLINE] + rest) == WithoutNewlines(rest)
  {
    hide WithoutNewlines;
    WithoutNewlinesNewline();
    WithoutNewlinesConcat([NEWLINE], rest);
    assert [] + WithoutNewlines(rest) == WithoutNewlines(rest);
  }

  /** Dropping one line and the newline after it, if any. */
  lemma WithoutNewlinesLine(s: Bytes, n: nat, m: nat)
    requires n <= m <= |s| && NEWLINE !in s[..n] && (m == n || (m == n + 1 && s[n] == NEWLINE))
    ensures WithoutNewlines(s) == s[..n] + WithoutNewlines(s[m..])
  {
    hide WithoutNewlines;
    CutAt(s, n);
    DropLine(s[..n], s[n..]);
    if m == n + 1 {
      HeadOf(s, n);
      DropNewline(s[m..]);
    }
  }

  lemma CutAt(s: Bytes, n: nat)
    requires n <= |s|
    ensures s == s[..n] + s[n..]
  {
  }

  lemma HeadOf(s: Bytes, n: nat)
    requires n < |s|
    ensures s[n..] == [s[n]] + s[n + 1..]
  {
  }

  lemma WithoutNewlinesNewline()
    ensures WithoutNewlines([NEWLINE]) == []
  {
  }

  ghost predicate GoodLines(lines: seq<Bytes>) {
    forall i :: 0 <= i < |lines| ==> NEWLINE !in lines[i] && |lines[i]| <= LIMIT
  }

  /** Only newlines are lost, no line holds one, and every line fits the buffer. */
  lemma {:induction false} LinesConserve(s: Bytes)
    ensures Flatten(Lines(s)) == WithoutNewlines(s)
    ensures GoodLines(Lines(s))
    decreases |s|
  {
    hide Lines, Flatten, WithoutNewlines, Index;
    var k := Index(s, NEWLINE);
    if k == |s| <= LIMIT {
      assert s[..k] == s;
      LinesLast(s);
      FlattenOne(s);
      WithoutNewlinesSame(s);
    } else {
      var n := if k < LIMIT then k else LIMIT;
      var m := if k < LIMIT then k + 1 else LIMIT;
      if k < LIMIT {
        LinesNewline(s, k);
      } else {
        LinesCut(s);
        assert s[..LIMIT] == s[..k][..LIMIT];
      }
      LinesConserve(s[m..]);
      FlattenCons(s[..n], Lines(s[m..]));
      WithoutNewlinesLine(s, n, m);
    }
  }

  // ---- When the cutting makes no difference ----

  /** Every `LIMIT` bytes with a byte after them hold a newline. */
  ghost predicate ShortLines(s: Bytes) {
    forall i :: 0 <= i < |s| - LIMIT ==> NewlineWithin(s, i)
  }

  ghost predicate NewlineWithin(s: Bytes, i: nat)
    requires i + LIMIT <= |s|
  {
    exists j :: i <= j < i + LIMIT && s[j] == NEWLINE
  }

  lemma NoNewlineWithin(s: Bytes)
    requires LIMIT <= Index(s, NEWLINE)
    ensures !NewlineWithin(s, 0)
  {
    hide Index;
    var k := Index(s, NEWLINE);
    forall j | 0 <= j < LIMIT ensures s[j] != NEWLINE {
      assert s[..k][j] == s[j];
    }
  }

  lemma ShortLinesRest(s: Bytes, k: nat)
    requires k == Index(s, NEWLINE) && k < |s|
    ensures ShortLines(s) <==> k < LIMIT && ShortLines(s[k + 1..])
  {
    hide Index;
    var rest := s[k + 1..];
    if ShortLines(s) {
      if k >= LIMIT {
        NoNewlineWithin(s);
      } else {
        forall i | 0 <= i < |rest| - LIMIT ensures NewlineWithin(rest, i) {
          assert NewlineWithin(s, k + 1 + i);
          var j :| k + 1 + i <= j < k + 1 + i + LIMIT && s[j] == NEWLINE;
          assert rest[j - k - 1] == NEWLINE;
        }
      }
    }
    if k < LIMIT && ShortLines(rest) {
      forall i | 0 <= i < |s| - LIMIT ensures NewlineWithin(s, i) {
        if i > k {
          assert NewlineWithin(rest, i - k - 1);
          var j :| i - k - 1 <= j < i - k - 1 + LIMIT && rest[j] == NEWLINE;
          assert s[j + k + 1] == NEWLINE;
        }
      }
    }
  }

  lemma ShortLinesLast(s: Bytes)
    requires Index(s, NEWLINE) == |s|
    ensures ShortLines(s) <==> |s| <= LIMIT
  {
    hide Index;
    if |s| > LIMIT {
      NoNewlineWithin(s);
    }
  }

  /** The newlines stay where they are. */
  lemma IndexSuffix(s: Bytes, j: nat)
    requires j <= Index(s, NEWLINE)
    ensures Index(s[j..], NEWLINE) == Index(s, NEWLINE) - j
  {
    hide Index;
    var k := Index(s, NEWLINE);
    assert s[j..][..k - j] == s[..k][j..];
    IndexIs(s[j..], NEWLINE, k - j);
  }

  lemma TextLinesSuffix(s: Bytes, j: nat)
    requires j <= Index(s, NEWLINE) && j < |s|
    ensures |TextLines(s[j..])| == |TextLines(s)|
  {
    hide Index, TextLines;
    var k := Index(s, NEWLINE);
    IndexSuffix(s, j);
    if k < |s| {
      TextLinesNewline(s, k);
      TextLinesNewline(s[j..], k - j);
      assert s[j..][k - j + 1..] == s[k + 1..];
    } else {
      TextLinesLast(s);
      TextLinesLast(s[j..]);
    }
  }

  /** Cutting never makes fewer lines. */
  lemma {:induction false} NoFewerLines(s: Bytes)
    ensures |Lines(s)| >= |TextLines(s)|
    decreases |s|
  {
    hide Index, Lines, TextLines;
    var k := Index(s, NEWLINE);
    if k == |s| <= LIMIT {
      LinesLast(s);
      TextLinesLast(s);
    } else if k < LIMIT {
      LinesNewline(s, k);
      TextLinesNewline(s, k);
      NoFewerLines(s[k + 1..]);
    } else {
      LinesCut(s);
      NoFewerLines(s[LIMIT..]);
      TextLinesSuffix(s, LIMIT);
    }
  }

  /** A line of just `LIMIT` bytes gets an empty line after it; a longer one is cut. */
  lemma CutShows(s: Bytes)
    requires LIMIT <= Index(s, NEWLINE) && LIMIT < |s|
    ensures Lines(s) != TextLines(s)
  {
    hide Index, Lines, TextLines;
    var k := Index(s, NEWLINE);
    LinesCut(s);
    if k == LIMIT {
      TextLinesNewline(s, k);
      IndexSuffix(s, LIMIT);
      LinesNewline(s[LIMIT..], 0);
      assert s[LIMIT..][1..] == s[k + 1..];
      NoFewerLines(s[k + 1..]);
    } else {
      if k < |s| {
        TextLinesNewline(s, k);
      } else {
        TextLinesLast(s);
      }
      assert |Lines(s)[0]| == LIMIT && |TextLines(s)[0]| == k;
    }
  }

  /** Each line with its newline. */
  function Terminated(lines: seq<Bytes>): Bytes {
    if lines == [] then [] else lines[0] + [NEWLINE] + Terminated(lines[1..])
  }

  lemma TerminatedCons(line: Bytes, rest: seq<Bytes>)
    ensures Terminated([line] + rest) == line + [NEWLINE] + Terminated(rest)
    ensures Terminated([line]) == line + [NEWLINE] && Terminated([]) == []
  {
    assert ([line] + rest)[1..] == rest && [line][1..] == [];
    assert Terminated([line]) == line + [NEWLINE] + [];
  }

  /** A file with its last newline, if it is missing. */
  function Ended(s: Bytes): Bytes { if s == [] || s[|s| - 1] == NEWLINE then s else s + [NEWLINE] }

  lemma EndedRest(s: Bytes, k: nat)
    requires k < |s| && s[k] == NEWLINE
    ensures Ended(s) == s[..k] + [NEWLINE] + Ended(s[k + 1..])
  {
    assert s == s[..k] + [NEWLINE] + s[k + 1..];
  }

  lemma EndedLast(s: Bytes)
    requires NEWLINE !in s
    ensures Ended(s) == if s == [] then [] else s + [NEWLINE]
  {
  }

  /** The text lines, each with its newline, are the file, whose last newline may be missing. */
  lemma {:induction false} TextLinesJoin(s: Bytes)
    ensures Terminated(TextLines(s)) == if s == [] || s[|s| - 1] == NEWLINE then s else s + [NEWLINE]
    ensures forall i :: 0 <= i < |TextLines(s)| ==> NEWLINE !in TextLines(s)[i]
    decreases |s|
  {
    hide Index, TextLines, Terminated, Ended;
    TextLinesEnded(s);
    EndedPlain(s);
  }

  lemma EndedPlain(s: Bytes)
    ensures Ended(s) == if s == [] || s[|s| - 1] == NEWLINE then s else s + [NEWLINE]
  {
  }

  lemma {:induction false} TextLinesEnded(s: Bytes)
    ensures Terminated(TextLines(s)) == Ended(s)
    ensures forall i :: 0 <= i < |TextLines(s)| ==> NEWLINE !in TextLines(s)[i]
    decreases |s|
  {
    hide Index, TextLines, Terminated, Ended;
    var k := Index(s, NEWLINE);
    TerminatedCons(s[..k], if k < |s| then TextLines(s[k + 1..]) else []);
    if k == |s| {
      assert s[..k] == s;
      TextLinesLast(s);
      EndedLast(s);
    } else {
      TextLinesNewline(s, k);
      TextLinesEnded(s[k + 1..]);
      EndedRest(s, k);
    }
  }

  /** The reader agrees with splitting the file exactly when lines are short. */
  lemma {:induction false} LinesAreTextLines(s: Bytes)
    ensures Lines(s) == TextLines(s) <==> ShortLines(s)
    ensures LIMIT == 2047
    decreases |s|
  {
    hide Index, Lines, TextLines, ShortLines;
    var k := Index(s, NEWLINE);
    if k < |s| {
      ShortLinesRest(s, k);
    } else {
      ShortLinesLast(s);
    }
    if k == |s| <= LIMIT {
      LinesLast(s);
      TextLinesLast(s);
    } else if k < LIMIT {
      LinesNewline(s, k);
      TextLinesNewline(s, k);
      LinesAreTextLines(s[k + 1..]);
      assert Lines(s)[1..] == Lines(s[k + 1..]) && TextLines(s)[1..] == TextLines(s[k + 1..]);
    } else {
      CutShows(s);
    }
  }

  // ---- What the console is given ----

  /** What a C string function sees of a line: the bytes before a NUL. */
  function View(line: Bytes): Bytes { line[..Index(line, NUL)] }

  datatype Outcome = Outcome(log: seq<Bytes>, ok: bool)

  /**
   The lines executed in order, up to the first that fails. A command may
   succeed or fail depending on all that was executed before it.
   */
  function Run(succeeds: seq<Bytes> -> bool, log: seq<Bytes>, lines: seq<Bytes>): Outcome
    decreases |lines|
  {
    if lines == [] then Outcome(log, true)
    else
      var next := log + [View(lines[0])];
      if succeeds(next) then Run(succeeds, next, lines[1..]) else Outcome(next, false)
  }

  function Views(lines: seq<Bytes>): (views: seq<Bytes>)
    ensures |views| == |lines|
  {
    seq(|lines|, i requires 0 <= i < |lines| => View(lines[i]))
  }

  /** How many of `lines` are executed, as far as the results of the commands go. */
  ghost predicate StopsAfter(succeeds: seq<Bytes> -> bool, log: seq<Bytes>, lines: seq<Bytes>, n: nat) {
    && n <= |lines|
    && (forall m :: 0 < m < n ==> succeeds(log + Views(lines[..m])))
    && (n < |lines| ==> n > 0 && !succeeds(log + Views(lines[..n])))
  }

  /** A run executes a prefix of the lines, whose last alone may fail, and all of them if none does. */
  lemma {:induction false} RunStops(succeeds: seq<Bytes> -> bool, log: seq<Bytes>, lines: seq<Bytes>) returns (n: nat)
    ensures StopsAfter(succeeds, log, lines, n)
    ensures Run(succeeds, log, lines) == Outcome(log + Views(lines[..n]), n == 0 || succeeds(log + Views(lines[..n])))
    decreases |lines|
  {
    if lines == [] {
      n := 0;
      assert log + Views([]) == log;
    } else {
      var next := log + [View(lines[0])];
      forall m: nat | 0 < m <= |lines| ensures log + Views(lines[..m]) == next + Views(lines[1..][..m - 1]) {
        assert lines[..m][0] == lines[0] && lines[..m][1..] == lines[1..][..m - 1];
      }
      assert next + Views([]) == next;
      if succeeds(next) {
        var i := RunStops(succeeds, next, lines[1..]);
        n := i + 1;
      } else {
        n := 1;
      }
    }
  }

  /** What is executed for a line: the line itself, or what precedes its first NUL. */
  lemma ViewKeeps(line: Bytes)
    ensures View(line) <= line && NUL !in View(line) && (View(line) == line || line[|View(line)|] == NUL)
    ensures NUL !in line ==> View(line) == line
  {
  }

  /** Lines are made of the bytes of the file. */
  lemma {:induction false} LineBytes(s: Bytes, i: nat, b: byte)
    requires i < |Lines(s)| && b in Lines(s)[i]
    ensures b in s
    decreases |s|
  {
    hide Lines, Index;
    var k := Index(s, NEWLINE);
    if k == |s| <= LIMIT {
      LinesLast(s);
    } else {
      var n, m := if k < LIMIT then k else LIMIT, if k < LIMIT then k + 1 else LIMIT;
      if k < LIMIT {
        LinesNewline(s, k);
      } else {
        LinesCut(s);
      }
      if i > 0 {
        LineBytes(s[m..], i - 1, b);
      }
    }
  }

  /** A run over the lines of `s`, told by its log alone. */
  lemma RunShows(succeeds: seq<Bytes> -> bool, log: seq<Bytes>, s: Bytes) returns (n: nat)
    ensures var lines, r := Lines(s), Run(succeeds, log, Lines(s));
      && n <= |lines| && |r.log| == |log| + n && log <= r.log
      && (forall i :: 0 <= i < n ==>
        r.log[|log| + i] <= lines[i] && NUL !in r.log[|log| + i] &&
        (r.log[|log| + i] == lines[i] || lines[i][|r.log[|log| + i]|] == NUL))
      && (forall m :: |log| < m < |r.log| ==> succeeds(r.log[..m]))
      && r.ok == (n == 0 || succeeds(r.log)) && (n < |lines| ==> !r.ok)
      && (NUL !in s ==> r.log == log + lines[..n])
  {
    hide Lines, Index, View, Run;
    var lines := Lines(s);
    n := RunStops(succeeds, log, lines);
    var all := log + Views(lines[..n]);
    forall i | 0 <= i < n
      ensures all[|log| + i] == View(lines[i]) && all[|log| + i] <= lines[i] && NUL !in all[|log| + i]
      ensures all[|log| + i] == lines[i] || lines[i][|all[|log| + i]|] == NUL
      ensures NUL !in s ==> all[|log| + i] == lines[i]
    {
      ViewKeeps(lines[i]);
      if NUL in lines[i] {
        LineBytes(s, i, NUL);
      }
    }
    forall m | |log| < m < |all| ensures succeeds(all[..m]) {
      assert all[..m] == log + Views(lines[..m - |log|]);
    }
  }

  /** What is left to do: the bytes not yet executed, unless a command has failed. */
  ghost predicate Pending(target: Outcome, succeeds: seq<Bytes> -> bool, log: seq<Bytes>, ok: bool, rest: Bytes) {
    target == if ok then Run(succeeds, log, Lines(rest)) else Outcome(log, false)
  }

  lemma PendingLine(target: Outcome, succeeds: seq<Bytes> -> bool, log: seq<Bytes>, rest: Bytes, k: nat)
    requires Pending(target, succeeds, log, true, rest)
    requires k == Index(rest, NEWLINE) && k < LIMIT && k < |rest|
    ensures var next := log + [View(rest[..k])];
      Pending(target, succeeds, next, succeeds(next), rest[k + 1..])
  {
    hide Lines, Index;
    LinesNewline(rest, k);
    assert Lines(rest)[1..] == Lines(rest[k + 1..]);
  }

  lemma PendingCut(target: Outcome, succeeds: seq<Bytes> -> bool, log: seq<Bytes>, rest: Bytes)
    requires Pending(target, succeeds, log, true, rest) && LIMIT <= Index(rest, NEWLINE)
    ensures var next := log + [View(rest[..LIMIT])];
      Pending(target, succeeds, next, succeeds(next), rest[LIMIT..])
  {
    hide Lines, Index;
    LinesCut(rest);
    assert Lines(rest)[1..] == Lines(rest[LIMIT..]);
  }

  lemma PendingLast(target: Outcome, succeeds: seq<Bytes> -> bool, log: seq<Bytes>, rest: Bytes)
    requires Pending(target, succeeds, log, true, rest) && Index(rest, NEWLINE) == |rest| <= LIMIT
    ensures rest == [] ==> target == Outcome(log, true)
    ensures var next := log + [View(rest)]; rest != [] ==> target == Outcome(next, succeeds(next))
  {
    hide Lines, Index;
    LinesLast(rest);
    if rest != [] {
      RunOne(succeeds, log, rest);
    }
  }

  lemma RunOne(succeeds: seq<Bytes> -> bool, log: seq<Bytes>, line: Bytes)
    ensures var next := log + [View(line)]; Run(succeeds, log, [line]) == Outcome(next, succeeds(next))
  {
    hide Index;
    var next := log + [View(line)];
    assert [line][1..] == [] && Run(succeeds, next, []) == Outcome(next, true);
  }

  // ---- The file, the console and the reader ----

  class File {
    const content: Bytes
    var position: nat
    var failed: bool

    ghost predicate Valid()
      reads this
    {
      position <= |content|
    }

    ghost function Rest(): Bytes
      requires Valid()
      reads this
    {
      content[position..]
    }

    constructor (content: Bytes)
      ensures Valid() && Rest() == content && !failed
    {
      this.content, position, failed := content, 0, false;
    }

    /**
     Reads into the `size` bytes of the buffer behind `offset`. More than they
     hold is refused; otherwise short exactly at the end of the file. Either is a
     failure, and the flag is never reset.
     */
    method Read(buffer: array<byte>, offset: nat, size: nat, count: nat) returns (got: nat)
      requires Valid() && offset + size <= buffer.Length
      modifies this, buffer
      ensures Valid() && got == (if count > size then 0 else if count <= |old(Rest())| then count else |old(Rest())|)
      ensures failed == (old(failed) || got < count)
      ensures old(Rest()) == buffer[offset..offset + got] + Rest()
      ensures forall i :: 0 <= i < buffer.Length && !(offset <= i < offset + got) ==> buffer[i] == old(buffer[i])
    {
      if count > size {
        failed := true;
        return 0;
      }
      ghost var rest := Rest();
      got := if count <= |content| - position then count else |content| - position;
      forall i | 0 <= i < got {
        buffer[offset + i] := content[position + i];
      }
      if got != count {
        failed := true;
      }
      assert buffer[offset..offset + got] == rest[..got] by {
        assert forall i :: 0 <= i < got ==> buffer[offset + i] == rest[i];
      }
      position := position + got;
      assert Rest() == rest[got..];
    }
  }

  class Console {
    const succeeds: seq<Bytes> -> bool
    var log: seq<Bytes>

    constructor (succeeds: seq<Bytes> -> bool)
      ensures this.succeeds == succeeds && log == []
    {
      this.succeeds, log := succeeds, [];
    }

    /** `hxconsole_exec_line` on the C string at `begin`: recorded, and may fail. */
    method ExecLine(buffer: array<byte>, begin: nat) returns (ok: bool)
      requires begin <= buffer.Length && NUL in buffer[begin..]
      modifies this
      ensures log == old(log) + [View(buffer[begin..])] && ok == succeeds(log)
    {
      log := log + [View(buffer[begin..])];
      ok := succeeds(log);
    }
  }

  lemma ViewTerminated(s: Bytes, begin: nat, end: nat)
    requires begin <= end < |s| && s[end] == NUL
    ensures NUL in s[begin..] && View(s[begin..]) == View(s[begin..end])
  {
    hide Index;
    var u, line := s[begin..], s[begin..end];
    assert u[end - begin] == NUL;
    var k := Index(line, NUL);
    assert u[..k] == line[..k];
    IndexIs(u, NUL, k);
  }

  /** `*end = '\0'` and the call that follows. */
  method ExecTerminated(console: Console, buffer: array<byte>, begin: nat, end: nat) returns (ok: bool)
    requires begin <= end < buffer.Length
    modifies console, buffer
    ensures buffer[..] == old(buffer[..])[end := NUL]
    ensures console.log == old(console.log) + [View(old(buffer[begin..end]))] && ok == console.succeeds(console.log)
  {
    hide View;
    ghost var was := buffer[..];
    buffer[end] := NUL;
    assert buffer[begin..] == buffer[..][begin..] && buffer[..][begin..end] == was[begin..end] == buffer[begin..end];
    ViewTerminated(buffer[..], begin, end);
    ok := console.ExecLine(buffer, begin);
  }

  /** `memmove` down to the start of the buffer. */
  method MoveDown(buffer: array<byte>, begin: nat, count: nat)
    requires begin + count <= buffer.Length
    modifies buffer
    ensures buffer[..count] == old(buffer[begin..begin + count])
  {
    forall i | 0 <= i < count {
      buffer[i] := buffer[begin + i];
    }
  }

  /** The first newline of a buffered line and what follows it in the file. */
  lemma FoundNewline(u: Bytes, scanned: nat, k: nat, rest: Bytes)
    requires scanned <= k < |u| && NEWLINE !in u[..scanned] && NEWLINE !in u[scanned..k] && u[k] == NEWLINE
    ensures Index(u + rest, NEWLINE) == k
    ensures (u + rest)[..k] == u[..k] && (u + rest)[k + 1..] == u[k + 1..] + rest
  {
    hide Index;
    assert (u + rest)[..k] == u[..scanned] + u[scanned..k];
    IndexIs(u + rest, NEWLINE, k);
  }

  lemma NoNewlineFound(u: Bytes, scanned: nat, rest: Bytes)
    requires scanned <= |u| && NEWLINE !in u[..scanned] && NEWLINE !in u[scanned..]
    ensures NEWLINE !in u && Index(u, NEWLINE) == |u| <= Index(u + rest, NEWLINE)
    ensures (u + rest)[..|u|] == u && (u + rest)[|u|..] == rest && u + [] == u
  {
    hide Index;
    assert u == u[..scanned] + u[scanned..];
    IndexIs(u, NEWLINE, |u|);
    assert (u + rest)[..|u|] == u;
    IndexAtLeast(u + rest, NEWLINE, |u|);
  }

  lemma SliceOfSlice(b: Bytes, begin: nat, end: nat, x: nat, y: nat)
    requires begin <= x <= y <= end <= |b|
    ensures b[begin..end][x - begin..y - begin] == b[x..y]
  {
    var v, w := b[begin..end][x - begin..y - begin], b[x..y];
    assert |v| == |w|;
    forall i | 0 <= i < |v| ensures v[i] == w[i] {
      assert v[i] == b[begin..end][x - begin + i];
    }
  }

  /** Where a newline is, in a slice and in the buffer. */
  lemma SliceParts(b: Bytes, begin: nat, scan: nat, k: nat, end: nat)
    requires begin <= scan <= k <= end <= |b|
    ensures var u := b[begin..end];
      && u[..scan - begin] == b[begin..scan] && u[scan - begin..k - begin] == b[scan..k]
      && u[..k - begin] == b[begin..k] && u[scan - begin..] == b[scan..end]
      && (k < end ==> u[k - begin + 1..] == b[k := NUL][k + 1..end])
  {
    var u := b[begin..end];
    assert u[..scan - begin] == b[begin..scan];
    SliceOfSlice(b, begin, end, scan, k);
    assert u[..k - begin] == b[begin..k];
    assert u[scan - begin..] == b[scan..end];
    if k < end {
      assert b[begin..end][k - begin + 1..] == b[k + 1..end];
      assert b[k := NUL][k + 1..end] == b[k + 1..end];
    }
  }

  /** Executes the next line if it ends in the buffer. */
  method ExecNext(console: Console, buffer: array<byte>, begin: nat, scan: nat, end: nat, ghost target: Outcome, ghost rest: Bytes)
    returns (found: bool, ok: bool, next: nat)
    requires begin <= scan <= end < MAX_LINE == buffer.Length && NEWLINE !in buffer[..][begin..scan]
    requires Pending(target, console.succeeds, console.log, true, buffer[..][begin..end] + rest)
    modifies console, buffer
    ensures if found then scan < next <= end else ok && next == begin && NEWLINE !in buffer[..][begin..end]
    ensures Pending(target, console.succeeds, console.log, ok, buffer[..][next..end] + rest)
  {
    hide Pending, Index, View, Find, Run, Lines;
    ghost var was := buffer[..];
    var newline := MemChrIn(buffer, NEWLINE, scan, end);
    assert buffer[scan..newline] == was[scan..newline];
    SliceParts(was, begin, scan, newline, end);
    ghost var u, log := was[begin..end], console.log;
    if newline == end {
      NoNewlineFound(u, scan - begin, rest);
      return false, true, begin;
    }
    FoundNewline(u, scan - begin, newline - begin, rest);
    PendingLine(target, console.succeeds, log, u + rest, newline - begin);
    assert buffer[begin..newline] == was[begin..newline];
    ok := ExecTerminated(console, buffer, begin, newline);
    found, next := true, newline + 1;
  }

  /** The lines that end in the buffer between `0` and `end`. */
  method ExecBuffered(console: Console, buffer: array<byte>, carried: nat, end: nat, ghost target: Outcome, ghost rest: Bytes)
    returns (ok: bool, begin: nat)
    requires carried <= end < MAX_LINE == buffer.Length && NEWLINE !in buffer[..][..carried]
    requires Pending(target, console.succeeds, console.log, true, buffer[..][..end] + rest)
    modifies console, buffer
    ensures begin <= end
    ensures Pending(target, console.succeeds, console.log, ok, buffer[..][begin..end] + rest)
    ensures ok ==> NEWLINE !in buffer[..][begin..end]
  {
    hide Pending, Index, View;
    ok, begin := true, 0;
    var scan, found := carried, true;
    while ok && found
      invariant begin <= scan <= end && (found && ok ==> NEWLINE !in buffer[..][begin..scan])
      invariant !found ==> NEWLINE !in buffer[..][begin..end]
      invariant Pending(target, console.succeeds, console.log, ok, buffer[..][begin..end] + rest)
      decreases found, end - scan
    {
      found, ok, begin := ExecNext(console, buffer, begin, scan, end, target, rest);
      scan := if found then begin else scan;
    }
  }

  /** What becomes of a line whose end is not in the buffer: the last of the file, one too long, or one carried over. */
  method ExecRest(failed: bool, console: Console, buffer: array<byte>, begin: nat, end: nat, ok: bool, ghost target: Outcome, ghost rest: Bytes)
    returns (result: bool, carried: nat)
    requires begin <= end < MAX_LINE == buffer.Length && (failed ==> rest == [])
    requires Pending(target, console.succeeds, console.log, ok, buffer[..][begin..end] + rest)
    requires ok ==> NEWLINE !in buffer[..][begin..end]
    modifies console, buffer
    ensures failed ==> target == Outcome(console.log, result)
    ensures carried < LIMIT
    ensures !failed && result ==> NEWLINE !in buffer[..][..carried]
    ensures !failed ==> Pending(target, console.succeeds, console.log, result, buffer[..][..carried] + rest)
  {
    hide Pending, Index, View, Run, Lines;
    result := ok;
    PendingRest(target, console.succeeds, console.log, result, buffer[..][begin..end], rest);
    carried := end - begin;
    if failed || carried >= LIMIT {
      if result && carried != 0 {
        result := ExecTerminated(console, buffer, begin, end);
      }
      carried := 0;
      assert buffer[..][..0] + rest == rest;
    } else {
      MoveDown(buffer, begin, carried);
    }
  }

  /** Fills the buffer behind the carried bytes. */
  method Refill(file: File, buffer: array<byte>, carried: nat) returns (end: nat)
    requires file.Valid() && carried < LIMIT && buffer.Length == MAX_LINE && !file.failed
    modifies file, buffer
    ensures file.Valid() && carried <= end <= LIMIT
    ensures buffer[..][..carried] == old(buffer[..][..carried])
    ensures buffer[..][..end] + file.Rest() == old(buffer[..][..carried]) + old(file.Rest())
    ensures file.failed ==> file.Rest() == []
    ensures !file.failed ==> |file.Rest()| < |old(file.Rest())|
  {
    ghost var before, held := file.Rest(), buffer[..][..carried];
    var want := LIMIT - carried;
    var got := file.Read(buffer, carried, want, want);
    end := carried + got;
    assert held == buffer[..][..carried];
    assert buffer[..][..end] == held + buffer[carried..end];
  }

  /** The loop over the file, told by the run that it makes. */
  method ExecLines(file: File, console: Console) returns (result: bool)
    requires file.Valid()
    modifies file, console
    ensures file.Valid()
    ensures !old(file.failed) ==> Outcome(console.log, result) == Run(console.succeeds, old(console.log), Lines(old(file.Rest())))
    ensures old(file.failed) ==> result && console.log == old(console.log)
  {
    hide Pending, Index, View, Run, Lines;
    var buffer := new byte[MAX_LINE];
    ghost var target := if file.failed then Outcome(console.log, true) else Run(console.succeeds, console.log, Lines(file.Rest()));
    result := true;
    var carried: nat := 0;
    PendingStart(target, console.succeeds, console.log, file.Rest());
    assert buffer[..][..0] + file.Rest() == file.Rest();
    while result && !file.failed
      invariant file.Valid() && carried < LIMIT && (result ==> NEWLINE !in buffer[..][..carried])
      invariant !file.failed ==> Pending(target, console.succeeds, console.log, result, buffer[..][..carried] + file.Rest())
      invariant file.failed ==> target == Outcome(console.log, result)
      decreases !file.failed, |file.Rest()|
    {
      var end := Refill(file, buffer, carried);
      var begin;
      result, begin := ExecBuffered(console, buffer, carried, end, target, file.Rest());
      result, carried := ExecRest(file.failed, console, buffer, begin, end, result, target, file.Rest());
      if file.failed {
        break;
      }
    }
    PendingFailed(target, console.succeeds, console.log, result, buffer[..][..carried] + file.Rest());
  }

  /**
   Executes a prefix of the lines, in order: each is given whole, or up to its
   first NUL. Only the last of them may fail, and without a failure all are executed.
   */
  method ExecFile(file: File, console: Console) returns (result: bool, ghost executed: nat)
    requires file.Valid()
    modifies file, console
    ensures file.Valid()
    ensures !old(file.failed) ==> Outcome(console.log, result) == Run(console.succeeds, old(console.log), Lines(old(file.Rest())))
    ensures old(file.failed) ==> result && console.log == old(console.log)
    ensures |console.log| == |old(console.log)| + executed && old(console.log) <= console.log
    ensures !old(file.failed) ==> executed <= |Lines(old(file.Rest()))|
    ensures !old(file.failed) ==> forall i :: 0 <= i < executed ==>
      var line, given := Lines(old(file.Rest()))[i], console.log[|old(console.log)| + i];
      given <= line && NUL !in given && (given == line || line[|given|] == NUL)
    ensures !old(file.failed) && NUL !in old(file.Rest()) ==>
      console.log == old(console.log) + Lines(old(file.Rest()))[..executed]
    ensures forall m :: |old(console.log)| < m < |console.log| ==> console.succeeds(console.log[..m])
    ensures result == (executed == 0 || console.succeeds(console.log))
    ensures !old(file.failed) && result ==> executed == |Lines(old(file.Rest()))|
  {
    hide Index, View, Run, Lines;
    ghost var failed, log, rest := file.failed, console.log, file.Rest();
    result := ExecLines(file, console);
    executed := 0;
    if !failed {
      executed := RunShows(console.succeeds, log, rest);
    }
  }

  lemma PendingStart(target: Outcome, succeeds: seq<Bytes> -> bool, log: seq<Bytes>, rest: Bytes)
    ensures target == Run(succeeds, log, Lines(rest)) ==> Pending(target, succeeds, log, true, rest)
  {
  }

  lemma PendingFailed(target: Outcome, succeeds: seq<Bytes> -> bool, log: seq<Bytes>, ok: bool, rest: Bytes)
    ensures !ok && Pending(target, succeeds, log, ok, rest) ==> target == Outcome(log, ok)
  {
  }

  /** What is left once the buffer holds no newline. */
  lemma PendingRest(target: Outcome, succeeds: seq<Bytes> -> bool, log: seq<Bytes>, ok: bool, u: Bytes, rest: Bytes)
    requires Pending(target, succeeds, log, ok, u + rest) && |u| <= LIMIT && (ok ==> NEWLINE !in u)
    ensures rest == [] && (u == [] || !ok) ==> target == Outcome(log, ok)
    ensures var next := log + [View(u)]; rest == [] && u != [] && ok ==> target == Outcome(next, succeeds(next))
    ensures var next := log + [View(u)]; |u| == LIMIT && ok ==> Pending(target, succeeds, next, succeeds(next), rest)
    ensures !ok ==> forall other: Bytes :: Pending(target, succeeds, log, ok, other)
  {
    hide Index, View, Run, Lines;
    if ok {
      NoNewlineFound(u, |u|, rest);
      if rest == [] {
        PendingLast(target, succeeds, log, u);
      }
      if |u| == LIMIT {
        PendingCut(target, succeeds, log, u + rest);
      }
    }
  }
}
