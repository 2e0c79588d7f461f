/** Resumable, capped reading of a growing log file (backend/app/plugins/base.py). */
module LogTail {
  import opened Wrappers

  /** The file as one call finds it: what stat() reported and what the opened handle then reads. */
  datatype File = File(inode: nat, size: nat, text: string)

  datatype TailResult = TailResult(lines: seq<string>, offset: nat, inode: nat, fileSize: nat, moreAvailable: bool)

  /** Where the line that starts at `pos` ends, its newline included. */
  function LineEnd(text: string, pos: nat): (end: nat)
    ensures pos <= end && (end == pos <==> pos >= |text|) && (pos <= |text| ==> end <= |text|)
    decreases |text| - pos
  {
    if pos >= |text| then pos
    else if text[pos] == '\n' then pos + 1
    else LineEnd(text, pos + 1)
  }

  /** All lines from `pos` on. */
  function Lines(text: string, pos: nat): seq<string>
    decreases |text| - pos
  {
    if pos >= |text| then [] else [text[pos..LineEnd(text, pos)]] + Lines(text, LineEnd(text, pos))
  }

  function Concat(lines: seq<string>): string {
    if lines == [] then "" else lines[0] + Concat(lines[1..])
  }

  function Capped<T>(items: seq<T>, cap: Option<nat>): seq<T> {
    if cap.Some? && cap.value < |items| then items[..cap.value] else items
  }

  /** Where a call starts: at its own offset, unless the file was rotated or truncated. */
  function Start(file: File, offset: nat, inode: Option<nat>, lastSize: Option<nat>): nat {
    if (inode.Some? && file.inode != inode.value) || file.size < offset || (lastSize.Some? && file.size < lastSize.value)
    then 0 else offset
  }

  /** What one call returns. */
  function Tailed(file: File, offset: nat, inode: Option<nat>, maxLines: Option<nat>, lastSize: Option<nat>): TailResult {
    var start := Start(file, offset, inode, lastSize);
    var lines := Capped(Lines(file.text, start), maxLines);
    TailResult(lines, start + |Concat(lines)|, file.inode, file.size, |lines| < |Lines(file.text, start)|)
  }

  /** The lines read so far, and where that leaves the handle. */
  ghost predicate Progress(text: string, start: nat, lines: seq<string>, pos: nat) {
    lines + Lines(text, pos) == Lines(text, start) && pos == start + |Concat(lines)|
  }

  lemma {:induction false} ReadOn(text: string, start: nat, lines: seq<string>, pos: nat)
    requires Progress(text, start, lines, pos) && pos < |text|
    ensures var end := LineEnd(text, pos); Progress(text, start, lines + [text[pos..end]], end)
  {
    var end := LineEnd(text, pos);
    var line := text[pos..end];
    ConcatAppend(lines, [line]);
    assert Concat([line]) == line;
    assert lines + ([line] + Lines(text, end)) == (lines + [line]) + Lines(text, end);
  }

  lemma ReadOut(file: File, offset: nat, inode: Option<nat>, maxLines: Option<nat>, lastSize: Option<nat>,
                lines: seq<string>, pos: nat)
    requires Progress(file.text, Start(file, offset, inode, lastSize), lines, pos)
    requires maxLines.Some? ==> |lines| <= maxLines.value
    requires pos >= |file.text| || (maxLines.Some? && |lines| == maxLines.value)
    ensures Tailed(file, offset, inode, maxLines, lastSize) ==
            TailResult(lines, pos, file.inode, file.size, maxLines.Some? && |lines| == maxLines.value && pos < |file.text|)
  {
    var rest := Lines(file.text, pos);
    assert pos >= |file.text| ==> lines + rest == lines;
    assert pos < |file.text| ==> |rest| > 0 && (lines + rest)[..|lines|] == lines;
  }

  // ---- In place ----------------------------------------------------------------------------------

  class Handle {
    const text: string
    var pos: nat

    constructor (text: string)
      ensures this.text == text && pos == 0
    {
      this.text := text;
      pos := 0;
    }

    method Seek(offset: nat)
      modifies this
      ensures pos == offset
    {
      pos := offset;
    }

    method ReadLine() returns (line: string)
      modifies this
      ensures pos == LineEnd(text, old(pos))
      ensures line == if old(pos) >= |text| then "" else text[old(pos)..pos]
    {
      if pos >= |text| {
        return "";
      }
      var start := pos;
      while text[pos] != '\n' && pos + 1 < |text|
        invariant start <= pos < |text|
        invariant LineEnd(text, pos) == LineEnd(text, start)
        decreases |text| - pos
      {
        pos := pos + 1;
      }
      pos := pos + 1;
      return text[start..pos];
    }
  }

  method TailTextFile(file: File, offset: nat, inode: Option<nat>, maxLines: Option<nat>, lastSize: Option<nat>)
    returns (r: TailResult)
    ensures r == Tailed(file, offset, inode, maxLines, lastSize)
  {
    var rotated := inode.Some? && file.inode != inode.value;
    var truncated := file.size < offset || (lastSize.Some? && file.size < lastSize.value);
    var start := if rotated || truncated then 0 else offset;
    var lines: seq<string> := [];
    var handle := new Handle(file.text);
    handle.Seek(start);
    while maxLines.None? || |lines| < maxLines.value
      invariant Progress(file.text, start, lines, handle.pos)
      invariant maxLines.Some? ==> |lines| <= maxLines.value
      decreases |file.text| - handle.pos
    {
      ghost var before := handle.pos;
      var line := handle.ReadLine();
      if line == "" {
        break;
      }
      ReadOn(file.text, start, lines, before);
      lines := lines + [line];
    }
    ReadOut(file, offset, inode, maxLines, lastSize, lines, handle.pos);
    var newOffset := handle.pos;
    var moreAvailable := false;
    if maxLines.Some? && |lines| >= maxLines.value {
      var next := handle.ReadLine();
      moreAvailable := next != "";
    }
    return TailResult(lines, newOffset, file.inode, file.size, moreAvailable);
  }

  // ---- One call ----------------------------------------------------------------------------------

  lemma {:induction false} ConcatAppend(a: seq<string>, b: seq<string>)
    ensures Concat(a + b) == Concat(a) + Concat(b)
  {
    if a == [] {
      assert a + b == b;
    } else {
      assert (a + b)[1..] == a[1..] + b;
      ConcatAppend(a[1..], b);
    }
  }

  /** The first n lines are consecutive text, and what follows them are the remaining lines. */
  lemma {:induction false} FirstLines(text: string, pos: nat, n: nat)
    requires pos <= |text| && n <= |Lines(text, pos)|
    ensures var next := pos + |Concat(Lines(text, pos)[..n])|;
            && next <= |text|
            && Concat(Lines(text, pos)[..n]) == text[pos..next]
            && Lines(text, next) == Lines(text, pos)[n..]
            && (n > 0 ==> next > pos)
    decreases n
  {
    if n > 0 {
      var end := LineEnd(text, pos);
      FirstLines(text, end, n - 1);
      assert Lines(text, pos)[..n] == [text[pos..end]] + Lines(text, end)[..n - 1];
      assert Lines(text, pos)[n..] == Lines(text, end)[n - 1..];
    }
  }

  /** One call returns exactly the text between the offset it started at and the one it returns; the
      flag says whether text was left, which only the cap can cause. */
  lemma TailedIsText(file: File, offset: nat, inode: Option<nat>, maxLines: Option<nat>, lastSize: Option<nat>)
    requires Start(file, offset, inode, lastSize) <= |file.text|
    ensures var start, r := Start(file, offset, inode, lastSize), Tailed(file, offset, inode, maxLines, lastSize);
            && start <= r.offset <= |file.text|
            && Concat(r.lines) == file.text[start..r.offset]
            && Lines(file.text, start) == r.lines + Lines(file.text, r.offset)
            && (r.moreAvailable <==> r.offset < |file.text|)
            && (r.moreAvailable ==> maxLines.Some? && |r.lines| == maxLines.value)
  {
    var start, r := Start(file, offset, inode, lastSize), Tailed(file, offset, inode, maxLines, lastSize);
    var lines := Lines(file.text, start);
    assert r.lines == lines[..|r.lines|] && lines == lines[..|r.lines|] + lines[|r.lines|..];
    FirstLines(file.text, start, |r.lines|);
  }

  // ---- Runs of calls -----------------------------------------------------------------------------

  /** What the caller keeps between calls, with everything read since the last restart. */
  datatype Reader = Reader(offset: nat, inode: Option<nat>, lastSize: Option<nat>, read: seq<string>)

  function Call(reader: Reader, file: File, maxLines: Option<nat>): Reader {
    var r := Tailed(file, reader.offset, reader.inode, maxLines, reader.lastSize);
    Reader(r.offset, Some(r.inode), Some(r.fileSize),
           (if Start(file, reader.offset, reader.inode, reader.lastSize) == reader.offset then reader.read else []) + r.lines)
  }

  /** A file and the cap of the call that reads it. */
  type Visit = (File, Option<nat>)

  function After(run: seq<Visit>): Reader {
    if run == [] then Reader(0, None, None, [])
    else Call(After(run[..|run| - 1]), run[|run| - 1].0, run[|run| - 1].1)
  }

  /** From one visit to the next the file only grew, or it was replaced in a way a call notices: by
      another inode, or by a file smaller than it was or than what was read. Between stat() and the
      read it only grows. */
  ghost predicate Plausible(run: seq<Visit>) {
    && (forall i :: 0 <= i < |run| ==> run[i].0.size <= |run[i].0.text|)
    && (forall i :: 0 < i < |run| ==> Grown(run[i - 1].0, run[i].0) || Replaced(run, i))
  }

  ghost predicate Grown(before: File, after: File) {
    after.inode == before.inode && |before.text| <= after.size && before.text <= after.text
  }

  ghost predicate Replaced(run: seq<Visit>, i: nat)
    requires 0 < i < |run|
  {
    || run[i].0.inode != run[i - 1].0.inode
    || run[i].0.size < run[i - 1].0.size
    || run[i].0.size < After(run[..i]).offset
  }

  lemma PlausiblePrefix(run: seq<Visit>)
    requires Plausible(run) && run != []
    ensures Plausible(run[..|run| - 1])
  {
    var before := run[..|run| - 1];
    forall i | 0 < i < |before| ensures Grown(before[i - 1].0, before[i].0) || Replaced(before, i) {
      assert before[..i] == run[..i];
    }
  }

  /** What was read is the text up to the offset, and the caller remembers the file. */
  ghost predicate UpToDate(reader: Reader, file: File) {
    && reader.inode == Some(file.inode) && reader.lastSize == Some(file.size)
    && reader.offset <= |file.text| && Concat(reader.read) == file.text[..reader.offset]
  }

  lemma CallKeeps(reader: Reader, file: File, cap: Option<nat>)
    requires var start := Start(file, reader.offset, reader.inode, reader.lastSize);
             && start <= |file.text|
             && (start == reader.offset ==> Concat(reader.read) == file.text[..start])
    ensures UpToDate(Call(reader, file, cap), file)
  {
    var start := Start(file, reader.offset, reader.inode, reader.lastSize);
    var r := Tailed(file, reader.offset, reader.inode, cap, reader.lastSize);
    TailedIsText(file, reader.offset, reader.inode, cap, reader.lastSize);
    ReadFurther(if start == reader.offset then reader.read else [], r.lines, file.text, start, r.offset);
  }

  lemma {:induction false} ReadFurther(read: seq<string>, lines: seq<string>, text: string, start: nat, next: nat)
    requires start <= next <= |text|
    requires Concat(lines) == text[start..next]
    requires Concat(read) == text[..start]
    ensures Concat(read + lines) == text[..next]
  {
    ConcatAppend(read, lines);
    assert text[..start] + text[start..next] == text[..next];
  }

  /** Over any run of capped calls on a file that grows by appends and is rotated now and then, what
      was read since the last restart is exactly the prefix of the current file up to the stored
      offset: nothing is skipped and nothing read twice, and after a rotation reading starts over at
      the beginning of the new file. */
  lemma {:induction false} ReadIsPrefix(run: seq<Visit>)
    requires Plausible(run) && run != []
    ensures UpToDate(After(run), run[|run| - 1].0)
    decreases |run|
  {
    var before, file := run[..|run| - 1], run[|run| - 1].0;
    if before != [] {
      PlausiblePrefix(run);
      ReadIsPrefix(before);
      assert Grown(before[|before| - 1].0, file) || Replaced(run, |run| - 1);
    }
    CallKeeps(After(before), file, run[|run| - 1].1);
  }

  /** All lines that the calls of a run returned. */
  function Returned(run: seq<Visit>): seq<string> {
    if run == [] then []
    else
      var before, visit := run[..|run| - 1], run[|run| - 1];
      var reader := After(before);
      Returned(before) + Tailed(visit.0, reader.offset, reader.inode, visit.1, reader.lastSize).lines
  }

  predicate Restarts(reader: Reader, file: File) {
    || (reader.inode.Some? && reader.inode.value != file.inode)
    || file.size < reader.offset || (reader.lastSize.Some? && file.size < reader.lastSize.value)
  }

  /** A call starts over exactly when the file was replaced in a noticeable way since the last call,
      which a file that only grew never looks like. */
  lemma {:induction false} RestartsIffReplaced(run: seq<Visit>)
    requires Plausible(run) && |run| >= 2
    ensures Restarts(After(run[..|run| - 1]), run[|run| - 1].0) <==> Replaced(run, |run| - 1)
    ensures Grown(run[|run| - 2].0, run[|run| - 1].0) ==> !Replaced(run, |run| - 1)
  {
    PlausiblePrefix(run);
    ReadIsPrefix(run[..|run| - 1]);
    assert run[..|run| - 1][|run| - 2] == run[|run| - 2];
  }

  /** While the file only grows, no call starts over: all lines ever returned, in order, are exactly
      the file's prefix up to the stored offset. */
  lemma {:induction false} GrowingFileIsReadOnce(run: seq<Visit>)
    requires Plausible(run) && run != []
    requires forall i :: 0 < i < |run| ==> Grown(run[i - 1].0, run[i].0)
    ensures After(run).read == Returned(run)
    ensures var file, offset := run[|run| - 1].0, After(run).offset;
            offset <= |file.text| && Concat(Returned(run)) == file.text[..offset]
    decreases |run|
  {
    ReadIsPrefix(run);
    var before := run[..|run| - 1];
    if before != [] {
      PlausiblePrefix(run);
      GrowingFileIsReadOnce(before);
      assert Grown(run[|run| - 2].0, run[|run| - 1].0);
      RestartsIffReplaced(run);
    }
  }

  // ---- Draining ----------------------------------------------------------------------------------

  /** The calls it takes to drain an unchanging file with a cap of k lines. */
  function Calls(text: string, pos: nat, k: nat): nat
    requires k > 0 && pos <= |text|
    decreases |text| - pos
  {
    var file := File(0, |text|, text);
    var r := Tailed(file, pos, Some(0), Some(k), Some(|text|));
    TailedIsText(file, pos, Some(0), Some(k), Some(|text|));
    if r.moreAvailable && r.offset > pos then 1 + Calls(text, r.offset, k) else 1
  }

  lemma CallsStep(text: string, pos: nat, k: nat) returns (next: nat)
    requires k > 0 && pos <= |text|
    ensures |Lines(text, pos)| <= k ==> Calls(text, pos, k) == 1
    ensures |Lines(text, pos)| > k ==>
              && pos < next <= |text| && |Lines(text, next)| == |Lines(text, pos)| - k
              && Calls(text, pos, k) == 1 + Calls(text, next, k)
  {
    TailedIsText(File(0, |text|, text), pos, Some(0), Some(k), Some(|text|));
    next := pos;
    if |Lines(text, pos)| > k {
      FirstLines(text, pos, k);
      next := pos + |Concat(Lines(text, pos)[..k])|;
    }
  }

  /** The calls that `count` lines need when each takes k of them. */
  function Rounds(count: nat, k: nat): nat
    requires k > 0
  {
    if count <= k then 1 else 1 + Rounds(count - k, k)
  }

  lemma {:induction false} CallsAreRounds(text: string, pos: nat, k: nat)
    requires k > 0 && pos <= |text|
    ensures Calls(text, pos, k) == Rounds(|Lines(text, pos)|, k)
    decreases |text| - pos
  {
    var next := CallsStep(text, pos, k);
    if |Lines(text, pos)| > k {
      CallsAreRounds(text, next, k);
    }
  }

  lemma {:induction false} RoundsAreCeil(count: nat, k: nat)
    requires k > 0
    ensures Rounds(count, k) == (if count == 0 then 1 else (count + k - 1) / k)
    ensures Rounds(count, k) <= count / k + 1
    decreases count
  {
    if count > k {
      RoundsAreCeil(count - k, k);
      CeilStep(count, k);
    } else {
      SmallQuotient(count, k);
    }
  }

  /** L lines drain in ceil(L/k) calls, one call where there is nothing to read - never more than
      floor(L/k) + 1. */
  lemma {:induction false} DrainsInCeil(text: string, pos: nat, k: nat)
    requires k > 0 && pos <= |text|
    ensures var count := |Lines(text, pos)|;
            && Calls(text, pos, k) == (if count == 0 then 1 else (count + k - 1) / k)
            && Calls(text, pos, k) <= count / k + 1
  {
    CallsAreRounds(text, pos, k);
    RoundsAreCeil(|Lines(text, pos)|, k);
  }

  lemma CeilStep(n: nat, k: nat)
    requires 0 < k < n
    ensures (n + k - 1) / k == (n - k + k - 1) / k + 1 && n / k == (n - k) / k + 1
  {
    DivideStep(n, k);
    DivideStep(n + k - 1, k);
  }

  lemma DivideStep(n: nat, k: nat)
    requires 0 < k <= n
    ensures n / k == (n - k) / k + 1
  {
    var q, r := (n - k) / k, (n - k) % k;
    assert n == (q * k + r) + k;
    OneMore(q, k);
    Quotient(n, k, q + 1, r);
  }

  lemma OneMore(q: nat, k: nat)
    ensures (q + 1) * k == q * k + k
  {
  }

  lemma Quotient(n: nat, k: nat, q: nat, r: nat)
    requires k > 0 && r < k && n == q * k + r
    ensures n / k == q
  {
    var m := n / k;
    assert n == m * k + n % k;
    Farther(q, m, k);
    Farther(m, q, k);
  }

  lemma Farther(a: nat, b: nat, k: nat)
    ensures a < b ==> b * k >= a * k + k
  {
    if a < b {
      assert b * k == a * k + (b - a) * k;
      assert (b - a) * k == k + (b - a - 1) * k;
    }
  }

  lemma SmallQuotient(n: nat, k: nat)
    requires n <= k && k > 0
    ensures n > 0 ==> (n + k - 1) / k == 1
    ensures n / k >= 0
  {
    if n > 0 {
      DivideStep(n + k - 1, k);
    }
  }

  // ---- Lines that are still being written ----------------------------------------------------------

  /** Stopping at `pos` leaves the lines of the file intact if and only if `pos` is at its start, at
      its end or just behind a newline; anywhere else one line is returned in two pieces. */
  lemma {:induction false} IntactIff(text: string, from: nat, pos: nat)
    requires from < pos <= |text|
    ensures Lines(text, from) == Lines(text[..pos], from) + Lines(text, pos) <==> pos == |text| || text[pos - 1] == '\n'
    decreases pos - from
  {
    var end := LineEnd(text, from);
    LineEndPrefix(text, from, pos);
    if end < pos {
      IntactIff(text, end, pos);
      assert text[..pos][from..end] == text[from..end];
      var line := [text[from..end]];
      assert (line + Lines(text[..pos], end)) + Lines(text, pos) == line + (Lines(text[..pos], end) + Lines(text, pos));
      SameHead(text[from..end], Lines(text, end), Lines(text[..pos], end) + Lines(text, pos));
    } else {
      LastLine(text, from, pos);
    }
  }

  /** The case of a last line that reaches up to `pos`. */
  lemma {:induction false} LastLine(text: string, from: nat, pos: nat)
    requires from < pos <= |text| && pos <= LineEnd(text, from)
    ensures Lines(text, from) == Lines(text[..pos], from) + Lines(text, pos) <==> pos == |text| || text[pos - 1] == '\n'
  {
    PrefixIsOneLine(text, from, pos);
    EndsLine(text, from);
    if LineEnd(text, from) != pos {
      CutLine(text, from, pos, Lines(text, pos));
    }
  }

  lemma {:induction false} PrefixIsOneLine(text: string, from: nat, pos: nat)
    requires from < pos <= |text| && pos <= LineEnd(text, from)
    ensures Lines(text[..pos], from) == [text[from..pos]]
  {
    LineEndPrefix(text, from, pos);
    assert text[..pos][from..pos] == text[from..pos];
  }

  /** A list of lines that starts with a piece of the line at `from` is another list. */
  lemma {:induction false} CutLine(text: string, from: nat, pos: nat, others: seq<string>)
    requires from < pos < LineEnd(text, from) <= |text|
    ensures Lines(text, from) != [text[from..pos]] + others
  {
    assert Lines(text, from)[0] == text[from..LineEnd(text, from)];
    assert |Lines(text, from)[0]| != |([text[from..pos]] + others)[0]|;
  }

  lemma SameHead<T>(head: T, a: seq<T>, b: seq<T>)
    ensures [head] + a == [head] + b <==> a == b
  {
    assert ([head] + a)[1..] == a && ([head] + b)[1..] == b;
  }

  /** A line runs to its first newline or to the end of the text. */
  lemma {:induction false} EndsLine(text: string, pos: nat)
    requires pos < |text|
    ensures var end := LineEnd(text, pos);
            && (end == |text| || text[end - 1] == '\n')
            && forall i :: pos <= i < end - 1 ==> text[i] != '\n'
    decreases |text| - pos
  {
    if text[pos] != '\n' && pos + 1 < |text| {
      EndsLine(text, pos + 1);
    }
  }

  lemma {:induction false} LineEndPrefix(text: string, from: nat, pos: nat)
    requires from < pos <= |text|
    ensures LineEnd(text[..pos], from) == if LineEnd(text, from) < pos then LineEnd(text, from) else pos
    decreases pos - from
  {
    if text[from] != '\n' && from + 1 < pos {
      LineEndPrefix(text, from + 1, pos);
    }
  }
}
