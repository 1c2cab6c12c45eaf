/** show_read_error (lib/sysfs.c:491-534): failing addresses, compressed into runs and broken into lines. */
module ReadError {
  import opened Bits

  const FAILED: Byte := 0xFF
  const ADDRESSES_IN_LINE: nat := 8

  /** What one printf sends out: the heading, a run, a single address, a line end. */
  datatype Token = Heading | Range(lo: nat, hi: nat) | Single(addr: nat) | LineEnd

  /** Failing addresses from `lo` to `hi`. */
  datatype Run = Run(lo: nat, hi: nat)

  /** The last failing position of the run that starts at `i`. */
  function RunLast(status: seq<Byte>, i: nat): (j: nat)
    requires i < |status| && status[i] == FAILED
    ensures i <= j < |status| && (forall k :: i <= k <= j ==> status[k] == FAILED)
    ensures j + 1 < |status| ==> status[j + 1] != FAILED
    decreases |status| - i
  {
    if i + 1 < |status| && status[i + 1] == FAILED then RunLast(status, i + 1) else i
  }

  /** The runs of failing positions from `i` on, as addresses. */
  function Runs(pos: nat, status: seq<Byte>, i: nat): seq<Run>
    requires i <= |status|
    decreases |status| - i
  {
    if i == |status| then []
    else if status[i] != FAILED then Runs(pos, status, i + 1)
    else
      var j := RunLast(status, i);
      [Run(pos + i, pos + j)] + Runs(pos, status, j + 1)
  }

  function TokenOf(r: Run): Token {
    if r.lo == r.hi then Single(r.lo) else Range(r.lo, r.hi)
  }

  /** A run shows its two ends, a single failure one address. */
  function Shown(t: Token): nat {
    match t
    case Range(_, _) => 2
    case Single(_) => 1
    case _ => 0
  }

  /** The tokens of the runs, with `count` addresses already on the current line. */
  function Lines(runs: seq<Run>, count: nat): seq<Token>
    decreases |runs|
  {
    if runs == [] then (if count > 0 then [LineEnd] else [])
    else
      var t := TokenOf(runs[0]);
      if count + Shown(t) >= ADDRESSES_IN_LINE then [t, LineEnd] + Lines(runs[1..], 0)
      else [t] + Lines(runs[1..], count + Shown(t))
  }

  function Report(pos: nat, status: seq<Byte>): seq<Token> {
    var runs := Runs(pos, status, 0);
    if runs == [] then [] else [Heading] + Lines(runs, 0) + [LineEnd]
  }

  // ----- the loops

  lemma {:induction false} NoRuns(pos: nat, status: seq<Byte>, i: nat)
    requires i <= |status|
    ensures Runs(pos, status, i) == [] <==> forall k :: i <= k < |status| ==> status[k] != FAILED
    decreases |status| - i
  {
    if i < |status| && status[i] != FAILED {
      NoRuns(pos, status, i + 1);
    }
  }

  /** show_read_error; the second half of the buffer holds a status byte for each byte of the first. */
  method ShowReadError(pos: nat, buf: array<Byte>, len: nat) returns (out: seq<Token>)
    requires buf.Length == 2 * len
    ensures out == Report(pos, buf[len..])
  {
    ghost var status := buf[len..];
    var i := FirstFailure(pos, buf, len);
    if i == len {
      return [];
    }
    out := [Heading];
    var lineCount, needBreak := 0, false;
    ghost var goal := [Heading] + Lines(Runs(pos, status, 0), 0);
    while i < len
      invariant i <= len && needBreak == (lineCount > 0)
      invariant out + Lines(Runs(pos, status, i), lineCount) == goal
    {
      hide Lines, Runs;
      i, out, lineCount, needBreak := Turn(pos, buf, len, i, out, lineCount, needBreak, goal);
    }
    if needBreak {
      out := out + [LineEnd];
    }
    out := out + [LineEnd];
  }

  /** One turn of the reporting loop: skip a byte that was read, or report the run that starts here. */
  method Turn(pos: nat, buf: array<Byte>, len: nat, i: nat, out: seq<Token>, count: nat, break_: bool,
              ghost goal: seq<Token>)
    returns (next: nat, more: seq<Token>, lineCount: nat, needBreak: bool)
    requires buf.Length == 2 * len && i < len && break_ == (count > 0)
    requires out + Lines(Runs(pos, buf[len..], i), count) == goal
    ensures i < next <= len && needBreak == (lineCount > 0)
    ensures more + Lines(Runs(pos, buf[len..], next), lineCount) == goal
  {
    ghost var status := buf[len..];
    assert status[i] == buf[i + len];
    RunsStep(pos, status, i);
    hide Lines, Runs, RunLast, TokenOf, Shown;
    if buf[i + len] != FAILED {
      return i + 1, out, count, break_;
    }
    var last := FindLast(buf, len, i);
    more, lineCount, needBreak := PutRun(pos + i, pos + last, out, count);
    Appends(out, Runs(pos, status, i), count, more, lineCount);
    next := last + 1;
  }

  /** The search for a first failing byte. */
  method FirstFailure(pos: nat, buf: array<Byte>, len: nat) returns (i: nat)
    requires buf.Length == 2 * len
    ensures i <= len && Runs(pos, buf[len..], 0) == Runs(pos, buf[len..], i)
    ensures i < len ==> Runs(pos, buf[len..], i) != []
  {
    ghost var status := buf[len..];
    i := 0;
    while i < len && buf[i + len] != FAILED
      invariant i <= len && Runs(pos, status, 0) == Runs(pos, status, i)
    {
      assert status[i] == buf[i + len];
      i := i + 1;
    }
    assert i < len ==> status[i] == buf[i + len];
  }

  /** The inner loop: where the run that starts at `first` ends. */
  method FindLast(buf: array<Byte>, len: nat, first: nat) returns (last: nat)
    requires buf.Length == 2 * len && first < len && buf[first + len] == FAILED
    ensures buf[len..][first] == FAILED && last == RunLast(buf[len..], first) && last < len
  {
    ghost var status := buf[len..];
    last := first;
    assert status[first] == buf[first + len];
    while last + 1 < len && buf[last + 1 + len] == FAILED
      invariant first <= last < len && status[last] == FAILED && RunLast(status, first) == RunLast(status, last)
    {
      assert status[last + 1] == buf[last + 1 + len];
      last := last + 1;
    }
    assert last + 1 < len ==> status[last + 1] == buf[last + 1 + len];
  }

  /** The printing of one run, and the line end when the line is full. */
  method PutRun(lo: nat, hi: nat, out: seq<Token>, count: nat)
    returns (more: seq<Token>, lineCount: nat, needBreak: bool)
    requires lo <= hi
    ensures needBreak == (lineCount > 0)
    ensures var t := TokenOf(Run(lo, hi));
      if count + Shown(t) >= ADDRESSES_IN_LINE then more == out + [t, LineEnd] && lineCount == 0
      else more == out + [t] && lineCount == count + Shown(t)
  {
    if lo < hi {
      more, lineCount := out + [Range(lo, hi)], count + 2;
    } else {
      more, lineCount := out + [Single(hi)], count + 1;
    }
    needBreak := true;
    if lineCount >= ADDRESSES_IN_LINE {
      more := more + [LineEnd];
      needBreak, lineCount := false, 0;
    }
  }

  /** The runs from a position on: skip it, or take the run that starts there. */
  lemma RunsStep(pos: nat, status: seq<Byte>, i: nat)
    requires i < |status|
    ensures status[i] != FAILED ==> Runs(pos, status, i) == Runs(pos, status, i + 1)
    ensures status[i] == FAILED ==>
      var j := RunLast(status, i);
      Runs(pos, status, i) != [] && Runs(pos, status, i)[0] == Run(pos + i, pos + j)
      && Runs(pos, status, i)[1..] == Runs(pos, status, j + 1)
  {
  }

  /** Writing the first run moves it from what is to come to what is out. */
  lemma Appends(was: seq<Token>, runs: seq<Run>, count: nat, out: seq<Token>, next: nat)
    requires runs != []
    requires var t := TokenOf(runs[0]);
      if count + Shown(t) >= ADDRESSES_IN_LINE then out == was + [t, LineEnd] && next == 0
      else out == was + [t] && next == count + Shown(t)
    ensures out + Lines(runs[1..], next) == was + Lines(runs, count)
  {
  }

  // ----- what is printed

  /** The addresses that a list of runs covers. */
  ghost predicate Covers(runs: seq<Run>, a: nat) {
    exists k :: 0 <= k < |runs| && runs[k].lo <= a <= runs[k].hi
  }

  /** Ascending, and with at least one address between any two neighbours: no run can be extended. */
  ghost predicate Apart(runs: seq<Run>) {
    && (forall k :: 0 <= k < |runs| ==> runs[k].lo <= runs[k].hi)
    && (forall k, l :: 0 <= k < l < |runs| ==> runs[k].hi + 1 < runs[l].lo)
  }

  /** The runs are maximal, ascending and apart, and cover exactly the failing addresses. */
  lemma {:induction false} RunsAreFailures(pos: nat, status: seq<Byte>, i: nat)
    requires i <= |status|
    ensures var runs := Runs(pos, status, i);
      && Apart(runs) && (forall k :: 0 <= k < |runs| ==> pos + i <= runs[k].lo)
      && (forall a: nat :: Covers(runs, a) <==> pos + i <= a < pos + |status| && status[a - pos] == FAILED)
    decreases |status| - i
  {
    if i < |status| {
      if status[i] != FAILED {
        RunsAreFailures(pos, status, i + 1);
      } else {
        var j := RunLast(status, i);
        var runs, rest := Runs(pos, status, i), Runs(pos, status, j + 1);
        RunsAreFailures(pos, status, j + 1);
        if j + 1 < |status| {
          RunsAreFailures(pos, status, j + 2);
          assert rest == Runs(pos, status, j + 2);
        }
        assert runs == [Run(pos + i, pos + j)] + rest;
        forall a: nat
          ensures Covers(runs, a) <==> pos + i <= a <= pos + j || Covers(rest, a)
        {
          CoversCons(Run(pos + i, pos + j), rest, a);
        }
      }
    }
  }

  lemma CoversCons(r: Run, rest: seq<Run>, a: nat)
    ensures Covers([r] + rest, a) <==> r.lo <= a <= r.hi || Covers(rest, a)
  {
    var runs := [r] + rest;
    if r.lo <= a <= r.hi {
      assert runs[0] == r;
    }
    if Covers(rest, a) {
      var k :| 0 <= k < |rest| && rest[k].lo <= a <= rest[k].hi;
      assert runs[k + 1] == rest[k];
    }
  }

  /** Every line but the last carries eight or nine addresses; the last one carries at least one. */
  predicate FullLines(ts: seq<Token>, count: nat)
    decreases |ts|
  {
    if ts == [] then count == 0
    else if ts[0] == LineEnd then
      (count == 8 || count == 9 || (0 < count < 8 && |ts| == 1)) && FullLines(ts[1..], 0)
    else FullLines(ts[1..], count + Shown(ts[0]))
  }

  lemma {:induction false} LinesAreFull(runs: seq<Run>, count: nat)
    requires count < 8
    ensures FullLines(Lines(runs, count), count)
    decreases |runs|
  {
    if runs != [] {
      var t := TokenOf(runs[0]);
      var all := Lines(runs, count);
      if count + Shown(t) >= ADDRESSES_IN_LINE {
        LinesAreFull(runs[1..], 0);
        assert all[1..] == [LineEnd] + Lines(runs[1..], 0);
        assert all[1..][1..] == Lines(runs[1..], 0);
      } else {
        LinesAreFull(runs[1..], count + Shown(t));
        assert all[1..] == Lines(runs[1..], count + Shown(t));
      }
    }
  }

  /** The run that a token shows. */
  function RunOf(t: Token): seq<Run> {
    match t
    case Range(lo, hi) => [Run(lo, hi)]
    case Single(a) => [Run(a, a)]
    case _ => []
  }

  /** The runs of a report, read off its tokens. */
  function RunsIn(ts: seq<Token>): seq<Run> {
    if ts == [] then [] else RunOf(ts[0]) + RunsIn(ts[1..])
  }

  lemma {:induction false} RunsInLines(runs: seq<Run>, count: nat)
    ensures RunsIn(Lines(runs, count)) == runs
    decreases |runs|
  {
    if runs != [] {
      var t, all := TokenOf(runs[0]), Lines(runs, count);
      if count + Shown(t) >= ADDRESSES_IN_LINE {
        RunsInLines(runs[1..], 0);
        assert all[1..] == [LineEnd] + Lines(runs[1..], 0);
        assert all[1..][1..] == Lines(runs[1..], 0);
      } else {
        RunsInLines(runs[1..], count + Shown(t));
        assert all[1..] == Lines(runs[1..], count + Shown(t));
      }
    }
  }

  lemma {:induction false} RunsInAppend(a: seq<Token>, b: seq<Token>)
    ensures RunsIn(a + b) == RunsIn(a) + RunsIn(b)
  {
    hide RunOf;
    if a == [] {
      assert a + b == b;
    } else {
      RunsInAppend(a[1..], b);
      assert (a + b)[1..] == a[1..] + b && (a + b)[0] == a[0];
    }
  }

  /** The report is empty when nothing failed; otherwise its runs are apart and cover exactly the failing addresses. */
  lemma {:induction false} ReportIsExact(pos: nat, status: seq<Byte>)
    ensures var out := Report(pos, status);
      && (out == [] <==> forall k :: 0 <= k < |status| ==> status[k] != 0xFF)
      && Apart(RunsIn(out))
      && (forall a: nat :: Covers(RunsIn(out), a) <==> pos <= a < pos + |status| && status[a - pos] == 0xFF)
  {
    var runs := Runs(pos, status, 0);
    NoRuns(pos, status, 0);
    RunsAreFailures(pos, status, 0);
    RunsInLines(runs, 0);
    if runs != [] {
      RunsInAppend([Heading] + Lines(runs, 0), [LineEnd]);
      RunsInAppend([Heading], Lines(runs, 0));
      assert [LineEnd][1..] == [] && [Heading][1..] == [];
    }
    assert RunsIn(Report(pos, status)) == runs;
  }

  /** Two addresses are shown for a run of several, one for a single failure. */
  ghost predicate Terse(ts: seq<Token>) {
    forall k :: 0 <= k < |ts| && ts[k].Range? ==> ts[k].lo < ts[k].hi
  }

  lemma {:induction false} LinesAreTerse(runs: seq<Run>, count: nat)
    requires forall k :: 0 <= k < |runs| ==> runs[k].lo <= runs[k].hi
    ensures Terse(Lines(runs, count)) && Heading !in Lines(runs, count)
    decreases |runs|
  {
    if runs != [] {
      var t := TokenOf(runs[0]);
      if count + Shown(t) >= ADDRESSES_IN_LINE {
        LinesAreTerse(runs[1..], 0);
      } else {
        LinesAreTerse(runs[1..], count + Shown(t));
      }
    }
  }

  /** A report is a heading, lines that are full but for the last, and an empty line. */
  lemma ReportShape(pos: nat, status: seq<Byte>)
    ensures var out := Report(pos, status);
      out != [] ==>
        && |out| >= 2 && out[0] == Heading && out[|out| - 1] == LineEnd
        && var body := out[1..|out| - 1];
        Heading !in body && FullLines(body, 0) && Terse(body)
  {
    var runs := Runs(pos, status, 0);
    RunsAreFailures(pos, status, 0);
    LinesAreFull(runs, 0);
    LinesAreTerse(runs, 0);
    var out := Report(pos, status);
    hide Runs, Lines, FullLines, Terse;
    if runs != [] {
      assert out[1..|out| - 1] == Lines(runs, 0);
    }
  }
}
