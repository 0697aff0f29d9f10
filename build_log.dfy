/**
 * The progress rule both build monitors apply to each line of `cargo build
 * --verbose` output: a pending `Compiling` line counts as one finished crate
 * when the next line arrives, a `Fresh` line counts as one, a `Finished` line
 * jumps to the total, and nothing is counted once the total is reached. The
 * launcher task and the loader's wrap monitor hold the same rule in two
 * copies; it is stated once here and both classes are proved against it.
 */
module BuildLog {
  import Text

  const COMPILING: string := "Compiling"
  const FRESH: string := "Fresh"
  const FINISHED: string := "Finished"

  datatype Progress = Progress(completed: nat, isCompiling: bool)

  /** One trimmed line: the new progress and whether an update is sent. */
  function Step(p: Progress, max: nat, line: string): (Progress, bool)
  {
    if p.completed >= max then (p, false)
    else
      var pending := if p.isCompiling then Progress(p.completed + 1, false) else p;
      var afterKind :=
        if Text.StartsWith(line, COMPILING) then (Progress(pending.completed, true), p.isCompiling)
        else if Text.StartsWith(line, FRESH) then (Progress(pending.completed + 1, false), true)
        else (pending, p.isCompiling);
      if Text.StartsWith(line, FINISHED) then (Progress(max, afterKind.0.isCompiling), true)
      else afterKind
  }

  /** Once the total is reached a line changes nothing and sends nothing. */
  lemma StepGate(p: Progress, max: nat, line: string)
    requires p.completed >= max
    ensures Step(p, max, line) == (p, false)
  {
  }

  /** Below the total: an update is sent exactly when a pending compile is
      counted, a `Fresh` line is counted or a `Finished` line arrives; a lone
      `Compiling` line with nothing pending sends none. */
  lemma StepSendsIff(p: Progress, max: nat, line: string)
    requires p.completed < max
    ensures Step(p, max, line).1 <==>
      p.isCompiling
      || (!Text.StartsWith(line, COMPILING) && Text.StartsWith(line, FRESH))
      || Text.StartsWith(line, FINISHED)
  {
  }

  /** A pending compile becomes exactly one completion and is cleared by a
      line with none of the three prefixes. */
  lemma StepPendingCounted(p: Progress, max: nat, line: string)
    requires p.completed < max && p.isCompiling
    requires !Text.StartsWith(line, COMPILING) && !Text.StartsWith(line, FRESH) && !Text.StartsWith(line, FINISHED)
    ensures Step(p, max, line) == (Progress(p.completed + 1, false), true)
  {
  }

  /** Below the total: `Compiling` sets the flag, `Fresh` (without
      `Compiling`) adds one after the pending one, `Finished` sets the total. */
  lemma StepPrefixes(p: Progress, max: nat, line: string)
    requires p.completed < max
    ensures var pendingDone := if p.isCompiling then 1 else 0;
      && (Text.StartsWith(line, COMPILING) ==> Step(p, max, line).0 == Progress(p.completed + pendingDone, true))
      && (Text.StartsWith(line, FRESH) && !Text.StartsWith(line, COMPILING) && !Text.StartsWith(line, FINISHED) ==>
            Step(p, max, line).0 == Progress(p.completed + pendingDone + 1, false))
      && (Text.StartsWith(line, FINISHED) ==> Step(p, max, line).0.completed == max)
  {
    if Text.StartsWith(line, COMPILING) {
      assert line[0] == 'C';
      assert !Text.StartsWith(line, FINISHED);
    }
  }

  /** The count never goes down, and from at most `max + 1` it stays at most
      `max + 1`. */
  lemma StepBounds(p: Progress, max: nat, line: string)
    ensures Step(p, max, line).0.completed >= p.completed
    ensures p.completed <= max + 1 ==> Step(p, max, line).0.completed <= max + 1
  {
  }

  /** The count is not capped at the total: a pending compile followed by a
      `Fresh` line one below the total overshoots it. */
  lemma CountCanOvershoot()
    ensures Step(Progress(0, true), 1, "Fresh").0 == Progress(2, false)
  {
    assert Text.StartsWith("Fresh", FRESH);
    assert !Text.StartsWith("Fresh", COMPILING);
    assert !Text.StartsWith("Fresh", FINISHED);
  }

  /** A stream of raw lines: each is trimmed, then stepped. */
  function Run(p: Progress, max: nat, lines: seq<string>): Progress
    decreases |lines|
  {
    if lines == [] then p else Run(Step(p, max, Text.Trim(lines[0])).0, max, lines[1..])
  }

  /** The number of updates a stream sends. */
  function Updates(p: Progress, max: nat, lines: seq<string>): nat
    decreases |lines|
  {
    if lines == [] then 0
    else
      var (q, sent) := Step(p, max, Text.Trim(lines[0]));
      (if sent then 1 else 0) + Updates(q, max, lines[1..])
  }

  /** What a stream appends to the log: every trimmed line and a newline. */
  function Log(lines: seq<string>): string
    decreases |lines|
  {
    if lines == [] then "" else LogLine(lines[0]) + Log(lines[1..])
  }

  function LogLine(line: string): string
  {
    Text.Trim(line) + "\n"
  }

  /** From a fresh start the count stays within `max + 1` and never falls. */
  lemma {:induction false} RunBounds(p: Progress, max: nat, lines: seq<string>)
    requires p.completed <= max + 1
    ensures p.completed <= Run(p, max, lines).completed <= max + 1
    decreases |lines|
  {
    if lines != [] {
      StepBounds(p, max, Text.Trim(lines[0]));
      RunBounds(Step(p, max, Text.Trim(lines[0])).0, max, lines[1..]);
    }
  }

  /** After the total is reached, further lines change nothing and send
      nothing. */
  lemma {:induction false} RunFrozen(p: Progress, max: nat, lines: seq<string>)
    requires p.completed >= max
    ensures Run(p, max, lines) == p && Updates(p, max, lines) == 0
    decreases |lines|
  {
    if lines != [] {
      RunFrozen(p, max, lines[1..]);
    }
  }

  /** A `Finished` line below the total ends the count at the total for good. */
  lemma FinishedEndsCount(p: Progress, max: nat, line: string, rest: seq<string>)
    requires p.completed < max && Text.StartsWith(Text.Trim(line), FINISHED)
    ensures Run(p, max, [line] + rest).completed == max
    ensures Updates(p, max, [line] + rest) == 1
  {
    var q := Step(p, max, Text.Trim(line)).0;
    assert ([line] + rest)[1..] == rest;
    RunFrozen(q, max, rest);
  }

  /** Appending a line steps the final progress once more. */
  lemma {:induction false} RunSnoc(p: Progress, max: nat, lines: seq<string>, line: string)
    ensures Run(p, max, lines + [line]) == Step(Run(p, max, lines), max, Text.Trim(line)).0
    decreases |lines|
  {
    if lines != [] {
      assert (lines + [line])[1..] == lines[1..] + [line];
      RunSnoc(Step(p, max, Text.Trim(lines[0])).0, max, lines[1..], line);
    } else {
      assert [] + [line] == [line];
    }
  }

  /** Appending a line sends one more update exactly when that step does. */
  lemma {:induction false} UpdatesSnoc(p: Progress, max: nat, lines: seq<string>, line: string)
    ensures Updates(p, max, lines + [line]) ==
      Updates(p, max, lines) + (if Step(Run(p, max, lines), max, Text.Trim(line)).1 then 1 else 0)
    decreases |lines|
  {
    if lines != [] {
      assert (lines + [line])[1..] == lines[1..] + [line];
      UpdatesSnoc(Step(p, max, Text.Trim(lines[0])).0, max, lines[1..], line);
    } else {
      assert [] + [line] == [line];
    }
  }

  lemma {:induction false} LogSnoc(lines: seq<string>, line: string)
    ensures Log(lines + [line]) == Log(lines) + LogLine(line)
    decreases |lines|
  {
    if lines != [] {
      var head := LogLine(lines[0]);
      var tail := LogLine(line);
      assert (lines + [line])[1..] == lines[1..] + [line];
      LogSnoc(lines[1..], line);
      calc {
        Log(lines + [line]);
        head + Log(lines[1..] + [line]);
        head + (Log(lines[1..]) + tail);
        (head + Log(lines[1..])) + tail;
      }
    } else {
      assert [] + [line] == [line];
    }
  }

  /** Reading one more line of a stream: one more step, one more update when
      that step sends one, one more log line. */
  lemma PrefixStep(p: Progress, max: nat, lines: seq<string>, i: nat)
    requires i < |lines|
    ensures var (next, sent) := Step(Run(p, max, lines[..i]), max, Text.Trim(lines[i]));
      && Run(p, max, lines[..i + 1]) == next
      && Updates(p, max, lines[..i + 1]) == Updates(p, max, lines[..i]) + (if sent then 1 else 0)
      && Log(lines[..i + 1]) == Log(lines[..i]) + LogLine(lines[i])
  {
    assert lines[..i + 1] == lines[..i] + [lines[i]];
    RunSnoc(p, max, lines[..i], lines[i]);
    UpdatesSnoc(p, max, lines[..i], lines[i]);
    LogSnoc(lines[..i], lines[i]);
  }

  /** The status line: "Completed {completed}/{max}". */
  function StatusText(completed: nat, max: nat): string
  {
    "Completed " + Text.NatToString(completed) + "/" + Text.NatToString(max)
  }

  /** The status line determines both numbers. */
  lemma StatusTextInjective(a: nat, b: nat, c: nat, d: nat)
    requires StatusText(a, b) == StatusText(c, d)
    ensures a == c && b == d
  {
    var sa, sb, sc, sd := Text.NatToString(a), Text.NatToString(b), Text.NatToString(c), Text.NatToString(d);
    var t := StatusText(a, b)[10..];
    assert t == sa + ['/'] + sb;
    assert t == sc + ['/'] + sd;
    assert '/' !in sa && '/' !in sc;
    Text.IndexOfSeparator(sa, '/', sb);
    Text.IndexOfSeparator(sc, '/', sd);
    assert sa == t[..|sa|] == sc;
    assert sb == t[|sa| + 1..] == sd;
    Text.NatToStringInjective(a, c);
    Text.NatToStringInjective(b, d);
  }
}
