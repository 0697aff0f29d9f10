/**
 * The launcher's "Building Wraps" task: its state starts empty, learns the
 * total from the dependency count, and then follows the build's output line
 * by line, sending a status whenever the count changes.
 *
 * Spawning cargo and reading its pipes are left out: the dependency count,
 * the spawn outcome and the lines read are parameters. The two pipes are read
 * by two tasks under one lock, so what the state sees is one sequence of
 * lines in some interleaving; any such sequence is covered.
 */
module BuildWrapsTask {
  import opened Wrappers
  import Text
  import BuildLog

  const PACKAGES: seq<string> := ["homescreen_default", "mimetype_markdown", "test_wrap"]
  const TITLE: string := "Building Wraps"

  /** A status update; the floating-point ratios are not modelled. */
  datatype Status = Status(handle: nat, title: string, status: Option<string>, error: Option<string>)

  class Inner {
    const handle: nat
    var error: Option<string>
    var log: string
    var max: nat
    var completed: nat
    var isCompiling: bool

    function Progress(): BuildLog.Progress
      reads this
    {
      BuildLog.Progress(completed, isCompiling)
    }

    /** `start_task`: the state before anything is known. */
    constructor StartTask(handle: nat)
      ensures this.handle == handle && error == None && log == ""
      ensures max == 0 && completed == 0 && !isCompiling
    {
      this.handle := handle;
      error := None;
      log := "";
      max := 0;
      completed := 0;
      isCompiling := false;
    }

    /** `get_status`. */
    function GetStatus(): (s: Status)
      reads this
      ensures s.handle == handle && s.title == TITLE && s.error == error
      ensures s.status.Some? && s.status.value == BuildLog.StatusText(completed, max)
    {
      Status(handle, TITLE, Some(BuildLog.StatusText(completed, max)), error)
    }

    /** `initiate` up to the point where the pipes are handed over: the total
        becomes the dependency count and a first status goes out; a failed
        count or spawn is recorded as its error. */
    method Initiate(count: Result<nat, string>, spawn: Result<(), string>) returns (first: Option<Status>)
      modifies this
      ensures log == old(log) && completed == old(completed) && isCompiling == old(isCompiling)
      ensures count.Err? ==> first == None && max == old(max) && error == Some(count.error)
      ensures count.Ok? ==> max == count.value
      ensures count.Ok? ==> first == Some(Status(handle, TITLE, Some(BuildLog.StatusText(completed, max)), old(error)))
      ensures count.Ok? ==> error == if spawn.Err? then Some(spawn.error) else old(error)
    {
      if count.Err? {
        error := Some(count.error);
        return None;
      }
      max := count.value;
      first := Some(GetStatus());
      if spawn.Err? {
        error := Some(spawn.error);
      }
    }

    /** The body of the `handle_stream` loop for one line. */
    method HandleLine(line: string) returns (update: Option<Status>)
      modifies this
      ensures var (next, sent) := BuildLog.Step(old(Progress()), max, Text.Trim(line));
        && Progress() == next
        && (update.Some? <==> sent)
        && (sent ==> update.value == GetStatus())
      ensures update.Some? ==> update.value.handle == handle && update.value.title == TITLE
      ensures log == old(log) + BuildLog.LogLine(line)
      ensures max == old(max) && error == old(error)
    {
      var trimmed := Text.Trim(line);
      log := log + trimmed + "\n";
      update := None;
      if completed < max {
        var changed := false;
        if isCompiling {
          completed := completed + 1;
          isCompiling := false;
          changed := true;
        }
        if Text.StartsWith(trimmed, BuildLog.COMPILING) {
          isCompiling := true;
        } else if Text.StartsWith(trimmed, BuildLog.FRESH) {
          completed := completed + 1;
          changed := true;
        }
        if Text.StartsWith(trimmed, BuildLog.FINISHED) {
          completed := max;
          changed := true;
        }
        if changed {
          update := Some(GetStatus());
        }
      }
    }

    /** `handle_stream`: every line in turn. */
    method HandleStream(lines: seq<string>) returns (updates: seq<Status>)
      modifies this
      ensures Progress() == BuildLog.Run(old(Progress()), max, lines)
      ensures |updates| == BuildLog.Updates(old(Progress()), max, lines)
      ensures forall k :: 0 <= k < |updates| ==> updates[k].handle == handle && updates[k].title == TITLE
      ensures log == old(log) + BuildLog.Log(lines)
      ensures max == old(max) && error == old(error)
    {
      updates := [];
      var i := 0;
      assert old(log) + BuildLog.Log(lines[..0]) == old(log);
      while i < |lines|
        invariant 0 <= i <= |lines|
        invariant max == old(max) && error == old(error)
        invariant Progress() == BuildLog.Run(old(Progress()), max, lines[..i])
        invariant |updates| == BuildLog.Updates(old(Progress()), max, lines[..i])
        invariant forall k :: 0 <= k < |updates| ==> updates[k].handle == handle && updates[k].title == TITLE
        invariant log == old(log) + BuildLog.Log(lines[..i])
      {
        BuildLog.PrefixStep(old(Progress()), max, lines, i);
        ghost var logBefore := BuildLog.Log(lines[..i]);
        var update := HandleLine(lines[i]);
        Text.ConcatAssoc(old(log), logBefore, BuildLog.LogLine(lines[i]));
        if update.Some? {
          updates := updates + [update.value];
        }
        i := i + 1;
      }
      assert lines[..i] == lines;
    }
  }

  /** From the start state, whatever the output, the count stays within one
      above the total. */
  lemma CountWithinOneAboveTotal(max: nat, lines: seq<string>)
    ensures BuildLog.Run(BuildLog.Progress(0, false), max, lines).completed <= max + 1
  {
    BuildLog.RunBounds(BuildLog.Progress(0, false), max, lines);
  }
}
