/**
 * The loader's wrap build monitor: created from the dependency count (or,
 * when creation fails, a default monitor carrying the error), it follows the
 * build's output line by line and notifies the front-end whenever the count
 * changes; its status text reports the count against the total.
 *
 * Spawning cargo, the reader threads and the channel are left out: the
 * outcome of creation and the lines read are parameters, and a notification
 * is counted. Both reader threads capture the total when they start, and it
 * never changes afterwards, so the field is used directly.
 */
module LoaderWrapProgress {
  import opened Wrappers
  import Text
  import BuildLog

  const PACKAGES: seq<string> := ["homescreen_default", "mimetype_markdown", "test_wrap"]
  const TITLE: string := "Building Wraps"

  /** A task status; the floating-point ratios are not modelled. */
  datatype TaskStatus = TaskStatus(title: string, status: Option<string>, error: Option<string>)

  class WrapLoader {
    const error: Option<string>
    const max: nat
    var log: string
    var completed: nat
    var isCompiling: bool

    function Progress(): BuildLog.Progress
      reads this
    {
      BuildLog.Progress(completed, isCompiling)
    }

    /** `new_boxed`: the monitor `new` built from the dependency count, or a
        default monitor (no total, nothing counted) holding the error. */
    constructor NewBoxed(created: Result<nat, string>)
      ensures created.Ok? ==> max == created.value && error == None
      ensures created.Err? ==> max == 0 && error == Some(created.error)
      ensures log == "" && completed == 0 && !isCompiling
    {
      if created.Ok? {
        max := created.value;
        error := None;
      } else {
        max := 0;
        error := Some(created.error);
      }
      log := "";
      completed := 0;
      isCompiling := false;
    }

    /** `get_status`. */
    function GetStatus(): (s: TaskStatus)
      reads this
      ensures s.title == TITLE && s.error == error
      ensures s.status == Some(BuildLog.StatusText(completed, max))
    {
      TaskStatus(TITLE, Some(BuildLog.StatusText(completed, max)), error)
    }

    /** The body of the reader loop for one line; `notified` is whether a
        notification is sent. */
    method ReadLine(line: string) returns (notified: bool)
      modifies this
      ensures (Progress(), notified) == BuildLog.Step(old(Progress()), max, Text.Trim(line))
      ensures log == old(log) + BuildLog.LogLine(line)
    {
      var trimmed := Text.Trim(line);
      log := log + trimmed + "\n";
      notified := false;
      if completed < max {
        var changed := false;
        if isCompiling {
          completed := completed + 1;
          isCompiling := false;
          changed := true;
        }
        if Text.StartsWith(trimmed, BuildLog.COMPILING) {
          isCompiling := true;
        } else if Text.StartsWith(trimmed, BuildLog.FRESH) {
          completed := completed + 1;
          changed := true;
        }
        if Text.StartsWith(trimmed, BuildLog.FINISHED) {
          completed := max;
          changed := true;
        }
        notified := changed;
      }
    }

    /** The reader thread's loop over every line. */
    method ReadLines(lines: seq<string>) returns (notifications: nat)
      modifies this
      ensures Progress() == BuildLog.Run(old(Progress()), max, lines)
      ensures notifications == BuildLog.Updates(old(Progress()), max, lines)
      ensures log == old(log) + BuildLog.Log(lines)
    {
      notifications := 0;
      var i := 0;
      assert old(log) + BuildLog.Log(lines[..0]) == old(log);
      while i < |lines|
        invariant 0 <= i <= |lines|
        invariant Progress() == BuildLog.Run(old(Progress()), max, lines[..i])
        invariant notifications == BuildLog.Updates(old(Progress()), max, lines[..i])
        invariant log == old(log) + BuildLog.Log(lines[..i])
      {
        BuildLog.PrefixStep(old(Progress()), max, lines, i);
        ghost var logBefore := BuildLog.Log(lines[..i]);
        var notified := ReadLine(lines[i]);
        Text.ConcatAssoc(old(log), logBefore, BuildLog.LogLine(lines[i]));
        if notified {
          notifications := notifications + 1;
        }
        i := i + 1;
      }
      assert lines[..i] == lines;
    }
  }

  /** A monitor whose creation failed never counts anything: its total is 0,
      so every line only extends the log. */
  lemma FailedMonitorIsInert(lines: seq<string>)
    ensures BuildLog.Run(BuildLog.Progress(0, false), 0, lines) == BuildLog.Progress(0, false)
    ensures BuildLog.Updates(BuildLog.Progress(0, false), 0, lines) == 0
  {
    BuildLog.RunFrozen(BuildLog.Progress(0, false), 0, lines);
  }
}
