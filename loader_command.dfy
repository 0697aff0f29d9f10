/**
 * The loader's `cargo` command builder and the dependency count it derives
 * from `cargo tree`: lines marked `(*)` (already listed) and empty lines are
 * dropped, the rest are trimmed and counted once each.
 *
 * Running the command and splitting its output into lines are left out: the
 * count is computed from the output's lines. The working directory the
 * builder sets is not modelled.
 */
module LoaderCommand {
  import Text

  const PROGRAM: string := "cargo"
  const ALREADY_LISTED: string := "(*)"
  const PACKAGE_FLAG: string := "-p"

  /** The `-p <name>` pairs for a list of packages, in order. */
  function PackageArgs(names: seq<string>): seq<string>
  {
    if names == [] then [] else [PACKAGE_FLAG, names[0]] + PackageArgs(names[1..])
  }

  /** Each package contributes its flag then its name, in input order. */
  lemma {:induction false} PackageArgsLayout(names: seq<string>)
    ensures |PackageArgs(names)| == 2 * |names|
    ensures forall k :: 0 <= k < |names| ==>
      PackageArgs(names)[2 * k] == PACKAGE_FLAG && PackageArgs(names)[2 * k + 1] == names[k]
  {
    if names != [] {
      PackageArgsLayout(names[1..]);
      var rest := PackageArgs(names[1..]);
      forall k | 1 <= k < |names|
        ensures PackageArgs(names)[2 * k] == PACKAGE_FLAG && PackageArgs(names)[2 * k + 1] == names[k]
      {
        assert PackageArgs(names)[2 * k] == rest[2 * (k - 1)];
        assert PackageArgs(names)[2 * k + 1] == rest[2 * (k - 1) + 1];
      }
    }
  }

  class CargoCommand {
    const program: string
    var args: seq<string>

    /** `new`: `cargo <kind>`. */
    constructor New(kind: string)
      ensures program == PROGRAM && args == [kind]
    {
      program := PROGRAM;
      args := [kind];
    }

    /** `args`: appends the arguments verbatim. */
    method Args(extra: seq<string>)
      modifies this
      ensures args == old(args) + extra
    {
      args := args + extra;
    }

    /** `packages`: appends `-p <name>` for every package. */
    method Packages(names: seq<string>)
      modifies this
      ensures args == old(args) + PackageArgs(names)
    {
      var i := 0;
      while i < |names|
        invariant 0 <= i <= |names|
        invariant args == old(args) + PackageArgs(names[..i])
      {
        PackageArgsSnoc(names[..i], names[i]);
        assert names[..i + 1] == names[..i] + [names[i]];
        args := args + [PACKAGE_FLAG, names[i]];
        i := i + 1;
      }
      assert names[..i] == names;
    }
  }

  lemma {:induction false} PackageArgsSnoc(names: seq<string>, name: string)
    ensures PackageArgs(names + [name]) == PackageArgs(names) + [PACKAGE_FLAG, name]
  {
    if names != [] {
      assert (names + [name])[1..] == names[1..] + [name];
      PackageArgsSnoc(names[1..], name);
    } else {
      assert [] + [name] == [name];
    }
  }

  /** The filter, which looks at the line before it is trimmed. */
  predicate Listed(line: string)
  {
    !Text.EndsWith(line, ALREADY_LISTED) && line != ""
  }

  /** The distinct trimmed lines that pass the filter. */
  function Dependencies(lines: seq<string>): set<string>
  {
    if lines == [] then {}
    else
      var last := lines[|lines| - 1];
      Dependencies(lines[..|lines| - 1]) + (if Listed(last) then {Text.Trim(last)} else {})
  }

  /** `package_dependency_count` on the lines of the output. */
  method PackageDependencyCount(lines: seq<string>) returns (count: nat)
    ensures count == |Dependencies(lines)|
  {
    var deps: set<string> := {};
    var i := 0;
    while i < |lines|
      invariant 0 <= i <= |lines|
      invariant deps == Dependencies(lines[..i])
    {
      assert lines[..i + 1][..i] == lines[..i];
      if Listed(lines[i]) {
        deps := deps + {Text.Trim(lines[i])};
      }
      i := i + 1;
    }
    assert lines[..i] == lines;
    count := |deps|;
  }

  /** A dependency is counted exactly when some line passing the filter
      trims to it. */
  lemma {:induction false} DependenciesMembers(lines: seq<string>, d: string)
    ensures d in Dependencies(lines) <==>
      exists k :: 0 <= k < |lines| && Listed(lines[k]) && Text.Trim(lines[k]) == d
  {
    if lines != [] {
      var init := lines[..|lines| - 1];
      DependenciesMembers(init, d);
      if d in Dependencies(init) {
        var k :| 0 <= k < |init| && Listed(init[k]) && Text.Trim(init[k]) == d;
        assert lines[k] == init[k];
      }
      if exists k :: 0 <= k < |lines| && Listed(lines[k]) && Text.Trim(lines[k]) == d {
        var k :| 0 <= k < |lines| && Listed(lines[k]) && Text.Trim(lines[k]) == d;
        if k < |init| {
          assert init[k] == lines[k];
        }
      }
    }
  }

  /** The count never exceeds the number of lines. */
  lemma {:induction false} CountAtMostLines(lines: seq<string>)
    ensures |Dependencies(lines)| <= |lines|
  {
    if lines != [] {
      CountAtMostLines(lines[..|lines| - 1]);
    }
  }

  /** Repeated listings of one dependency count once. */
  lemma RepeatedLineCountsOnce(line: string)
    requires Listed(line)
    ensures Dependencies([line, line]) == {Text.Trim(line)}
  {
    var none: seq<string> := [];
    assert [line][..0] == none;
    assert Dependencies([line]) == {Text.Trim(line)};
    assert [line, line][..1] == [line];
  }

  /** A line of spaces passes the filter and is counted as the empty name. */
  lemma BlankLineCountsAsEmpty()
    ensures Dependencies(["  "]) == {""}
  {
    var none: seq<string> := [];
    assert ["  "][..0] == none;
    assert Listed("  ");
    assert Text.TrimStart("  ") == "";
  }

  /** The `(*)` marker is only recognised at the very end of the untrimmed
      line: followed by a space, the line is counted, marker and all. */
  lemma MarkerBeforeTrailingSpace()
    ensures Dependencies(["serde (*) "]) == {"serde (*)"}
  {
    var line := "serde (*) ";
    var none: seq<string> := [];
    assert [line][..0] == none;
    assert line[|line| - 3..] == "*) ";
    assert Listed(line);
    assert Text.TrimStart(line) == line;
    assert Text.TrimEnd(line) == line[..|line| - 1];
    assert line[..|line| - 1] == "serde (*)";
  }
}
