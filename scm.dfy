/** The parts of `setuptools_github.scm` that read git's line-oriented
    output, given here as text, and `lookup`, the walk up the parent
    directories to the nearest git work tree. */
module Scm {
  import opened Wrappers
  import opened PyText
  import opened Dicts
  import opened Tools

  // ---------------------------------------------------------------------------
  // GitRepo.branches

  /** `GitRepoBranches(local, remote)`. */
  datatype GitBranches = GitBranches(local: seq<string>, remote: seq<string>)

  const HeadsPrefix := "refs/heads/"
  const RemotesPrefix := "refs/remotes/"

  /** One line of `git branch -a --format %(refname)`, read into the
      branches found so far. */
  function AddBranch(b: GitBranches, line: string): Result<GitBranches, ToolError> {
    if Strip(line) == "" then Ok(b)
    else if StartsWith(line, HeadsPrefix) then Ok(GitBranches(b.local + [line[|HeadsPrefix|..]], b.remote))
    else if StartsWith(line, RemotesPrefix) then Ok(GitBranches(b.local, b.remote + [line[|RemotesPrefix|..]]))
    else Err(RuntimeError("invalid branch " + line))
  }

  /** The branches read from `lines`, or the error for the first line that
      names no branch. */
  function ParseBranches(lines: seq<string>): Result<GitBranches, ToolError> {
    if lines == [] then Ok(GitBranches([], []))
    else
      match ParseBranches(lines[..|lines| - 1])
      case Err(e) => Err(e)
      case Ok(b) => AddBranch(b, lines[|lines| - 1])
  }

  /** `GitRepo.branches` for the output `output` of the git command. */
  method Branches(output: string) returns (r: Result<GitBranches, ToolError>)
    ensures r == ParseBranches(Split(output, '\n'))
  {
    var lines := Split(output, '\n');
    var local: seq<string> := [];
    var remote: seq<string> := [];
    var i := 0;
    while i < |lines|
      invariant 0 <= i <= |lines|
      invariant ParseBranches(lines[..i]) == Ok(GitBranches(local, remote))
    {
      var line := lines[i];
      assert lines[..i + 1][..i] == lines[..i];
      if Strip(line) == "" {
        i := i + 1;
        continue;
      }
      if StartsWith(line, HeadsPrefix) {
        local := local + [line[11..]];
      } else if StartsWith(line, RemotesPrefix) {
        remote := remote + [line[13..]];
      } else {
        r := Err(RuntimeError("invalid branch " + line));
        assert ParseBranches(lines[..i + 1]) == r;
        ParseBranchesErr(lines, i + 1);
        return;
      }
      i := i + 1;
    }
    assert lines[..i] == lines;
    r := Ok(GitBranches(local, remote));
  }

  /** An error stops the reading: the lines after it do not matter. */
  lemma {:induction false} ParseBranchesErr(lines: seq<string>, k: nat)
    requires k <= |lines| && ParseBranches(lines[..k]).Err?
    ensures ParseBranches(lines) == ParseBranches(lines[..k])
    decreases |lines| - k
  {
    if k < |lines| {
      assert lines[..k + 1][..k] == lines[..k];
      ParseBranchesErr(lines, k + 1);
    } else {
      assert lines[..k] == lines;
    }
  }

  /** The line names a branch, or is blank. */
  predicate BranchLine(line: string) {
    Strip(line) == "" || StartsWith(line, HeadsPrefix) || StartsWith(line, RemotesPrefix)
  }

  /** The reading succeeds exactly when every line names a branch or is
      blank, and otherwise fails on the first line that does not. */
  lemma {:induction false} ParseBranchesOk(lines: seq<string>)
    ensures ParseBranches(lines).Ok? <==> forall i :: 0 <= i < |lines| ==> BranchLine(lines[i])
    ensures ParseBranches(lines).Err? ==>
      exists k :: (0 <= k < |lines| && !BranchLine(lines[k])
        && (forall i :: 0 <= i < k ==> BranchLine(lines[i]))
        && ParseBranches(lines) == Err(RuntimeError("invalid branch " + lines[k])))
  {
    if lines != [] {
      var init := lines[..|lines| - 1];
      ParseBranchesOk(init);
      assert forall i :: 0 <= i < |init| ==> init[i] == lines[i];
    }
  }

  /** Reading the refnames of some local branches followed by some remote
      ones gives both lists back, in order. */
  lemma {:induction false} ParseBranchesOf(local: seq<string>, remote: seq<string>)
    ensures ParseBranches(Prefixed(HeadsPrefix, local) + Prefixed(RemotesPrefix, remote))
      == Ok(GitBranches(local, remote))
  {
    var lines := Prefixed(HeadsPrefix, local) + Prefixed(RemotesPrefix, remote);
    if remote != [] {
      var n := |remote| - 1;
      ParseBranchesOf(local, remote[..n]);
      assert lines[..|lines| - 1] == Prefixed(HeadsPrefix, local) + Prefixed(RemotesPrefix, remote[..n]);
      assert lines[|lines| - 1] == RemotesPrefix + remote[n];
      AddRemoteLine(GitBranches(local, remote[..n]), remote[n]);
      assert remote[..n] + [remote[n]] == remote;
    } else if local != [] {
      var n := |local| - 1;
      ParseBranchesOf(local[..n], []);
      assert lines == Prefixed(HeadsPrefix, local);
      assert lines[..|lines| - 1] == Prefixed(HeadsPrefix, local[..n]) + Prefixed(RemotesPrefix, []);
      assert lines[|lines| - 1] == HeadsPrefix + local[n];
      AddHeadLine(GitBranches(local[..n], []), local[n]);
      assert local[..n] + [local[n]] == local;
    } else {
      assert lines == [];
    }
  }

  /** The refname of a local branch adds its name to the local branches. */
  lemma AddHeadLine(b: GitBranches, name: string)
    ensures AddBranch(b, HeadsPrefix + name) == Ok(GitBranches(b.local + [name], b.remote))
  {
    var line := HeadsPrefix + name;
    assert line[..|HeadsPrefix|] == HeadsPrefix;
    assert line[0] == 'r';
    StripKeeps(line);
    assert line[|HeadsPrefix|..] == name;
  }

  /** The refname of a remote branch adds its name to the remote branches. */
  lemma AddRemoteLine(b: GitBranches, name: string)
    ensures AddBranch(b, RemotesPrefix + name) == Ok(GitBranches(b.local, b.remote + [name]))
  {
    var line := RemotesPrefix + name;
    assert line[..|RemotesPrefix|] == RemotesPrefix;
    assert line[5] == 'r' != HeadsPrefix[5];
    assert line[0] == 'r';
    StripKeeps(line);
    assert line[|RemotesPrefix|..] == name;
  }

  /** A line that starts with a character other than whitespace is not blank. */
  lemma StripKeeps(line: string)
    requires line != [] && !IsSpace(line[0])
    ensures Strip(line) != ""
  {
    StripEmptyIffBlank(line);
    assert !IsBlank(line);
  }

  /** The output git prints for those branches, one refname a line and each
      line ended by a newline, is read back as them; so is the same output
      without the final newline. */
  lemma BranchesRoundTrip(local: seq<string>, remote: seq<string>)
    requires forall i :: 0 <= i < |local| ==> '\n' !in local[i]
    requires forall i :: 0 <= i < |remote| ==> '\n' !in remote[i]
    ensures var lines := Prefixed(HeadsPrefix, local) + Prefixed(RemotesPrefix, remote);
      ParseBranches(Split(Join(lines, '\n') + "\n", '\n')) == Ok(GitBranches(local, remote))
    ensures var lines := Prefixed(HeadsPrefix, local) + Prefixed(RemotesPrefix, remote);
      ParseBranches(Split(Join(lines, '\n'), '\n')) == Ok(GitBranches(local, remote))
  {
    var lines := Prefixed(HeadsPrefix, local) + Prefixed(RemotesPrefix, remote);
    BranchesJoined(local, remote);
    var joined := Join(lines, '\n');
    assert joined + "\n" == joined + ['\n'] + "";
    SplitSnoc(joined, "", '\n');
    var parts := Split(joined, '\n') + [""];
    assert parts[..|parts| - 1] == Split(joined, '\n');
    StripEmptyIffBlank("");
  }

  /** The output without its final newline is read back as the branches. */
  lemma BranchesJoined(local: seq<string>, remote: seq<string>)
    requires forall i :: 0 <= i < |local| ==> '\n' !in local[i]
    requires forall i :: 0 <= i < |remote| ==> '\n' !in remote[i]
    ensures var lines := Prefixed(HeadsPrefix, local) + Prefixed(RemotesPrefix, remote);
      ParseBranches(Split(Join(lines, '\n'), '\n')) == Ok(GitBranches(local, remote))
  {
    var lines := Prefixed(HeadsPrefix, local) + Prefixed(RemotesPrefix, remote);
    ParseBranchesOf(local, remote);
    if lines == [] {
      assert Split(Join(lines, '\n'), '\n') == [""];
      assert [""][..0] == [];
      StripEmptyIffBlank("");
    } else {
      forall i | 0 <= i < |lines|
        ensures '\n' !in lines[i]
      {
        if i < |local| {
          assert lines[i] == HeadsPrefix + local[i];
        } else {
          assert lines[i] == RemotesPrefix + remote[i - |local|];
        }
      }
      SplitJoin(lines, '\n');
    }
  }

  // ---------------------------------------------------------------------------
  // GitRepo.references

  /** `[f"refs/tags/{line.strip()}" for line in lines if line.strip()]`. */
  function TagLines(lines: seq<string>): seq<string> {
    if lines == [] then []
    else
      var rest := TagLines(lines[1..]);
      var tag := Strip(lines[0]);
      if tag == "" then rest else ["refs/tags/" + tag] + rest
  }

  /** `GitRepo.references` for the output `output` of `git tag -l`. */
  function References(output: string): seq<string> {
    TagLines(Split(output, '\n'))
  }

  /** The number of lines that are not blank. */
  function NonBlank(lines: seq<string>): nat {
    if lines == [] then 0 else (if Strip(lines[0]) == "" then 0 else 1) + NonBlank(lines[1..])
  }

  /** One reference for each line that is not blank. */
  lemma {:induction false} TagLinesCount(lines: seq<string>)
    ensures |TagLines(lines)| == NonBlank(lines)
  {
    if lines != [] {
      TagLinesCount(lines[1..]);
    }
  }

  /** The tag names as git lists them, one a line, come back as their refs, in order. */
  lemma {:induction false} TagLinesOf(tags: seq<string>)
    requires forall i :: 0 <= i < |tags| ==> tags[i] != "" && Strip(tags[i]) == tags[i]
    ensures TagLines(tags) == Prefixed("refs/tags/", tags)
  {
    if tags != [] {
      TagLinesOf(tags[1..]);
      assert Prefixed("refs/tags/", tags) == ["refs/tags/" + tags[0]] + Prefixed("refs/tags/", tags[1..]);
    }
  }

  /** A blank last line adds no reference. */
  lemma {:induction false} TagLinesBlank(lines: seq<string>)
    ensures TagLines(lines + [""]) == TagLines(lines)
  {
    if lines == [] {
      StripEmptyIffBlank("");
      assert TagLines([""]) == [] + TagLines([]);
    } else {
      assert (lines + [""])[1..] == lines[1..] + [""];
      TagLinesBlank(lines[1..]);
    }
  }

  /** The output of `git tag -l` for some tags, each line ended by a
      newline, reads back as their refs, in order; so does the same output
      without the final newline. */
  lemma ReferencesRoundTrip(tags: seq<string>)
    requires forall i :: 0 <= i < |tags| ==> tags[i] != "" && Strip(tags[i]) == tags[i] && '\n' !in tags[i]
    ensures References(Join(tags, '\n') + "\n") == Prefixed("refs/tags/", tags)
    ensures References(Join(tags, '\n')) == Prefixed("refs/tags/", tags)
  {
    ReferencesJoined(tags);
    var joined := Join(tags, '\n');
    assert joined + "\n" == joined + ['\n'] + "";
    SplitSnoc(joined, "", '\n');
    TagLinesBlank(Split(joined, '\n'));
  }

  /** The output without its final newline reads back as the refs. */
  lemma ReferencesJoined(tags: seq<string>)
    requires forall i :: 0 <= i < |tags| ==> tags[i] != "" && Strip(tags[i]) == tags[i] && '\n' !in tags[i]
    ensures References(Join(tags, '\n')) == Prefixed("refs/tags/", tags)
  {
    if tags == [] {
      assert Split(Join(tags, '\n'), '\n') == [""];
      StripEmptyIffBlank("");
      assert TagLines([""]) == [] + TagLines([]);
    } else {
      SplitJoin(tags, '\n');
      TagLinesOf(tags);
    }
  }

  // ---------------------------------------------------------------------------
  // GitRepo.status

  /** `mapper[tag]`: the flag for a porcelain status code; `"??"` has none
      unless untracked files are listed in full. */
  function StatusFlag(tag: string, untracked: string): Result<Option<int>, ToolError> {
    if tag == "??" then Ok(if untracked == "all" then Some(128) else None)
    else if tag == " D" then Ok(Some(512))
    else if tag == " M" then Ok(Some(256))
    else Err(KeyError(tag))
  }

  /** `line[:2]`. */
  function Code(line: string): string {
    if |line| < 2 then line else line[..2]
  }

  /** `line[3:]`. */
  function FileName(line: string): string {
    if |line| < 3 then "" else line[3..]
  }

  /** One line of `git status --porcelain`, read into the result so far. */
  function AddStatus(m: map<string, int>, line: string, untracked: string): Result<map<string, int>, ToolError> {
    if Strip(line) == "" then Ok(m)
    else
      match StatusFlag(Code(line), untracked)
      case Err(e) => Err(e)
      case Ok(None) => Ok(m)
      case Ok(Some(v)) => Ok(m[FileName(line) := v])
  }

  function ParseStatus(lines: seq<string>, untracked: string): Result<map<string, int>, ToolError> {
    if lines == [] then Ok(map[])
    else
      match ParseStatus(lines[..|lines| - 1], untracked)
      case Err(e) => Err(e)
      case Ok(m) => AddStatus(m, lines[|lines| - 1], untracked)
  }

  /** `GitRepo.status(untracked_files)` for the output `output` of `git status --porcelain`. */
  method Status(output: string, untracked: string) returns (r: Result<map<string, int>, ToolError>)
    ensures r == ParseStatus(Split(output, '\n'), untracked)
  {
    var lines := Split(output, '\n');
    var result: map<string, int> := map[];
    var i := 0;
    while i < |lines|
      invariant 0 <= i <= |lines|
      invariant ParseStatus(lines[..i], untracked) == Ok(result)
    {
      var line := lines[i];
      assert lines[..i + 1][..i] == lines[..i];
      if Strip(line) == "" {
        i := i + 1;
        continue;
      }
      var tag, filename := Code(line), FileName(line);
      var value := StatusFlag(tag, untracked);
      if value.Err? {
        r := Err(value.error);
        assert ParseStatus(lines[..i + 1], untracked) == r;
        ParseStatusErr(lines, untracked, i + 1);
        return;
      }
      if value.value.Some? {
        result := result[filename := value.value.value];
      }
      i := i + 1;
    }
    assert lines[..i] == lines;
    r := Ok(result);
  }

  lemma {:induction false} ParseStatusErr(lines: seq<string>, untracked: string, k: nat)
    requires k <= |lines| && ParseStatus(lines[..k], untracked).Err?
    ensures ParseStatus(lines, untracked) == ParseStatus(lines[..k], untracked)
    decreases |lines| - k
  {
    if k < |lines| {
      assert lines[..k + 1][..k] == lines[..k];
      ParseStatusErr(lines, untracked, k + 1);
    } else {
      assert lines[..k] == lines;
    }
  }

  /** What each line contributes: its file name and flag, or nothing for a
      blank line and an untracked file not asked for. */
  function StatusEntries(lines: seq<string>, untracked: string): (r: seq<Option<(string, int)>>)
    ensures |r| == |lines|
  {
    seq(|lines|, i requires 0 <= i < |lines| =>
      var f := StatusFlag(Code(lines[i]), untracked);
      if Strip(lines[i]) == "" || f.Err? || f.value.None? then None else Some((FileName(lines[i]), f.value.value)))
  }

  /** The line is blank or has one of the three known codes. */
  predicate StatusLine(line: string, untracked: string) {
    Strip(line) == "" || StatusFlag(Code(line), untracked).Ok?
  }

  /** The reading succeeds exactly when every line is blank or has a known
      code; the result is then the dictionary of the lines' entries, a
      later line for the same file replacing an earlier one. */
  lemma {:induction false} ParseStatusOk(lines: seq<string>, untracked: string)
    ensures ParseStatus(lines, untracked).Ok? <==> forall i :: 0 <= i < |lines| ==> StatusLine(lines[i], untracked)
    ensures ParseStatus(lines, untracked).Ok? ==> ParseStatus(lines, untracked).value == Build(StatusEntries(lines, untracked))
  {
    if lines != [] {
      var n := |lines| - 1;
      var init := lines[..n];
      ParseStatusOk(init, untracked);
      StatusLinesSnoc(lines, untracked);
      if ParseStatus(init, untracked).Ok? {
        ParseStatusSnoc(lines, untracked);
      }
    }
  }

  lemma StatusLinesSnoc(lines: seq<string>, untracked: string)
    requires lines != []
    ensures var n := |lines| - 1;
      (forall i :: 0 <= i < |lines| ==> StatusLine(lines[i], untracked))
        <==> (forall i :: 0 <= i < n ==> StatusLine(lines[..n][i], untracked)) && StatusLine(lines[n], untracked)
  {
    var n := |lines| - 1;
    assert forall i :: 0 <= i < n ==> lines[..n][i] == lines[i];
  }

  /** The step of the reading: a last line read after the others. */
  lemma ParseStatusSnoc(lines: seq<string>, untracked: string)
    requires lines != []
    requires var prev := ParseStatus(lines[..|lines| - 1], untracked);
      prev.Ok? && prev.value == Build(StatusEntries(lines[..|lines| - 1], untracked))
    ensures ParseStatus(lines, untracked).Ok? <==> StatusLine(lines[|lines| - 1], untracked)
    ensures ParseStatus(lines, untracked).Ok? ==> ParseStatus(lines, untracked).value == Build(StatusEntries(lines, untracked))
  {
    var n := |lines| - 1;
    StatusEntriesInit(lines, untracked);
    AddStatusEntry(ParseStatus(lines[..n], untracked), lines[n], untracked);
    assert StatusEntries([lines[n]], untracked)[0] == StatusEntries(lines, untracked)[n];
  }

  lemma StatusEntriesInit(lines: seq<string>, untracked: string)
    requires lines != []
    ensures StatusEntries(lines[..|lines| - 1], untracked) == StatusEntries(lines, untracked)[..|lines| - 1]
  {
  }

  /** What one line adds is the entry it contributes. */
  lemma AddStatusEntry(prev: Result<map<string, int>, ToolError>, line: string, untracked: string)
    ensures var e := StatusEntries([line], untracked)[0];
      prev.Ok? && AddStatus(prev.value, line, untracked).Ok? ==>
        AddStatus(prev.value, line, untracked).value == (if e.Some? then prev.value[e.value.0 := e.value.1] else prev.value)
  {
  }

  /** An unknown code in a line that is not blank is reported as the
      missing key, for the first such line. */
  lemma {:induction false} ParseStatusUnknown(lines: seq<string>, untracked: string, k: nat)
    requires k < |lines| && !StatusLine(lines[k], untracked)
    requires forall i :: 0 <= i < k ==> StatusLine(lines[i], untracked)
    ensures ParseStatus(lines, untracked) == Err(KeyError(Code(lines[k])))
  {
    ParseStatusPrefix(lines, untracked, k);
    assert lines[..k + 1][..k] == lines[..k];
    assert lines[..k + 1][k] == lines[k];
    ParseStatusErr(lines, untracked, k + 1);
  }

  /** The lines before the first bad one are read. */
  lemma ParseStatusPrefix(lines: seq<string>, untracked: string, k: nat)
    requires k <= |lines|
    requires forall i :: 0 <= i < k ==> StatusLine(lines[i], untracked)
    ensures ParseStatus(lines[..k], untracked).Ok?
  {
    ParseStatusOk(lines[..k], untracked);
    assert forall i :: 0 <= i < k ==> lines[..k][i] == lines[i];
  }

  /** Every flag is one of the three; 128 (untracked) only when untracked
      files are listed in full. */
  lemma StatusValues(lines: seq<string>, untracked: string, file: string)
    requires ParseStatus(lines, untracked).Ok? && file in ParseStatus(lines, untracked).value
    ensures var v := ParseStatus(lines, untracked).value[file];
      (v == 128 && untracked == "all") || v == 256 || v == 512
  {
    ParseStatusOk(lines, untracked);
    var es := StatusEntries(lines, untracked);
    BuildKeys(es, file);
    var i :| 0 <= i < |es| && Keyed(es, i, file);
    var j := LastKeyed(es, file, i);
    BuildLast(es, file, j);
    StatusEntryValue(lines, untracked, j);
  }

  lemma StatusEntryValue(lines: seq<string>, untracked: string, j: nat)
    requires j < |lines|
    ensures var e := StatusEntries(lines, untracked)[j];
      e.Some? ==> (e.value.1 == 128 && untracked == "all") || e.value.1 == 256 || e.value.1 == 512
  {
  }

  /** The last entry at or after `i` with key `key`. */
  function LastKeyed(es: seq<Option<(string, int)>>, key: string, i: nat): (j: nat)
    requires i < |es| && Keyed(es, i, key)
    ensures i <= j < |es| && Keyed(es, j, key)
    ensures forall k :: j < k < |es| ==> !Keyed(es, k, key)
    decreases |es| - i
  {
    if exists k :: i < k < |es| && Keyed(es, k, key) then
      var k :| i < k < |es| && Keyed(es, k, key);
      LastKeyed(es, key, k)
    else i
  }

  // ---------------------------------------------------------------------------
  // lookup

  /** A `pathlib.Path`: absolute or relative, and its non-empty components. */
  datatype Path = Path(absolute: bool, parts: seq<string>)

  predicate WellFormed(p: Path) {
    forall i :: 0 <= i < |p.parts| ==> p.parts[i] != "" && '/' !in p.parts[i]
  }

  /** `str(p)`: `"."` for the empty relative path. */
  function Str(p: Path): string {
    if p.absolute then "/" + Join(p.parts, '/')
    else if p.parts == [] then "."
    else Join(p.parts, '/')
  }

  /** `p.root`. */
  function Root(p: Path): string {
    if p.absolute then "/" else ""
  }

  /** `p.parent`: the empty path is its own parent. */
  function Parent(p: Path): (r: Path)
    ensures r.absolute == p.absolute
  {
    if p.parts == [] then p else Path(p.absolute, p.parts[..|p.parts| - 1])
  }

  /** `lookup(path)` as written, run for at most `fuel` rounds of its loop:
      `None` when the loop is still going, else what it returns (`Some(None)`
      for `None`). `gitDirs` are the directories that hold `.git`. */
  function LookupAsWritten(cur: Path, gitDirs: set<Path>, fuel: nat): Option<Option<Path>>
    decreases fuel
  {
    if fuel == 0 then None
    else if cur in gitDirs then Some(Some(cur))
    else if Str(cur) == Root(cur) then Some(None)
    else LookupAsWritten(Parent(cur), gitDirs, fuel - 1)
  }

  /** A relative path's text is never its (empty) root. */
  lemma RelativeStr(p: Path)
    requires WellFormed(p) && !p.absolute
    ensures Str(p) != Root(p)
  {
    if p.parts != [] {
      JoinStarts(p.parts, '/');
    }
  }

  /** A join of pieces starts with the first piece. */
  lemma JoinStarts(parts: seq<string>, sep: char)
    requires parts != []
    ensures |Join(parts, sep)| >= |parts[0]| && Join(parts, sep)[..|parts[0]|] == parts[0]
  {
    if |parts| > 1 {
      assert Join(parts, sep) == parts[0] + [sep] + Join(parts[1..], sep);
    }
  }

  /** On a relative path none of whose ancestors holds `.git` the loop
      never ends: the empty relative path is its own parent, and its text
      `"."` is not its root `""`. */
  lemma {:induction false} LookupRelativeDiverges(cur: Path, gitDirs: set<Path>, fuel: nat)
    requires WellFormed(cur) && !cur.absolute
    requires forall k :: 0 <= k <= |cur.parts| ==> Path(false, cur.parts[..k]) !in gitDirs
    ensures LookupAsWritten(cur, gitDirs, fuel) == None
    decreases fuel
  {
    if fuel > 0 {
      assert cur == Path(false, cur.parts[..|cur.parts|]);
      RelativeStr(cur);
      var p := Parent(cur);
      forall k | 0 <= k <= |p.parts|
        ensures Path(false, p.parts[..k]) !in gitDirs
      {
        assert p.parts[..k] == cur.parts[..k];
      }
      LookupRelativeDiverges(p, gitDirs, fuel - 1);
    }
  }

  /** The nearest of `p` and its ancestors that holds `.git`. */
  function Nearest(p: Path, gitDirs: set<Path>): (r: Option<Path>)
    ensures r.Some? ==>
      (r.value in gitDirs && r.value.absolute == p.absolute
        && |r.value.parts| <= |p.parts| && r.value.parts == p.parts[..|r.value.parts|])
    decreases |p.parts|
  {
    if p in gitDirs then Some(p)
    else if p.parts == [] then None
    else Nearest(Parent(p), gitDirs)
  }

  /** Nothing closer than the result holds `.git`: every ancestor between
      `p` and it, or every ancestor when nothing is found, does not. */
  lemma {:induction false} NearestIsNearest(p: Path, gitDirs: set<Path>, k: nat)
    requires k <= |p.parts| && Path(p.absolute, p.parts[..k]) in gitDirs
    ensures var r := Nearest(p, gitDirs); r.Some? && |r.value.parts| >= k
    decreases |p.parts|
  {
    if k == |p.parts| {
      assert Path(p.absolute, p.parts[..k]) == p;
    } else if p !in gitDirs {
      var q := Parent(p);
      assert q.parts[..k] == p.parts[..k];
      NearestIsNearest(q, gitDirs, k);
    }
  }

  /** An absolute path's text is its root exactly at the root. */
  lemma AbsoluteStr(p: Path)
    requires WellFormed(p) && p.absolute
    ensures Str(p) == Root(p) <==> p.parts == []
  {
    if p.parts != [] {
      JoinStarts(p.parts, '/');
      assert |Str(p)| > 1;
    }
  }

  /** For an absolute path the loop as written ends, within one round per
      component and one more, with the nearest work tree. */
  lemma {:induction false} LookupAbsolute(p: Path, gitDirs: set<Path>, fuel: nat)
    requires WellFormed(p) && p.absolute && fuel > |p.parts|
    ensures LookupAsWritten(p, gitDirs, fuel) == Some(Nearest(p, gitDirs))
    decreases |p.parts|
  {
    AbsoluteStr(p);
    if p !in gitDirs && p.parts != [] {
      var q := Parent(p);
      assert WellFormed(q) by {
        forall i | 0 <= i < |q.parts|
          ensures q.parts[i] != "" && '/' !in q.parts[i]
        {
          assert q.parts[i] == p.parts[i];
        }
      }
      LookupAbsolute(q, gitDirs, fuel - 1);
    }
  }

  /** `lookup(path)` with the loop ending at the top of the path whether it
      is absolute or relative: the nearest ancestor holding `.git`. */
  method Lookup(path: Path, gitDirs: set<Path>) returns (r: Option<Path>)
    ensures r == Nearest(path, gitDirs)
  {
    var cur := path;
    while true
      invariant Nearest(cur, gitDirs) == Nearest(path, gitDirs)
      decreases |cur.parts|
    {
      if cur in gitDirs {
        return Some(cur);
      }
      if Parent(cur) == cur {
        break;
      }
      cur := Parent(cur);
    }
    return None;
  }
}
