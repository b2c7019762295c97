# setuptools-github release helpers, modelled in Dafny

`setuptools-github` keeps a Python package's version in step with a
beta→release branch convention. Work for version `X.Y.Z` happens on a
branch `beta/X.Y.Z`. A release is a tag `release/X.Y.Z`. A GitHub action
run builds a version from the ref it runs on. This project models the
logic behind that convention and proves properties of it:

- **Version arithmetic** (`Tools`): `bump_version` and `hubversion`,
  with its inner `validate`.
- **The older copy** (`LegacyTools`): `src/setuptools/github/tools.py`,
  with its `hubversion` and `initversion`.
- **The module-variable rewriters** (`Assign`, `Tools.SetModuleVar`,
  `LegacyTools.InitVersion`). Both scan a file's lines from the last one
  backwards and return the value of the last `name = "value"` assignment
  with a non-empty value. `initversion` rewrites that assignment alone and
  leaves every other line as it was. `set_module_var` also accepts an empty
  value, so it rewrites that assignment and every empty-valued one after
  it.
- **Branch and tag sorting** (`Tools.ExtractBetaBranches`,
  `StartRelease.ExtractBetaBranches`).
- **Reading git's output** (`Scm`): `GitRepo.branches`, `references`
  and `status`, plus `lookup`, the walk up to the nearest directory
  holding `.git`.
- **The release precondition checks** (`Checks`). Each rule that fails
  adds a `Failure`. A check reports every failure in test mode and only
  the first one otherwise.
- **Starting a beta branch** (`StartRelease.Repo.Beta`). It chooses the
  version, rewrites `__version__`, commits, creates the branch and checks
  it out, on a small repository object.

Python's own text and number behaviour that these rely on is modelled in
`PyText`: `split`/`join`, `strip`, `partition`/`rpartition`, `int()` and
`str()`. `Dicts` models a dictionary filled entry by entry. `Wrappers`
holds `Option` and `Result`. Git, the file system and the GitHub
environment are replaced by values:

- the text git prints;
- the contents of a file (`None` when it does not exist);
- a map from branch to commit;
- the set of directories that hold `.git`.

Where a Python function raises, the model returns an error value:
`Tools.ToolError`, `StartRelease.BetaError`.

## Model

| member | source | states |
|---|---|---|
| `Tools.ParseAllOk` | src/setuptools_github/tools.py:231 | `[int(n) for n in pieces]` succeeds exactly when every piece parses, and then component `i` is what piece `i` parses to |
| `Tools.ParseAllFirstError` | src/setuptools_github/tools.py:231 | a failure names the first piece `int()` rejects, after pieces that all parse |
| `Tools.RenderComponents` | src/setuptools_github/tools.py:231-241 | rendering components with `str()` and `"."` and reading them back gives the same components |
| `Tools.ValidateCanonical` | src/setuptools_github/tools.py:59-60 | `validate` leaves a rendered version unchanged |
| `Tools.ValidateIdempotent` | src/setuptools_github/tools.py:59-60 | validating a validated version changes nothing |
| `Tools.ValidateAccepts` | src/setuptools_github/tools.py:59-60 | `validate` succeeds exactly when every dot-separated piece is a number `int()` accepts |
| `Tools.Hubversion` | src/setuptools_github/tools.py:62-83 | a result passes the `sha` of the dump through unchanged; the `KeyError("ref")` comes exactly when `ref` is missing |
| `Tools.HubversionMissing` | src/setuptools_github/tools.py:62-64 | with `ref` present, a missing `run_number`, then a missing `sha`, is the `KeyError` raised |
| `Tools.HubversionFallback` | src/setuptools_github/tools.py:69-70 | on `refs/heads/master` the result is `(fallback, sha)`; on any other ref the fallback makes no difference |
| `Tools.HubversionUnhandled` | src/setuptools_github/tools.py:74-83 | `InvalidGithubReference` is raised exactly when the ref is neither master, nor under `refs/heads/beta/`, nor under `refs/tags/release/` |
| `Tools.RefKindsDiffer` | src/setuptools_github/tools.py:69-79 | the three kinds of ref exclude one another, so the order of the tests does not matter |
| `Tools.HubversionBeta` | src/setuptools_github/tools.py:74-76 | a beta branch named after a version builds that version followed by `b` and the run number, with the sha unchanged |
| `Tools.HubversionRelease` | src/setuptools_github/tools.py:79-81 | a release tag named after a version builds exactly that version, with the sha unchanged |
| `Tools.BumpVersion` | src/setuptools_github/tools.py:216-241 | the method's result is `BumpSpec`: parse the components, bump them as the mode says, render them back; a non-numeric piece is a `ValueError`, too few components an `IndexError` |
| `Tools.BumpInPlace` | src/setuptools_github/tools.py:232-240 | the in-place list updates give `Bumped`: `major` bumps the third component from the end and zeroes the last two, `minor` bumps the second from the end and zeroes the last, any other mode bumps the last |
| `Tools.BumpedForward` | src/setuptools_github/tools.py:232-240 | a bump keeps the number of components and moves the version strictly forward: the first component that changes grows |
| `Tools.BumpRendered` | src/setuptools_github/tools.py:226-241 | bumping a rendered version renders the bumped components, and the result reads back as them |
| `Tools.BumpSeparator` | src/setuptools_github/tools.py:231 | `bump_version("\x1c1.2.3", "micro")` and `bump_version("\x1c1\xa0.2.3", "micro")` raise the `ValueError` of their first piece |
| `Tools.SetModuleVar` | src/setuptools_github/tools.py:144-188 | the reverse line loop and the final append give `SetModuleVarSpec`: the scan's value and text, with `var = "value"` appended on a line of its own when no non-empty value was found and `create` is set |
| `Tools.Append` | src/setuptools_github/tools.py:181-184 | the appended text is the assignment, after a newline unless the text is empty or already ends in one |
| `Tools.SetModuleVarMissing` | src/setuptools_github/tools.py:163-168 | a missing file is an error without `create`; with it, it becomes a file holding just the assignment |
| `Tools.SetModuleVarReadOnly` | src/setuptools_github/tools.py:168-180 | without a value, a file that holds the variable (or one that may not be extended) comes back as it was |
| `Tools.MatchRewritten` | src/setuptools_github/tools.py:159-178 | after a quote-free value is written into the matched span, the line still matches, with the new value as its group |
| `Tools.AssignmentMatches` | src/setuptools_github/tools.py:159-184 | the appended line `var = "value"` matches the pattern with the value as its group |
| `Tools.SplitAppended` | src/setuptools_github/tools.py:180-184 | the appended assignment is the last line of the new text |
| `Tools.GetLast` | src/setuptools_github/tools.py:169-175 | when the last line matches with a non-empty value, reading finds that value |
| `Tools.GetRewritten` | src/setuptools_github/tools.py:169-180 | after a rewrite of a non-empty value, reading the lines again finds the value written |
| `Tools.SetThenGet` | src/setuptools_github/tools.py:144-188 | writing a non-empty value without quotes or newlines and then reading the variable finds that value, and the read leaves the text unchanged |
| `Tools.GetAppended` | src/setuptools_github/tools.py:181-184 | reading a text with the assignment appended finds its value |
| `Tools.GetJoined` | src/setuptools_github/tools.py:168-180 | joining the rewritten lines with `"\n"` and splitting them again still finds the value written |
| `Tools.ScanNoNewline` | src/setuptools_github/tools.py:168-180 | writing a newline-free value into newline-free lines leaves newline-free lines |
| `Tools.SearchBetaMeaning` | src/setuptools_github/tools.py:250 | `re.search(r"beta/\d+([.]\d+)*")` matches exactly when `beta/` followed by a digit occurs somewhere |
| `Tools.ExtractBetaBranches` | src/setuptools_github/tools.py:244-252 | a branch is in the result exactly when it is one of the inputs, its first `/` segment is the remote asked for (any when none or an empty one is), and it contains `beta/` and a digit |
| `LegacyTools.Hubversion` | src/setuptools/github/tools.py:5-26 | the sha is passed through; an unhandled ref is a `RuntimeError("unhandled github ref")` raised only after all three keys are read |
| `LegacyTools.HubversionLikeTools` | src/setuptools/github/tools.py:5-26 | the old copy agrees with `Tools.Hubversion` on every dump, except that an unhandled ref raises `RuntimeError` in place of `InvalidGithubReference` |
| `LegacyTools.InitVersion` | src/setuptools/github/tools.py:29-51 | the reverse line loop gives `InitVersionSpec`, the scan with the non-empty pattern; the text is written back only with `inplace` |
| `LegacyTools.SpansStop` | src/setuptools/github/tools.py:32-37 | with the `+` pattern every match has a non-empty value, so the scan stops at the first match it meets |
| `LegacyTools.InitVersionMissing` | src/setuptools/github/tools.py:35 | a file that does not exist is an error |
| `LegacyTools.InitVersionUntouched` | src/setuptools/github/tools.py:33-51 | when no line matches, the value is `None` and the text comes back as it was |
| `LegacyTools.InitVersionReadOnly` | src/setuptools/github/tools.py:35-47 | without a value the text comes back as it was: splitting on the separator and joining again is the identity |
| `LegacyTools.InitVersionLast` | src/setuptools/github/tools.py:36-47 | when line `m` is the last match, its value is returned and only that line is rewritten, in the value's span alone |
| `LegacyTools.OtherUnaffected` | src/setuptools/github/tools.py:32-45 | a line assigning one plain name matches no other plain name, before and after its value is rewritten |
| `LegacyTools.InitVersionOther` | src/setuptools/github/tools.py:36-47 | rewriting one variable leaves unchanged the value read for another: the rewritten text has as many lines, each matches the other name as before, and the lines that match it are untouched |
| `LegacyTools.InitVersionTwice` | tests/test_tools.py:81-93 | rewriting one variable and then another gives the second's old value and the text with the last assignment of each rewritten and every other line as it was |
| `Assign.Match` | src/setuptools_github/tools.py:159 | the value span the pattern finds lies inside the line, with at least the closing quote after it |
| `Assign.SkipSpaceFacts` | src/setuptools_github/tools.py:159 | `\s*` passes whitespace only and stops at the first other character |
| `Assign.SkipValueFacts` | src/setuptools_github/tools.py:159 | `[^"']*` passes non-quotes only and stops at the first quote |
| `Assign.MatchShape` | src/setuptools_github/tools.py:159 | a match has the shape the pattern describes: the name, blanks, `=`, blanks, a quote, the quote-free value, a quote |
| `Assign.MatchIntro` | src/setuptools_github/tools.py:159 | a line of that shape matches, with that span |
| `Assign.MatchMeaning` | src/setuptools_github/tools.py:159 | `Match` finds a span exactly when the line has the pattern's shape around it |
| `Assign.NonEmptyPattern` | src/setuptools/github/tools.py:32 | the `+` pattern matches what the `*` pattern matches, except an empty value |
| `Assign.MatchPrefix` | src/setuptools_github/tools.py:159 | a matching line starts with the name followed by a blank or `=` |
| `Assign.NoCrossMatch` | src/setuptools_github/tools.py:159 | such a line cannot match a different plain name |
| `Assign.RewriteKeepsPrefix` | src/setuptools_github/tools.py:177-178 | the rewritten line still starts with everything before the value |
| `Assign.ScanFixed` | src/setuptools_github/tools.py:169-175 | the scan reports nothing when no line matches, and a non-empty value exactly when some line matches with one, that of the last such line |
| `Assign.ScanLines` | src/setuptools_github/tools.py:169-179 | the scan keeps the line count and leaves each line as `After` says |
| `Assign.ScanMeaning` | src/setuptools_github/tools.py:169-180 | the scan rewrites the value span of exactly the matching lines that no later non-empty match hides, leaves every other line alone, and reports the value of the last matching line it examined |
| `Assign.ScanWithoutValue` | src/setuptools_github/tools.py:176 | without a value no line changes |
| `Assign.ScanNoMatch` | src/setuptools_github/tools.py:169-180 | when no line matches, nothing is found and nothing changes |
| `Assign.ScanLast` | src/setuptools_github/tools.py:169-175 | the last matching line is always examined, and a non-empty value on it is the one reported |
| `Assign.ScanLastLine` | src/setuptools_github/tools.py:169-175 | a last line matching with a non-empty value gives the value found |
| `Assign.ScanNonEmpty` | src/setuptools/github/tools.py:36-46 | when every match is non-empty, the value of the last matching line is reported and that line alone is rewritten |
| `Assign.ScanFixedSame` | src/setuptools_github/tools.py:169-175 | the value reported depends only on the spans and the lines that hold one |
| `Checks.Report` | src/setuptools_github/checks.py:42 | in test mode every failure is reported; otherwise at most one, the first, and none exactly when there are none |
| `Checks.CheckHasSingleRemote` | src/setuptools_github/checks.py:19-42 | in test mode both failures; otherwise "multiple remotes" exactly when there is more than one distinct remote and none is selected, then "requested remote" exactly when the selected one is not among them, else nothing |
| `Checks.CheckInitfile` | src/setuptools_github/checks.py:45-64 | in test mode both failures; otherwise "no file" for a missing file, "cannot find __version__" for a file without a truthy version, else nothing |
| `Checks.BetaVersionShape` | src/setuptools_github/checks.py:75-82 | a match of `/?beta/(?P<ver>\d+([.]\d+)*)$` is an optional slash, `beta/`, a dotted number and an optional final newline |
| `Checks.BetaVersionOf` | src/setuptools_github/checks.py:75-82 | every such name matches, and its `ver` group is the dotted number |
| `Checks.DottedNumberChars` | src/setuptools_github/checks.py:75 | a dotted number is non-empty and holds no `/` or newline |
| `Checks.BetaVersionNonEmpty` | src/setuptools_github/checks.py:81-94 | a matched version is never empty, so the test `thisver and ...` reduces to `thisver != curver` |
| `Checks.SearchesBetaMeaning` | src/setuptools_github/checks.py:118 | `regex_beta.search(b)` matches exactly when the pattern matches from some position on |
| `Checks.CollectRemoteTargets` | src/setuptools_github/checks.py:115-119 | the dictionary comprehension gives `Build` of the entries: each remote beta branch's last segment maps to its target, a later one replacing an earlier one |
| `Checks.TagRefsMembers` | src/setuptools_github/checks.py:103-104 | the tags are the references under `refs/tags/` |
| `Checks.ReleasedIffTagged` | src/setuptools_github/checks.py:103-106 | the release tag is among the tags exactly when it is among the references |
| `Checks.CheckForRelease` | src/setuptools_github/checks.py:67-137 | in test mode all four failures, in order; otherwise the first rule that fires: not on a beta branch, version mismatch, already released, out of sync with the remote branch; else nothing |
| `Checks.FirstOfFour` | src/setuptools_github/checks.py:84-137 | four rules appended in order and reported with the policy give the first that fires, or all four in test mode |
| `Checks.NoCounterpartInSync` | src/setuptools_github/checks.py:115-124 | without a remote beta branch for the version there is no out-of-sync failure |
| `Checks.DivergedAt` | src/setuptools_github/checks.py:115-124 | with remote beta branches for the version, the last one decides: out of sync exactly when its target differs from the head's |
| `Scm.Branches` | src/setuptools_github/scm.py:64-76 | the loop gives `ParseBranches` of the output's lines: blank lines skipped, `refs/heads/` lines to `local` without their first 11 characters, `refs/remotes/` lines to `remote` without 13, any other line a `RuntimeError` |
| `Scm.ParseBranchesErr` | src/setuptools_github/scm.py:74-75 | an error stops the reading: the lines after it make no difference |
| `Scm.ParseBranchesOk` | src/setuptools_github/scm.py:67-75 | the reading succeeds exactly when every line is blank or names a branch, and otherwise fails with `invalid branch` and the first line that does not |
| `Scm.ParseBranchesOf` | src/setuptools_github/scm.py:67-73 | the refnames of local branches then remote ones read back as the two lists, in order |
| `Scm.AddHeadLine` | src/setuptools_github/scm.py:70-71 | a `refs/heads/` line adds its branch name to `local` |
| `Scm.AddRemoteLine` | src/setuptools_github/scm.py:72-73 | a `refs/remotes/` line adds its branch name to `remote` |
| `Scm.BranchesRoundTrip` | src/setuptools_github/scm.py:65-76 | the output git prints for some branches, one refname a line with each line ended by a newline, is read back as those branches; so is the same output without the final newline |
| `Scm.TagLinesCount` | src/setuptools_github/scm.py:80-84 | one reference per non-blank line |
| `Scm.TagLinesOf` | src/setuptools_github/scm.py:80-84 | stripped, non-empty tag names come back as `refs/tags/` and the name, in order |
| `Scm.ReferencesRoundTrip` | src/setuptools_github/scm.py:78-84 | the output of `git tag -l` for some tags, each line ended by a newline, reads back as their refs, in order; so does the same output without the final newline |
| `Scm.Status` | src/setuptools_github/scm.py:92-108 | the loop gives `ParseStatus` of the output's lines: blank lines skipped, code `line[:2]`, file `line[3:]`, its flag stored when truthy |
| `Scm.ParseStatusErr` | src/setuptools_github/scm.py:105 | the `KeyError` of one line ends the reading |
| `Scm.ParseStatusOk` | src/setuptools_github/scm.py:95-108 | the reading succeeds exactly when every line is blank or has one of the three codes, and gives the dictionary of the lines' entries, a later line for a file replacing an earlier one |
| `Scm.ParseStatusUnknown` | src/setuptools_github/scm.py:104-105 | the first non-blank line with an unknown code makes the reading a `KeyError` of that code |
| `Scm.StatusValues` | src/setuptools_github/scm.py:95-107 | every stored flag is 256 or 512, or 128 only when untracked files are listed in full |
| `Scm.Parent` | src/setuptools_github/scm.py:119 | the parent of a path is absolute exactly when the path is |
| `Scm.LookupRelativeDiverges` | src/setuptools_github/scm.py:111-120 | the loop as written never ends on a relative path none of whose ancestors holds `.git` |
| `Scm.RelativeStr` | src/setuptools_github/scm.py:117 | a relative path's text is never its (empty) root |
| `Scm.AbsoluteStr` | src/setuptools_github/scm.py:117 | an absolute path's text is its root exactly at the root |
| `Scm.LookupAbsolute` | src/setuptools_github/scm.py:111-120 | on an absolute path the loop as written ends within one round per component, and one more, with the nearest ancestor holding `.git` |
| `Scm.Nearest` | src/setuptools_github/scm.py:111-120 | the result holds `.git` and is the path itself or one of its ancestors |
| `Scm.NearestIsNearest` | src/setuptools_github/scm.py:114-119 | no ancestor closer than the result holds `.git`, and when nothing is found none does |
| `Scm.Lookup` | src/setuptools_github/scm.py:111-120 | the corrected loop returns the nearest ancestor holding `.git`, for absolute and relative paths alike |
| `StartRelease.FilterMembers` | src/setuptools_github/start_release.py:161-163 | the local beta branches are exactly the local branches the beta pattern accepts |
| `StartRelease.FilterAppend` | src/setuptools_github/start_release.py:161-163 | the filter keeps the input order |
| `StartRelease.AddToKeys` | src/setuptools_github/start_release.py:168-170 | adding a name under a remote appends the remote to the keys when it is new, and the keys stay distinct |
| `StartRelease.AddToLists` | src/setuptools_github/start_release.py:168-170 | only the list of that remote grows, by the name at its end, or a new list holds just the name |
| `StartRelease.UnderNone` | src/setuptools_github/start_release.py:165-170 | a remote none of the names belongs to has no names |
| `StartRelease.RemoteGroupsMeaning` | src/setuptools_github/start_release.py:165-170 | the remotes come in order of first appearance among the remote beta branches, each once, and each holds the rest of its branches' names after the first `/`, in input order |
| `StartRelease.RemoteGroupsEmpty` | src/setuptools_github/start_release.py:243 | there is a remote group exactly when there is a remote beta branch |
| `StartRelease.ReleaseTagsMeaning` | src/setuptools_github/start_release.py:158-173 | putting `refs/tags/` back on the tags gives exactly the references under `refs/tags/release/`, in order, and every tag starts with `release/` |
| `StartRelease.ExtractBetaBranches` | src/setuptools_github/start_release.py:142-174 | the three loops give the local beta branches, the remote ones grouped by remote, and the release tags |
| `StartRelease.NewVersionChoice` | src/setuptools_github/start_release.py:237-244 | the new version is `bump_version(curver or "", mode)` when a local or remote beta branch exists and `curver` otherwise; release tags play no part, and a failed bump stops both |
| `StartRelease.Repo.CommitInitFile` | src/setuptools_github/start_release.py:270-278 | one commit of the init file is added on the current branch, whose parent is the commit the branch pointed at, and the branch moves to it |
| `StartRelease.Repo.CreateBranch` | src/setuptools_github/start_release.py:283-284 | a branch that does not exist is created at the current branch's commit; one that exists is refused |
| `StartRelease.Repo.Checkout` | src/setuptools_github/start_release.py:285-286 | the head becomes the branch, and nothing else changes |
| `StartRelease.Repo.Beta` | src/setuptools_github/start_release.py:235-286 | a failed bump changes nothing; with `dryrun` nothing changes and the branch is `beta/{newver}`; otherwise `__version__` becomes the new version in the init file and a commit `beta release {newver}` of it is added on the head branch; then `beta/{newver}` is created at that commit and checked out, or, when it already exists, the branch is refused with the commit left in place |
| `Dicts.BuildKeys` | src/setuptools_github/checks.py:115-119 | a key is in the dictionary exactly when some entry has it |
| `Dicts.BuildLast` | src/setuptools_github/checks.py:115-119 | a key maps to the value of the last entry that has it |
| `PyText.JoinSplit` | src/setuptools_github/tools.py:168-180 | joining the pieces of a split gives the text back |
| `PyText.SplitJoin` | src/setuptools_github/scm.py:67 | splitting a join of separator-free pieces gives the pieces back |
| `PyText.StripEmptyIffBlank` | src/setuptools_github/scm.py:68 | `line.strip()` is empty exactly when the line is whitespace only |
| `PyText.StripFacts` | src/setuptools_github/scm.py:81 | `strip()` keeps a slice whose ends are not whitespace and drops only whitespace around it |
| `PyText.PartitionHead` | src/setuptools_github/tools.py:247 | `partition("/")[0]` is the prefix before the first `/`, or all of the text |
| `PyText.RPartitionTail` | src/setuptools_github/tools.py:75 | `rpartition("/")[2]` is the suffix after the last `/`, or all of the text |
| `PyText.ParseIntRoundTrip` | src/setuptools_github/tools.py:60 | `int(str(n)) == n` |
| `PyText.ParseIntSeparators` | src/setuptools_github/tools.py:231 | `int()` reads a character below `\x80` as it is and skips of those only `" \t\n\v\f\r"`, so `"\x1c1"` and `"\x1c1\xa0"` are refused though `strip()` removes the `\x1c`; a non-ASCII space such as `\xa0` is skipped, so `"1\xa0"` is 1 |
| `PyText.Dedup` | src/setuptools_github/checks.py:26 | the set of remote names holds exactly the names listed |

## Left out

- `get_module_var` parses Python source with the `ast` module. The init file's version is an input instead: `Checks.InitFile`, and `curver` in `beta`.
- `indent`, `update_version`, `GitRepo.__call__`, `GitRepo.head` and `GitRepo.dumps` are not modelled. They are message formatting, JSON decoding, file writes and subprocess calls.
- All pygit2 and git subprocess calls become values: the text git prints, and the `Repo` fields `head`, `local`, `target`, `remote`, `references`, `commits` and `initfile`.
- The index and tree of a commit are reduced to the init-file text it records. The author, committer and object ids are left out; a commit is its index in `commits`.
- File reads and writes, `Path.touch` and `mkdir` are modelled on the file's contents as a string. The `inplace` write of `initversion` is the `written` result.
- `os.linesep` is taken as `"\n"`.
- `release()` is left out: it raises `RuntimeError` unconditionally.
- `run()`, `parse_args`, `error`, `cli.py`, `script.py` and `setup.py` are left out. They are argument parsing and process exit around the modelled functions, or call checks that do not exist.
- Logging in `beta` is left out.
- `checks.BETAEXPR` is used by `start_release.extract_beta_branches` but defined nowhere. The beta pattern is the parameter `isBeta`.
- StartRelease.Repo.Beta: the source returns `None`; the model returns the new branch name, or the error that stops it.
- StartRelease.Repo.Beta: `error` plays no part in what `beta` does and is not a parameter.
- StartRelease.Repo.Beta: `workdir` is not a parameter; the model takes the init file to lie under the work tree. When it does not, `relative_to(workdir)` (`start_release.py:274`) raises `ValueError` after `set_module_var` has rewritten the file (`start_release.py:264`) and before any commit, leaving the file changed and the repository as it was; the model does not capture that path.
- Scm.Status: the `ignored` parameter is unused in the source and is not a parameter.
- Scm.Lookup: the file system is the set `gitDirs` of directories holding `.git`. Paths are lists of components; `..`, symbolic links and `Path.absolute()` are not modelled.
- Python `set` order: `check_has_single_remote` joins a set of names, whose order Python leaves unspecified. The model lists each name once, in first-listed order.
- `Tools.ExtractBetaBranches` returns a `set`, as the source does. The order of a Python set is not modelled.
- `int()` accepts ASCII digits only in this model; Python also accepts other Unicode decimal digits.
- `\d` in the beta patterns (`tools.py:250`, `checks.py:75`) matches ASCII digits only in this model. In Python it matches every Unicode decimal digit, so a branch such as `beta/١` is kept by Python and dropped by the model.
- Tools.SetModuleVar: `value` is an optional string, where the source accepts any value. The model does not capture two behaviours of other types. Splicing a non-string into a matched line raises `TypeError` (`tools.py:178`). Appending one when nothing matches renders it with `str()` (`tools.py:184`).
- LegacyTools.InitVersion: `value` is an optional string, where the source accepts any value. Splicing a non-string into a matched line raises `TypeError` (`src/setuptools/github/tools.py:45`); the model does not capture it.
- `re.compile(f"^{var}...")` treats regular-expression metacharacters in the variable name as pattern syntax. The model matches the name literally.
- `get_module_var(..., abort=False)` in `check_initfile` can return a version for a file that exists. `Checks.CheckInitfile` takes that version as an input.

## Findings

| source | as written | input that shows it | evidently intended | confidence | as-written member | corrected member |
|---|---|---|---|---|---|---|
| src/setuptools_github/scm.py:114-119 | the loop stops only when `str(cur) == cur.root`; for a relative path the root is `""` while `str(Path(""))` is `"."`, and `Path(".").parent` is `Path(".")` | a relative path such as `Path("a")` with no `.git` in it or any ancestor: `cur` reaches `Path(".")` and stays there | stop at the top of the path, absolute or relative, and return `None` | not executed | `Scm.LookupRelativeDiverges` | `Scm.Lookup` |
