/** The release precondition checks of `setuptools_github.checks`, over a
    snapshot of the repository: each rule that fails adds a `Failure`, and
    a check reports every failure in test mode and only the first one
    otherwise. */
module Checks {
  import opened Wrappers
  import opened PyText
  import opened Dicts

  /** A `Failure(msg, explain)`, told apart by the rule that raised it and
      the values its message quotes. */
  datatype Failure =
    | MultipleRemotes(remotes: seq<string>)
    | RemoteMissing(remotes: seq<string>, remote: Option<string>)
    | NoFile(path: string)
    | NoVersion(path: string)
    | NotOnBeta(head: string, cur: Option<string>)
    | Mismatch(cur: Option<string>, thisver: Option<string>)
    | Released(cur: Option<string>)
    | OutOfSync(head: string, target: string, cur: Option<string>, remoteTarget: Option<string>)
  {
    /** The failure's `msg`, as the check formats it. */
    function Msg(): string {
      match this
      case MultipleRemotes(remotes) => "multiple remotes defined: " + Listing(RemoteNames(remotes))
      case RemoteMissing(remotes, remote) => "requested remote=" + Show(remote) + " but found " + Listing(RemoteNames(remotes))
      case NoFile(path) => "no file '" + path + "' found"
      case NoVersion(path) => "cannot find __version__ in " + path
      case NotOnBeta(head, cur) => "release should start from 'beta/" + Show(cur) + "' branch (currently on " + head + ")"
      case Mismatch(cur, thisver) => "current branch 'beta/" + Show(cur) + "' doesn't match the initfile version " + Show(thisver)
      case Released(cur) => "tag release/" + Show(cur) + " present, cannot re-release"
      case OutOfSync(_, _, cur, _) => "local and remote branches beta/" + Show(cur) + " are out of sync"
    }

    /** The failure's `explain`. */
    function Explain(): Option<string> {
      match this
      case MultipleRemotes(_) => Some(SingleRemoteExplain)
      case NoVersion(_) => Some(InitfileExplain)
      case OutOfSync(head, target, _, remoteTarget) =>
        Some("\n                The local branch " + head + " has\n                "
          + "different hash from remote (" + target + " != " + Show(remoteTarget) + ")\n                ")
      case _ => None
    }
  }

  /** `errors if _testmode else errors[:1]`. */
  function Report(errors: seq<Failure>, testmode: bool): (r: seq<Failure>)
    ensures testmode ==> r == errors
    ensures !testmode ==> |r| <= 1 && (r == [] <==> errors == []) && (errors != [] ==> r == [errors[0]])
  {
    if testmode || |errors| <= 1 then errors else errors[..1]
  }

  /** `", ".join(names)`. */
  function Listing(names: seq<string>): string {
    if names == [] then ""
    else if |names| == 1 then names[0]
    else names[0] + ", " + Listing(names[1..])
  }

  // ---------------------------------------------------------------------------
  // check_has_single_remote

  const SingleRemoteExplain := "\n    The workdir must have a single remote; use `git remote -v' to list all remotes\n    and use the --remote flag to select one\n    "

  /** The remote names, each once, in the order first listed (the source
      joins a set, whose order Python leaves unspecified). */
  function RemoteNames(remotes: seq<string>): seq<string> {
    Dedup(remotes)
  }

  /** More than one remote and none selected. */
  predicate Ambiguous(remotes: seq<string>, remote: Option<string>) {
    |set r | r in remotes| > 1 && !Truthy(remote)
  }

  /** A remote is selected that the repository does not have. */
  predicate Unknown(remotes: seq<string>, remote: Option<string>) {
    Truthy(remote) && remote.value !in remotes
  }

  /** `check_has_single_remote(repo, remote, _testmode)` for a repository
      whose remotes are named `remotes`. */
  method CheckHasSingleRemote(remotes: seq<string>, remote: Option<string>, testmode: bool)
    returns (r: seq<Failure>)
    ensures testmode ==> r == [MultipleRemotes(remotes), RemoteMissing(remotes, remote)]
    ensures !testmode ==>
      r == (if Ambiguous(remotes, remote) then [MultipleRemotes(remotes)]
            else if Unknown(remotes, remote) then [RemoteMissing(remotes, remote)]
            else [])
  {
    var names := set n | n in remotes;
    var errors: seq<Failure> := [];
    if testmode || (|names| > 1 && !Truthy(remote)) {
      errors := errors + [MultipleRemotes(remotes)];
    }
    if testmode || (Truthy(remote) && remote.value !in names) {
      errors := errors + [RemoteMissing(remotes, remote)];
    }
    r := Report(errors, testmode);
  }

  // ---------------------------------------------------------------------------
  // check_initfile

  /** The init file as the checks see it: absent, or present with the
      `__version__` value that reading its module-level variables finds. */
  datatype InitFile = Missing | Present(version: Option<string>)

  /** `get_module_var(initfile, "__version__", abort=False)`: nothing for a missing file. */
  function ModuleVersion(file: InitFile): Option<string> {
    match file
    case Missing => None
    case Present(v) => v
  }

  const InitfileExplain := "\n        The initfile should contain the __version__ module level variable;\n        it should be a text string in the MAJOR.MINOR.MICRO form.\n        "

  /** `check_initfile(initfile, _testmode)` for the file at `path`. */
  method CheckInitfile(path: string, file: InitFile, testmode: bool) returns (r: seq<Failure>)
    ensures testmode ==> r == [NoFile(path), NoVersion(path)]
    ensures !testmode ==>
      r == (if file.Missing? then [NoFile(path)]
            else if !Truthy(file.version) then [NoVersion(path)]
            else [])
  {
    var errors: seq<Failure> := [];
    if testmode || file.Missing? {
      errors := errors + [NoFile(path)];
    }
    var curver := ModuleVersion(file);
    if testmode || !Truthy(curver) {
      errors := errors + [NoVersion(path)];
    }
    r := Report(errors, testmode);
  }

  // ---------------------------------------------------------------------------
  // check_for_release

  /** `\d+([.]\d+)*` matching the whole of `v`: dot-separated, non-empty
      runs of digits. */
  predicate DottedNumber(v: string) {
    forall p :: p in Split(v, '.') ==> p != "" && AllDigits(p)
  }

  /** `re.match(r"/?beta/(?P<ver>\d+([.]\d+)*)$", s)` and its `ver` group;
      `$` also matches just before a final newline. */
  function BetaVersion(s: string): Option<string> {
    var rest := if s != [] && s[0] == '/' then s[1..] else s;
    if !StartsWith(rest, "beta/") then None
    else
      var body := rest[5..];
      var ver := if body != [] && body[|body| - 1] == '\n' then body[..|body| - 1] else body;
      if DottedNumber(ver) then Some(ver) else None
  }

  /** What a match consists of: an optional slash, `beta/`, the dotted
      version and an optional final newline. */
  lemma BetaVersionShape(s: string)
    ensures var r := BetaVersion(s);
      r.Some? ==> (
        && DottedNumber(r.value)
        && (|| s == "beta/" + r.value || s == "/beta/" + r.value
            || s == "beta/" + r.value + "\n" || s == "/beta/" + r.value + "\n"))
  {
    var r := BetaVersion(s);
    if r.Some? {
      BetaText(s, r.value);
    }
  }

  /** The text the pattern reads: `v` after `beta/` and an optional slash,
      with an optional final newline. */
  lemma BetaText(s: string, v: string)
    requires var rest := if s != [] && s[0] == '/' then s[1..] else s;
      && StartsWith(rest, "beta/")
      && var body := rest[5..];
      v == if body != [] && body[|body| - 1] == '\n' then body[..|body| - 1] else body
    ensures || s == "beta/" + v || s == "/beta/" + v
            || s == "beta/" + v + "\n" || s == "/beta/" + v + "\n"
  {
    var slash := s != [] && s[0] == '/';
    var rest := if slash then s[1..] else s;
    var body := rest[5..];
    Prepend("beta/", rest);
    if slash {
      Prepend("/", s);
    }
    assert "/" + "beta/" == "/beta/";
    if body != [] && body[|body| - 1] == '\n' {
      assert body == v + "\n";
      Concat("beta/", v, "\n");
      if slash {
        Concat("/", "beta/" + v, "\n");
        Concat("/", "beta/", v);
      }
    } else if slash {
      Concat("/", "beta/", v);
    }
  }

  /** Solver aid for `BetaText`: regrouping a concatenation. Dafny knows the
      fact; naming each instance keeps that proof within its resource limit. */
  lemma Concat(a: string, b: string, c: string)
    ensures a + (b + c) == a + b + c
  {
  }

  /** Solver aid for `BetaText`: a text that starts with `a` is `a`
      followed by the rest. */
  lemma Prepend(a: string, s: string)
    requires StartsWith(s, a)
    ensures s == a + s[|a|..]
  {
    assert s == s[..|a|] + s[|a|..];
  }

  /** A dotted number holds neither a slash nor a newline. */
  lemma DottedNumberChars(v: string)
    requires DottedNumber(v)
    ensures v != "" && '/' !in v && '\n' !in v && v[0] != '.'
  {
    var parts := Split(v, '.');
    assert parts[0] in parts;
    JoinSplit(v, '.');
    forall i | 0 <= i < |parts|
      ensures '/' !in parts[i] && '\n' !in parts[i]
    {
      assert parts[i] in parts;
    }
    JoinFree(parts, '.', '/');
    JoinFree(parts, '.', '\n');
    SplitFirst(v, '.');
  }

  /** The first piece of a split is a prefix of the text. */
  lemma {:induction false} SplitFirst(s: string, sep: char)
    ensures var p := Split(s, sep)[0]; |p| <= |s| && s[..|p|] == p
  {
    if s != [] {
      SplitFirst(s[1..], sep);
    }
  }

  /** Every beta branch name, with or without the leading slash and a final
      newline, matches and yields its version. */
  lemma BetaVersionOf(v: string)
    requires DottedNumber(v)
    ensures BetaVersion("beta/" + v) == Some(v)
    ensures BetaVersion("/beta/" + v) == Some(v)
    ensures BetaVersion("beta/" + v + "\n") == Some(v)
    ensures BetaVersion("/beta/" + v + "\n") == Some(v)
  {
    DottedNumberChars(v);
    BetaVersionOfAt("beta/" + v, v, "beta/");
    BetaVersionOfAt("/beta/" + v, v, "/beta/");
    BetaVersionOfAt("beta/" + v + "\n", v, "beta/");
    BetaVersionOfAt("/beta/" + v + "\n", v, "/beta/");
  }

  lemma BetaVersionOfAt(s: string, v: string, lead: string)
    requires DottedNumber(v) && v != "" && '\n' !in v && v[0] != '.'
    requires lead == "beta/" || lead == "/beta/"
    requires s == lead + v || s == lead + v + "\n"
    ensures BetaVersion(s) == Some(v)
  {
    var rest := if s != [] && s[0] == '/' then s[1..] else s;
    assert rest == "beta/" + s[|lead|..];
    assert StartsWith(rest, "beta/") by { assert rest[..5] == "beta/"; }
    var body := rest[5..];
    assert body == s[|lead|..];
    if s == lead + v {
      assert body == v;
      assert v[|v| - 1] in v;
    } else {
      assert body == v + "\n";
      assert body[..|body| - 1] == v;
    }
  }

  /** `regex_beta.search(s)`: the pattern matches from some position on. */
  predicate SearchesBeta(s: string) {
    SearchesBetaFrom(s, 0)
  }

  /** The pattern matches from a position at or after `p`. */
  predicate SearchesBetaFrom(s: string, p: nat)
    requires p <= |s|
    decreases |s| - p
  {
    BetaVersion(s[p..]).Some? || (p < |s| && SearchesBetaFrom(s, p + 1))
  }

  lemma {:induction false} SearchesBetaMeaning(s: string, p: nat)
    requires p <= |s|
    ensures SearchesBetaFrom(s, p) <==> exists q :: p <= q <= |s| && BetaVersion(s[q..]).Some?
    decreases |s| - p
  {
    if p < |s| {
      SearchesBetaMeaning(s, p + 1);
      if BetaVersion(s[p..]).None? {
        forall q | p <= q <= |s| && BetaVersion(s[q..]).Some?
          ensures p + 1 <= q
        {
        }
      }
    }
  }

  /** What each remote branch contributes to the dictionary: its last
      segment and target when it is a beta branch, nothing otherwise. */
  function Entries(branches: seq<(string, string)>): (r: seq<Option<(string, string)>>)
    ensures |r| == |branches|
  {
    seq(|branches|, i requires 0 <= i < |branches| =>
      if SearchesBeta(branches[i].0) then Some((RPartitionTail(branches[i].0, '/'), branches[i].1)) else None)
  }

  /** `{b.rpartition("/")[2]: target for b in branches if regex_beta.search(b)}`
      for remote branches given as (name, target) pairs: a later branch with
      the same last segment replaces an earlier one. */
  function RemoteTargets(branches: seq<(string, string)>): map<string, string> {
    Build(Entries(branches))
  }

  /** The dictionary comprehension over the remote branches, entry by entry. */
  method CollectRemoteTargets(branches: seq<(string, string)>) returns (remotes: map<string, string>)
    ensures remotes == RemoteTargets(branches)
  {
    ghost var entries := Entries(branches);
    remotes := map[];
    var i := 0;
    while i < |branches|
      invariant 0 <= i <= |branches|
      invariant remotes == Build(entries[..i])
    {
      var branch := branches[i];
      assert entries[..i + 1][..i] == entries[..i];
      if SearchesBeta(branch.0) {
        assert entries[i] == Some((RPartitionTail(branch.0, '/'), branch.1));
        remotes := remotes[RPartitionTail(branch.0, '/') := branch.1];
      } else {
        assert entries[i] == None;
      }
      i := i + 1;
    }
    assert entries[..i] == entries;
  }

  /** `"refs/tags/release/{curver}"`. */
  function ReleaseTag(curver: Option<string>): string {
    "refs/tags/release/" + Show(curver)
  }

  /** `[r for r in references if re.match("^refs/tags/", r)]`. */
  function TagRefs(references: seq<string>): seq<string> {
    if references == [] then []
    else
      var rest := TagRefs(references[1..]);
      if StartsWith(references[0], "refs/tags/") then [references[0]] + rest else rest
  }

  /** The tags are the references under `refs/tags/`, in order. */
  lemma {:induction false} TagRefsMembers(references: seq<string>)
    ensures forall x :: x in TagRefs(references) <==> x in references && StartsWith(x, "refs/tags/")
  {
    if references != [] {
      TagRefsMembers(references[1..]);
      assert forall x :: x in references <==> x == references[0] || x in references[1..];
    }
  }

  /** Looking for the release tag among the tags is looking for it among all references. */
  lemma ReleasedIffTagged(references: seq<string>, curver: Option<string>)
    ensures ReleaseTag(curver) in TagRefs(references) <==> ReleaseTag(curver) in references
  {
    var t := ReleaseTag(curver);
    assert t[..10] == "refs/tags/";
    TagRefsMembers(references);
  }

  /** The repository as `check_for_release` reads it. */
  datatype Snapshot = Snapshot(
    head: string,                            // `repo.head.shorthand`
    target: string,                          // `repo.head.target`
    references: seq<string>,                 // `repo.references`
    remoteBranches: seq<(string, string)>)   // `repo.branches.remote`, with targets

  /** `curver or get_module_var(initfile, "__version__", abort=False)`. */
  function CurrentVersion(curver: Option<string>, file: InitFile): Option<string> {
    if Truthy(curver) then curver else ModuleVersion(file)
  }

  /** The target of the remote beta branch for `cur`, if there is one. */
  function RemoteTarget(snap: Snapshot, cur: Option<string>): Option<string> {
    var remotes := RemoteTargets(snap.remoteBranches);
    if cur.Some? && cur.value in remotes then Some(remotes[cur.value]) else None
  }

  /** The remote counterpart of the release branch points elsewhere than the head. */
  predicate Diverged(snap: Snapshot, cur: Option<string>) {
    var t := RemoteTarget(snap, cur);
    t.Some? && t.value != snap.target
  }

  /** `check_for_release(repo, initfile, curver, _testmode)`. */
  method CheckForRelease(snap: Snapshot, file: InitFile, curver: Option<string>, testmode: bool)
    returns (r: seq<Failure>)
    ensures var cur := CurrentVersion(curver, file);
      var thisver := BetaVersion(snap.head);
      var sync := OutOfSync(snap.head, snap.target, cur, RemoteTarget(snap, cur));
      && (testmode ==> r == [NotOnBeta(snap.head, cur), Mismatch(cur, thisver), Released(cur), sync])
      && (!testmode ==>
            r == (if thisver.None? then [NotOnBeta(snap.head, cur)]
                  else if thisver != cur then [Mismatch(cur, thisver)]
                  else if ReleaseTag(cur) in snap.references then [Released(cur)]
                  else if Diverged(snap, cur) then [sync]
                  else []))
  {
    var cur := if Truthy(curver) then curver else ModuleVersion(file);
    var thisver := BetaVersion(snap.head);
    BetaVersionNonEmpty(snap.head);
    var errors: seq<Failure> := [];
    ghost var c1 := testmode || thisver.None?;
    if testmode || thisver.None? {
      errors := errors + [NotOnBeta(snap.head, cur)];
    }
    assert errors == Opt(c1, NotOnBeta(snap.head, cur));
    ghost var c2 := testmode || (thisver.Some? && thisver != cur);
    ghost var e1 := errors;
    if testmode || (Truthy(thisver) && thisver != cur) {
      errors := errors + [Mismatch(cur, thisver)];
    }
    assert errors == e1 + Opt(c2, Mismatch(cur, thisver));
    var tags := TagRefs(snap.references);
    ReleasedIffTagged(snap.references, cur);
    ghost var c3 := testmode || ReleaseTag(cur) in snap.references;
    ghost var e2 := errors;
    if testmode || ReleaseTag(cur) in tags {
      errors := errors + [Released(cur)];
    }
    assert errors == e2 + Opt(c3, Released(cur));
    var remotes := CollectRemoteTargets(snap.remoteBranches);
    var remoteTarget := if cur.Some? && cur.value in remotes then Some(remotes[cur.value]) else None;
    assert remoteTarget == RemoteTarget(snap, cur);
    ghost var c4 := testmode || Diverged(snap, cur);
    ghost var e3 := errors;
    if testmode || (cur.Some? && cur.value in remotes && remotes[cur.value] != snap.target) {
      errors := errors + [OutOfSync(snap.head, snap.target, cur, remoteTarget)];
    }
    assert errors == e3 + Opt(c4, OutOfSync(snap.head, snap.target, cur, remoteTarget));
    FirstOfFour(c1, c2, c3, c4, NotOnBeta(snap.head, cur), Mismatch(cur, thisver), Released(cur),
      OutOfSync(snap.head, snap.target, cur, remoteTarget), testmode);
    r := Report(errors, testmode);
  }

  /** A failure when its rule fires, nothing otherwise. */
  function Opt(fires: bool, f: Failure): (r: seq<Failure>)
    ensures r == [] || r == [f]
  {
    if fires then [f] else []
  }

  /** Four rules in order: outside test mode the first that fires is the
      report, and in test mode, where all fire, every failure is. */
  lemma FirstOfFour(c1: bool, c2: bool, c3: bool, c4: bool, f1: Failure, f2: Failure, f3: Failure, f4: Failure, testmode: bool)
    requires testmode ==> c1 && c2 && c3 && c4
    ensures var r := Report(Opt(c1, f1) + Opt(c2, f2) + Opt(c3, f3) + Opt(c4, f4), testmode);
      && (testmode ==> r == [f1, f2, f3, f4])
      && (!testmode ==> r == (if c1 then [f1] else if c2 then [f2] else if c3 then [f3] else if c4 then [f4] else []))
  {
  }

  /** A matched beta version is never empty, so it is truthy. */
  lemma BetaVersionNonEmpty(s: string)
    ensures BetaVersion(s).Some? ==> BetaVersion(s).value != ""
  {
    if BetaVersion(s).Some? {
      DottedNumberChars(BetaVersion(s).value);
    }
  }

  /** Without a remote branch for the version there is nothing to be out of sync with. */
  lemma NoCounterpartInSync(snap: Snapshot, cur: Option<string>)
    requires cur.Some?
    requires forall i :: 0 <= i < |snap.remoteBranches| ==>
               SearchesBeta(snap.remoteBranches[i].0) ==> RPartitionTail(snap.remoteBranches[i].0, '/') != cur.value
    ensures !Diverged(snap, cur)
  {
    var entries := Entries(snap.remoteBranches);
    BuildKeys(entries, cur.value);
    forall i | 0 <= i < |entries|
      ensures !Keyed(entries, i, cur.value)
    {
      assert entries[i].Some? ==> entries[i].value.0 == RPartitionTail(snap.remoteBranches[i].0, '/');
    }
  }

  /** Remote branch `i` is a beta branch for version `v` and no later one is. */
  predicate LastFor(branches: seq<(string, string)>, i: nat, v: string) {
    && i < |branches|
    && SearchesBeta(branches[i].0) && RPartitionTail(branches[i].0, '/') == v
    && forall j :: i < j < |branches| ==> !(SearchesBeta(branches[j].0) && RPartitionTail(branches[j].0, '/') == v)
  }

  /** With a remote counterpart, the last beta remote branch for the version
      decides: out of sync exactly when its target is not the head's. */
  lemma DivergedAt(snap: Snapshot, v: string, i: nat)
    requires LastFor(snap.remoteBranches, i, v)
    ensures Diverged(snap, Some(v)) <==> snap.remoteBranches[i].1 != snap.target
  {
    var bs := snap.remoteBranches;
    var entries := Entries(bs);
    EntryOf(bs, i);
    forall j | i < j < |entries|
      ensures !Keyed(entries, j, v)
    {
      EntryOf(bs, j);
    }
    BuildLast(entries, v, i);
    assert RemoteTarget(snap, Some(v)) == Some(bs[i].1);
  }

  lemma EntryOf(branches: seq<(string, string)>, j: nat)
    requires j < |branches|
    ensures Keyed(Entries(branches), j, RPartitionTail(branches[j].0, '/')) <==> SearchesBeta(branches[j].0)
    ensures Keyed(Entries(branches), j, RPartitionTail(branches[j].0, '/')) ==> Entries(branches)[j].value.1 == branches[j].1
    ensures forall key :: Keyed(Entries(branches), j, key) ==> key == RPartitionTail(branches[j].0, '/')
  {
  }
}
