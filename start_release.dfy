/** `setuptools_github.start_release`: sorting a repository's branches and
    tags into beta branches and release tags, and `beta`, which starts the
    next beta branch. The repository is a `Repo` object holding its branch
    names, their commits and the text of the init file; which names count
    as beta branches is the parameter `isBeta`. */
module StartRelease {
  import opened Wrappers
  import opened PyText
  import Tools

  // ---------------------------------------------------------------------------
  // extract_beta_branches

  /** The names that `keep` accepts, in order. */
  function Filter(names: seq<string>, keep: string -> bool): seq<string> {
    if names == [] then []
    else
      var rest := Filter(names[..|names| - 1], keep);
      var n := names[|names| - 1];
      if keep(n) then rest + [n] else rest
  }

  lemma {:induction false} FilterMembers(names: seq<string>, keep: string -> bool)
    ensures forall x :: x in Filter(names, keep) <==> x in names && keep(x)
  {
    if names != [] {
      var init := names[..|names| - 1];
      FilterMembers(init, keep);
      assert names == init + [names[|names| - 1]];
    }
  }

  /** The order of the names is kept: filtering a concatenation
      concatenates the filtered parts. */
  lemma {:induction false} FilterAppend(a: seq<string>, b: seq<string>, keep: string -> bool)
    ensures Filter(a + b, keep) == Filter(a, keep) + Filter(b, keep)
  {
    if b == [] {
      assert a + b == a;
    } else {
      var n := |b| - 1;
      FilterAppend(a, b[..n], keep);
      assert (a + b)[..|a + b| - 1] == a + b[..n];
    }
  }

  /** A dictionary from remote to branch names, in insertion order. */
  type Groups = seq<(string, seq<string>)>

  function Keys(g: Groups): (r: seq<string>)
    ensures |r| == |g|
  {
    seq(|g|, i requires 0 <= i < |g| => g[i].0)
  }

  predicate Distinct(xs: seq<string>) {
    forall i, j :: 0 <= i < j < |xs| ==> xs[i] != xs[j]
  }

  /** `g.setdefault(origin, []).append(name)`. */
  function AddTo(g: Groups, origin: string, name: string): (r: Groups)
    ensures r != []
  {
    if g == [] then [(origin, [name])]
    else if g[0].0 == origin then [(origin, g[0].1 + [name])] + g[1..]
    else [g[0]] + AddTo(g[1..], origin, name)
  }

  /** The remote beta branches, split at the first `/` into the remote and
      the rest, and grouped by remote. */
  function RemoteGroups(remote: seq<string>, isBeta: string -> bool): Groups {
    if remote == [] then []
    else
      var g := RemoteGroups(remote[..|remote| - 1], isBeta);
      var n := remote[|remote| - 1];
      if isBeta(n) then AddTo(g, PartitionHead(n, '/'), PartitionTail(n, '/')) else g
  }

  /** The remote of each name, its text before the first `/`. */
  function Origins(names: seq<string>): (r: seq<string>)
    ensures |r| == |names|
  {
    seq(|names|, i requires 0 <= i < |names| => PartitionHead(names[i], '/'))
  }

  /** The rest after the first `/` of each name of remote `origin`, in order. */
  function Under(names: seq<string>, origin: string): seq<string> {
    if names == [] then []
    else
      var rest := Under(names[..|names| - 1], origin);
      var n := names[|names| - 1];
      if PartitionHead(n, '/') == origin then rest + [PartitionTail(n, '/')] else rest
  }

  /** Adding a name to a group: the key is added at the end when it is
      new, and the keys stay distinct. */
  lemma {:induction false} AddToKeys(g: Groups, origin: string, name: string)
    requires Distinct(Keys(g))
    ensures var r := AddTo(g, origin, name);
      && Keys(r) == (if origin in Keys(g) then Keys(g) else Keys(g) + [origin])
      && Distinct(Keys(r))
  {
    if g != [] {
      var r := AddTo(g, origin, name);
      if g[0].0 != origin {
        var t := g[1..];
        assert Keys(t) == Keys(g)[1..];
        AddToKeys(t, origin, name);
        assert Keys(r) == [g[0].0] + Keys(AddTo(t, origin, name));
        assert origin in Keys(g) <==> origin in Keys(t);
      } else {
        assert Keys(r) == Keys(g);
        assert Keys(g)[0] == origin;
      }
    }
  }

  /** Adding a name to a group with distinct keys: only the list of its
      key grows, by the name at the end, or a new list holds just it. */
  lemma {:induction false} AddToLists(g: Groups, origin: string, name: string)
    requires Distinct(Keys(g))
    ensures var r := AddTo(g, origin, name);
      && |r| == (if origin in Keys(g) then |g| else |g| + 1)
      && (forall i :: 0 <= i < |g| ==> r[i].1 == g[i].1 + (if g[i].0 == origin then [name] else []))
      && (origin !in Keys(g) ==> r[|g|].1 == [name])
  {
    AddToKeys(g, origin, name);
    if g != [] {
      var r := AddTo(g, origin, name);
      if g[0].0 != origin {
        var t := g[1..];
        assert Keys(t) == Keys(g)[1..];
        AddToLists(t, origin, name);
        assert origin in Keys(g) <==> origin in Keys(t);
        forall i | 0 < i < |g|
          ensures r[i].1 == g[i].1 + (if g[i].0 == origin then [name] else [])
        {
          assert r[i] == AddTo(t, origin, name)[i - 1] && g[i] == t[i - 1];
        }
      } else {
        forall i | 0 < i < |g|
          ensures g[i].0 != origin
        {
          assert Keys(g)[i] != Keys(g)[0];
        }
      }
    }
  }

  /** No name of a remote that none of the names has. */
  lemma {:induction false} UnderNone(names: seq<string>, origin: string)
    requires origin !in Origins(names)
    ensures Under(names, origin) == []
  {
    if names != [] {
      var init := names[..|names| - 1];
      assert Origins(init) == Origins(names)[..|init|];
      UnderNone(init, origin);
      assert Origins(names)[|init|] == PartitionHead(names[|init|], '/');
    }
  }

  /** The remotes come in the order they first appear among the beta
      branches, each once, and each holds the rest of its beta branches'
      names, in order. */
  lemma {:induction false} RemoteGroupsMeaning(remote: seq<string>, isBeta: string -> bool)
    ensures var g, b := RemoteGroups(remote, isBeta), Filter(remote, isBeta);
      && Keys(g) == Dedup(Origins(b))
      && Distinct(Keys(g))
      && forall i :: 0 <= i < |g| ==> g[i].1 == Under(b, g[i].0)
  {
    if remote != [] {
      var init := remote[..|remote| - 1];
      var n := remote[|remote| - 1];
      RemoteGroupsMeaning(init, isBeta);
      var g0, b0 := RemoteGroups(init, isBeta), Filter(init, isBeta);
      if isBeta(n) {
        assert Filter(remote, isBeta) == b0 + [n];
        GroupsAdd(g0, b0, n);
      }
    }
  }

  /** The step of the grouping: one more beta branch `n`. */
  lemma GroupsAdd(g0: Groups, b0: seq<string>, n: string)
    requires Keys(g0) == Dedup(Origins(b0)) && Distinct(Keys(g0))
    requires forall i :: 0 <= i < |g0| ==> g0[i].1 == Under(b0, g0[i].0)
    ensures var g, b := AddTo(g0, PartitionHead(n, '/'), PartitionTail(n, '/')), b0 + [n];
      && Keys(g) == Dedup(Origins(b))
      && Distinct(Keys(g))
      && forall i :: 0 <= i < |g| ==> g[i].1 == Under(b, g[i].0)
  {
    var g := AddTo(g0, PartitionHead(n, '/'), PartitionTail(n, '/'));
    GroupsAddKeys(g0, b0, n);
    forall i | 0 <= i < |g|
      ensures g[i].1 == Under(b0 + [n], g[i].0)
    {
      GroupsAddList(g0, b0, n, i);
    }
  }

  lemma GroupsAddKeys(g0: Groups, b0: seq<string>, n: string)
    requires Keys(g0) == Dedup(Origins(b0)) && Distinct(Keys(g0))
    ensures var g := AddTo(g0, PartitionHead(n, '/'), PartitionTail(n, '/'));
      Keys(g) == Dedup(Origins(b0 + [n])) && Distinct(Keys(g))
  {
    var o := PartitionHead(n, '/');
    assert Origins(b0 + [n]) == Origins(b0) + [o];
    AddToKeys(g0, o, PartitionTail(n, '/'));
  }

  lemma GroupsAddList(g0: Groups, b0: seq<string>, n: string, i: nat)
    requires Keys(g0) == Dedup(Origins(b0)) && Distinct(Keys(g0))
    requires forall i :: 0 <= i < |g0| ==> g0[i].1 == Under(b0, g0[i].0)
    requires i < |AddTo(g0, PartitionHead(n, '/'), PartitionTail(n, '/'))|
    ensures var g := AddTo(g0, PartitionHead(n, '/'), PartitionTail(n, '/'));
      g[i].1 == Under(b0 + [n], g[i].0)
  {
    var o, t := PartitionHead(n, '/'), PartitionTail(n, '/');
    var b := b0 + [n];
    AddToKeys(g0, o, t);
    AddToLists(g0, o, t);
    var g := AddTo(g0, o, t);
    assert b[..|b| - 1] == b0;
    if i == |g0| {
      assert o !in Dedup(Origins(b0));
      UnderNone(b0, o);
      assert g[i].0 == Keys(g)[i] == o;
    } else {
      assert g[i].0 == Keys(g)[i] == Keys(g0)[i] == g0[i].0;
    }
  }

  /** There is a remote group exactly when there is a remote beta branch. */
  lemma {:induction false} RemoteGroupsEmpty(remote: seq<string>, isBeta: string -> bool)
    ensures RemoteGroups(remote, isBeta) == [] <==> Filter(remote, isBeta) == []
  {
    if remote != [] {
      RemoteGroupsEmpty(remote[..|remote| - 1], isBeta);
    }
  }

  const TagsPrefix := "refs/tags/"
  const ReleaseTagsPrefix := "refs/tags/release/"

  predicate IsReleaseRef(ref: string) {
    StartsWith(ref, ReleaseTagsPrefix)
  }

  /** `[name[len("refs/tags/"):] for name in references if tagre.search(name)]`. */
  function ReleaseTags(references: seq<string>): seq<string> {
    if references == [] then []
    else
      var rest := ReleaseTags(references[..|references| - 1]);
      var ref := references[|references| - 1];
      if IsReleaseRef(ref) then rest + [ref[|TagsPrefix|..]] else rest
  }

  /** The tags are the release references, in order, with `refs/tags/`
      taken off: putting it back gives exactly those references. */
  lemma {:induction false} ReleaseTagsMeaning(references: seq<string>)
    ensures Prefixed(TagsPrefix, ReleaseTags(references)) == Filter(references, IsReleaseRef)
    ensures forall t :: t in ReleaseTags(references) ==> StartsWith(t, "release/")
  {
    if references != [] {
      var init := references[..|references| - 1];
      var ref := references[|references| - 1];
      ReleaseTagsMeaning(init);
      var tags := ReleaseTags(init);
      if IsReleaseRef(ref) {
        var tag := ref[|TagsPrefix|..];
        assert ref[..|TagsPrefix|] == ReleaseTagsPrefix[..|TagsPrefix|] == TagsPrefix;
        assert TagsPrefix + tag == ref;
        assert Prefixed(TagsPrefix, tags + [tag]) == Prefixed(TagsPrefix, tags) + [TagsPrefix + tag];
        assert tag[..8] == ref[10..18] == "release/";
      }
    }
  }

  /** `extract_beta_branches(repo)` on the repository's local branch names,
      remote branch names and references. */
  method ExtractBetaBranches(local: seq<string>, remote: seq<string>, references: seq<string>, isBeta: string -> bool)
    returns (localBeta: seq<string>, remoteBeta: Groups, tags: seq<string>)
    ensures localBeta == Filter(local, isBeta)
    ensures remoteBeta == RemoteGroups(remote, isBeta)
    ensures tags == ReleaseTags(references)
  {
    localBeta := [];
    for i := 0 to |local|
      invariant localBeta == Filter(local[..i], isBeta)
    {
      assert local[..i + 1][..i] == local[..i];
      if isBeta(local[i]) {
        localBeta := localBeta + [local[i]];
      }
    }
    assert local[..|local|] == local;

    remoteBeta := [];
    for i := 0 to |remote|
      invariant remoteBeta == RemoteGroups(remote[..i], isBeta)
    {
      assert remote[..i + 1][..i] == remote[..i];
      var name := remote[i];
      if isBeta(name) {
        var origin, rest := PartitionHead(name, '/'), PartitionTail(name, '/');
        var j := 0;
        while j < |remoteBeta| && remoteBeta[j].0 != origin
          invariant 0 <= j <= |remoteBeta|
          invariant forall k :: 0 <= k < j ==> remoteBeta[k].0 != origin
        {
          j := j + 1;
        }
        AddToAt(remoteBeta, origin, rest, j);
        if j == |remoteBeta| {
          remoteBeta := remoteBeta + [(origin, [])];
        }
        remoteBeta := remoteBeta[j := (origin, remoteBeta[j].1 + [rest])];
      }
    }
    assert remote[..|remote|] == remote;

    tags := [];
    for i := 0 to |references|
      invariant tags == ReleaseTags(references[..i])
    {
      assert references[..i + 1][..i] == references[..i];
      var name := references[i];
      if IsReleaseRef(name) {
        tags := tags + [name[10..]];
      }
    }
    assert references[..|references|] == references;
  }

  /** `AddTo` at the first entry with the key, or at a new entry at the end. */
  lemma {:induction false} AddToAt(g: Groups, origin: string, name: string, j: nat)
    requires j <= |g| && (forall k :: 0 <= k < j ==> g[k].0 != origin)
    requires j < |g| ==> g[j].0 == origin
    ensures var h := if j < |g| then g else g + [(origin, [])];
      AddTo(g, origin, name) == h[j := (origin, h[j].1 + [name])]
  {
    if j > 0 {
      var t := g[1..];
      AddToAt(t, origin, name, j - 1);
      var h := if j < |g| then g else g + [(origin, [])];
      var ht := if j - 1 < |t| then t else t + [(origin, [])];
      assert h == [g[0]] + ht;
      var x := (origin, ht[j - 1].1 + [name]);
      assert [g[0]] + ht[j - 1 := x] == h[j := x];
    } else if g != [] {
      assert [(origin, g[0].1 + [name])] + g[1..] == g[0 := (origin, g[0].1 + [name])];
    } else {
      assert [] + [name] == [name];
    }
  }

  // ---------------------------------------------------------------------------
  // beta

  /** A commit: its message, its parents (indices into the repository's
      commits) and the init file text it records. */
  datatype Commit = Commit(message: string, parents: seq<nat>, initfile: Option<string>)

  /** What stops `beta`: the version cannot be bumped, or the new branch
      already exists. */
  datatype BetaError = BumpFailed(error: Tools.ToolError) | BranchExists(branch: string)

  const VersionVar := "__version__"

  /** The version of the new beta branch: `curver` for the first one, when
      there is no local and no remote beta branch, else `curver` bumped.
      The bump is computed first, so one that fails stops both. */
  function NewVersion(curver: Option<string>, mode: string, local: seq<string>, remote: seq<string>, isBeta: string -> bool)
    : Result<Option<string>, Tools.ToolError>
  {
    match Tools.BumpSpec(curver.GetOr(""), mode)
    case Err(e) => Err(e)
    case Ok(v) => Ok(if Filter(local, isBeta) == [] && RemoteGroups(remote, isBeta) == [] then curver else Some(v))
  }

  /** The new version is the bumped one when a local or remote beta branch
      exists, and the current one otherwise; release tags play no part. */
  lemma NewVersionChoice(curver: Option<string>, mode: string, local: seq<string>, remote: seq<string>, isBeta: string -> bool)
    ensures NewVersion(curver, mode, local, remote, isBeta) ==
      match Tools.BumpSpec(curver.GetOr(""), mode)
      case Err(e) => Err(e)
      case Ok(v) =>
        Ok(if (exists b :: b in local && isBeta(b)) || (exists b :: b in remote && isBeta(b)) then Some(v) else curver)
  {
    FilterMembers(local, isBeta);
    FilterMembers(remote, isBeta);
    RemoteGroupsEmpty(remote, isBeta);
    if Filter(local, isBeta) != [] {
      assert Filter(local, isBeta)[0] in Filter(local, isBeta);
    }
    if Filter(remote, isBeta) != [] {
      assert Filter(remote, isBeta)[0] in Filter(remote, isBeta);
    }
  }

  /** `f"beta/{newver}"`. */
  function BranchName(newver: Option<string>): string {
    "beta/" + Show(newver)
  }

  /** `f"beta release {newver}"`. */
  function CommitMessage(newver: Option<string>): string {
    "beta release " + Show(newver)
  }

  /** A repository: the checked-out branch, the local branches in listing
      order and their commits, the remote branch names, the references, the
      commits, and the text of the init file in the work tree (`None` when
      it does not exist). */
  class Repo {
    var head: string
    var local: seq<string>
    var target: map<string, nat>
    var remote: seq<string>
    var references: seq<string>
    var commits: seq<Commit>
    var initfile: Option<string>

    /** The head is a local branch, the branch list and the commit map name
        the same branches, and every branch points at a commit. */
    ghost predicate Valid()
      reads this
    {
      && head in target
      && (forall n :: n in local <==> n in target)
      && (forall n :: n in target ==> target[n] < |commits|)
    }

    /** A repository checked out on `head`, with branches `local` pointing
        into `commits` as `target` says. */
    constructor(head: string, local: seq<string>, target: map<string, nat>, remote: seq<string>,
                references: seq<string>, commits: seq<Commit>, initfile: Option<string>)
      requires head in target
      requires forall n :: n in local <==> n in target
      requires forall n :: n in target ==> target[n] < |commits|
      ensures Valid()
      ensures this.head == head && this.local == local && this.target == target
      ensures this.remote == remote && this.references == references
      ensures this.commits == commits && this.initfile == initfile
    {
      this.head := head;
      this.local := local;
      this.target := target;
      this.remote := remote;
      this.references := references;
      this.commits := commits;
      this.initfile := initfile;
    }

    /** `repo.create_commit(repo.head.name, ..., msg, tree, [parent])`: a
        commit of the init file on the current branch, whose parent is the
        commit the branch pointed at. */
    method CommitInitFile(msg: string)
      requires Valid()
      modifies this
      ensures Valid()
      ensures commits == old(commits) + [Commit(msg, [old(target)[old(head)]], initfile)]
      ensures target == old(target)[old(head) := |old(commits)|]
      ensures head == old(head) && local == old(local) && initfile == old(initfile)
      ensures remote == old(remote) && references == old(references)
    {
      var parent := target[head];
      commits := commits + [Commit(msg, [parent], initfile)];
      target := target[head := |commits| - 1];
    }

    /** `repo.branches.local.create(name, commit)` at the current branch's
        commit, which fails when the branch exists. */
    method CreateBranch(name: string) returns (created: bool)
      requires Valid()
      modifies this
      ensures Valid()
      ensures created <==> name !in old(target)
      ensures target == if created then old(target)[name := old(target)[old(head)]] else old(target)
      ensures local == if created then old(local) + [name] else old(local)
      ensures head == old(head) && commits == old(commits) && initfile == old(initfile)
      ensures remote == old(remote) && references == old(references)
    {
      if name in target {
        return false;
      }
      target := target[name := target[head]];
      local := local + [name];
      return true;
    }

    /** `repo.checkout(ref)` of a local branch. */
    method Checkout(name: string)
      requires Valid() && name in target
      modifies this
      ensures Valid()
      ensures head == name
      ensures local == old(local) && target == old(target) && commits == old(commits) && initfile == old(initfile)
      ensures remote == old(remote) && references == old(references)
    {
      head := name;
    }

    /** `beta(repo, curver, mode, initfile, workdir, dryrun, error)`: the name
        of the new branch, after updating `__version__` in the init file,
        committing it on the current branch, creating the branch at that
        commit and checking it out; with `dryrun` nothing changes. */
    method Beta(curver: Option<string>, mode: string, isBeta: string -> bool, dryrun: bool)
      returns (r: Result<string, BetaError>)
      requires Valid()
      modifies this
      ensures Valid()
      ensures var nv := NewVersion(curver, mode, old(local), old(remote), isBeta);
        if nv.Err? then r == Err(BumpFailed(nv.error)) && unchanged(this)
        else if dryrun then r == Ok(BranchName(nv.value)) && unchanged(this)
        else
          var branch, id := BranchName(nv.value), |old(commits)|;
          && initfile == Some(Tools.SetModuleVarSpec(old(initfile), VersionVar, nv.value, true).value.1)
          && commits == old(commits) + [Commit(CommitMessage(nv.value), [old(target)[old(head)]], initfile)]
          && remote == old(remote) && references == old(references)
          && if branch in old(target) then
            && r == Err(BranchExists(branch))
            && head == old(head) && local == old(local) && target == old(target)[old(head) := id]
          else
            && r == Ok(branch)
            && head == branch && local == old(local) + [branch]
            && target == old(target)[old(head) := id][branch := id]
    {
      var bumped := Tools.BumpVersion(curver.GetOr(""), mode);
      if bumped.Err? {
        return Err(BumpFailed(bumped.error));
      }
      var newver := Some(bumped.value);

      var localBranches, remoteBranches, tags := ExtractBetaBranches(local, remote, references, isBeta);
      if localBranches == [] && remoteBranches == [] {
        newver := curver;
      }
      var newbranch := "beta/" + Show(newver);
      if dryrun {
        return Ok(newbranch);
      }

      var updated := Tools.SetModuleVar(initfile, VersionVar, newver, true);
      initfile := Some(updated.value.1);

      CommitInitFile("beta release " + Show(newver));

      var created := CreateBranch(newbranch);
      if !created {
        return Err(BranchExists(newbranch));
      }
      Checkout(newbranch);
      return Ok(newbranch);
    }
  }
}
