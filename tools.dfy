/** The version helpers of `setuptools_github.tools`: the version a GitHub
    action run builds, bumping a dotted version, rewriting a module-level
    variable in a source file and selecting beta branches. */
module Tools {
  import opened Wrappers
  import opened PyText
  import opened Assign

  /** The exceptions these helpers raise. */
  datatype ToolError =
    | KeyError(key: string)                 // a key missing from the GitHub dump
    | ValueError(literal: string)           // `int()` of a piece that is not a number
    | IndexError                            // too few components for the requested bump
    | InvalidGithubReference(ref: string)   // a ref that is neither master, beta nor release
    | FileNotFound                          // reading a file that does not exist
    | RuntimeError(message: string)         // a `RuntimeError` raised with this message

  // ---------------------------------------------------------------------------
  // dotted versions

  /** `[int(v) for v in pieces]`: the first piece `int()` rejects is the error. */
  function ParseAll(pieces: seq<string>): (r: Result<seq<int>, string>)
    ensures r.Ok? ==> |r.value| == |pieces|
  {
    if pieces == [] then Ok([])
    else
      match ParseInt(pieces[0])
      case None => Err(pieces[0])
      case Some(n) =>
        match ParseAll(pieces[1..])
        case Err(e) => Err(e)
        case Ok(ns) => Ok([n] + ns)
  }

  /** The pieces all parse exactly when `ParseAll` succeeds, and then each
      component is what its piece parses to. */
  lemma {:induction false} ParseAllOk(pieces: seq<string>)
    ensures ParseAll(pieces).Ok? <==> forall i :: 0 <= i < |pieces| ==> ParseInt(pieces[i]).Some?
    ensures ParseAll(pieces).Ok? ==> forall i :: 0 <= i < |pieces| ==> ParseInt(pieces[i]) == Some(ParseAll(pieces).value[i])
  {
    if pieces != [] {
      var tail := pieces[1..];
      ParseAllOk(tail);
      assert forall i :: 1 <= i < |pieces| ==> pieces[i] == tail[i - 1];
      if ParseInt(pieces[0]).Some? && ParseAll(tail).Ok? {
        var ns := ParseAll(tail).value;
        assert ParseAll(pieces).value == [ParseInt(pieces[0]).value] + ns;
      }
    }
  }

  /** A failure names the first piece that does not parse. */
  lemma {:induction false} ParseAllFirstError(pieces: seq<string>)
    requires ParseAll(pieces).Err?
    ensures exists i :: 0 <= i < |pieces| && ParseInt(pieces[i]).None? && ParseAll(pieces).error == pieces[i]
                        && forall j :: 0 <= j < i ==> ParseInt(pieces[j]).Some?
  {
    var tail := pieces[1..];
    if ParseInt(pieces[0]).None? {
      assert ParseAll(pieces).error == pieces[0];
    } else {
      assert ParseAll(tail).Err? && ParseAll(pieces).error == ParseAll(tail).error;
      ParseAllFirstError(tail);
      var i :| 0 <= i < |tail| && ParseInt(tail[i]).None? && ParseAll(tail).error == tail[i]
               && forall j :: 0 <= j < i ==> ParseInt(tail[j]).Some?;
      assert pieces[i + 1] == tail[i];
      assert forall j :: 1 <= j < i + 1 ==> pieces[j] == tail[j - 1];
    }
  }

  /** The numbers of a dotted version, or the piece that is not one. */
  function Components(version: string): Result<seq<int>, ToolError> {
    match ParseAll(Split(version, '.'))
    case Ok(cs) => Ok(cs)
    case Err(e) => Err(ValueError(e))
  }

  /** `[str(v) for v in cs]`. */
  function Texts(cs: seq<int>): (r: seq<string>)
    ensures |r| == |cs|
  {
    if cs == [] then [] else [IntToString(cs[0])] + Texts(cs[1..])
  }

  lemma {:induction false} TextsAt(cs: seq<int>)
    ensures forall i :: 0 <= i < |cs| ==> Texts(cs)[i] == IntToString(cs[i])
  {
    if cs != [] {
      TextsAt(cs[1..]);
      assert forall i :: 1 <= i < |cs| ==> cs[i] == cs[1..][i - 1];
    }
  }

  /** `".".join(str(v) for v in cs)`. */
  function Render(cs: seq<int>): string {
    Join(Texts(cs), '.')
  }

  /** `validate`: every component rewritten by `str(int(v))`. */
  function Validate(version: string): Result<string, ToolError> {
    match Components(version)
    case Ok(cs) => Ok(Render(cs))
    case Err(e) => Err(e)
  }

  lemma IntToStringHas(n: int, c: char)
    requires c != '-' && !IsDigit(c)
    ensures c !in IntToString(n)
  {
    var s := IntToString(n);
    assert forall i :: 0 <= i < |s| ==> s[i] != c;
  }

  /** A rendered version reads back as the same components. */
  lemma RenderComponents(cs: seq<int>)
    requires |cs| >= 1
    ensures Components(Render(cs)) == Ok(cs)
  {
    var ts := Texts(cs);
    TextsAt(cs);
    forall i | 0 <= i < |ts|
      ensures '.' !in ts[i] && ParseInt(ts[i]) == Some(cs[i])
    {
      IntToStringHas(cs[i], '.');
      ParseIntRoundTrip(cs[i]);
    }
    SplitJoin(ts, '.');
    ParseAllOk(ts);
    var r := ParseAll(ts);
    assert r.Ok?;
    assert r.value == cs;
  }

  /** Validating a rendered version changes nothing. */
  lemma ValidateCanonical(cs: seq<int>)
    requires |cs| >= 1
    ensures Validate(Render(cs)) == Ok(Render(cs))
  {
    RenderComponents(cs);
  }

  /** Validation is idempotent. */
  lemma ValidateIdempotent(version: string)
    requires Validate(version).Ok?
    ensures Validate(Validate(version).value) == Validate(version)
  {
    var cs := Components(version).value;
    ValidateCanonical(cs);
  }

  /** A version validates exactly when every dot-separated piece is a number
      `int()` accepts. */
  lemma ValidateAccepts(version: string)
    ensures Validate(version).Ok? <==> forall p :: p in Split(version, '.') ==> ParseInt(p).Some?
  {
    var pieces := Split(version, '.');
    ParseAllOk(pieces);
    if Validate(version).Ok? {
      forall p | p in pieces
        ensures ParseInt(p).Some?
      {
        var i :| 0 <= i < |pieces| && pieces[i] == p;
      }
    }
  }

  // ---------------------------------------------------------------------------
  // hubversion

  const MasterRef := "refs/heads/master"
  const BetaPrefix := "refs/heads/beta/"
  const ReleasePrefix := "refs/tags/release/"

  /** `hubversion(gdata, fallback)`: `(version, sha)` for an action run, the
      dump given as the text form of each of its values. */
  function Hubversion(gdata: map<string, string>, fallback: Option<string>): (r: Result<(Option<string>, string), ToolError>)
    ensures r.Ok? ==> "sha" in gdata && r.value.1 == gdata["sha"]
    ensures r == Err(KeyError("ref")) <==> "ref" !in gdata
  {
    if "ref" !in gdata then Err(KeyError("ref"))
    else if "run_number" !in gdata then Err(KeyError("run_number"))
    else if "sha" !in gdata then Err(KeyError("sha"))
    else
      var ref, number, shasum := gdata["ref"], gdata["run_number"], gdata["sha"];
      if ref == MasterRef then Ok((fallback, shasum))
      else if StartsWith(ref, BetaPrefix) then
        match Validate(RPartitionTail(ref, '/'))
        case Ok(version) => Ok((Some(version + "b" + number), shasum))
        case Err(e) => Err(e)
      else if StartsWith(ref, ReleasePrefix) then
        match Validate(RPartitionTail(ref, '/'))
        case Ok(version) => Ok((Some(version), shasum))
        case Err(e) => Err(e)
      else Err(InvalidGithubReference(ref))
  }

  /** The dump of a run on `ref`. */
  function Dump(ref: string, number: string, sha: string): map<string, string> {
    map["ref" := ref, "run_number" := number, "sha" := sha]
  }

  /** The three keys are read before anything is decided: a missing one is
      reported first, in the order ref, run_number, sha. */
  lemma HubversionMissing(gdata: map<string, string>, fallback: Option<string>)
    ensures "ref" in gdata && "run_number" !in gdata ==> Hubversion(gdata, fallback) == Err(KeyError("run_number"))
    ensures "ref" in gdata && "run_number" in gdata && "sha" !in gdata ==> Hubversion(gdata, fallback) == Err(KeyError("sha"))
  {
  }

  /** On master the fallback is the version; anywhere else the fallback plays no part. */
  lemma HubversionFallback(gdata: map<string, string>, f1: Option<string>, f2: Option<string>)
    requires "ref" in gdata && "run_number" in gdata && "sha" in gdata
    ensures gdata["ref"] == MasterRef ==> Hubversion(gdata, f1) == Ok((f1, gdata["sha"]))
    ensures gdata["ref"] != MasterRef ==> Hubversion(gdata, f1) == Hubversion(gdata, f2)
  {
  }

  /** A ref is refused as unhandled exactly when it is none of master, a beta
      branch or a release tag. */
  lemma HubversionUnhandled(gdata: map<string, string>, fallback: Option<string>)
    requires "ref" in gdata && "run_number" in gdata && "sha" in gdata
    ensures var ref := gdata["ref"];
      Hubversion(gdata, fallback) == Err(InvalidGithubReference(ref)) <==>
        ref != MasterRef && !StartsWith(ref, BetaPrefix) && !StartsWith(ref, ReleasePrefix)
  {
    var ref := gdata["ref"];
    match Validate(RPartitionTail(ref, '/'))
    case Ok(_) =>
    case Err(e) =>
      assert e.ValueError?;
  }

  lemma RenderNoSlash(cs: seq<int>)
    ensures '/' !in Render(cs)
  {
    var ts := Texts(cs);
    TextsAt(cs);
    forall i | 0 <= i < |ts|
      ensures '/' !in ts[i]
    {
      IntToStringHas(cs[i], '/');
    }
    JoinFree(ts, '.', '/');
  }

  /** The three kinds of ref exclude one another. */
  lemma RefKindsDiffer(ref: string)
    ensures StartsWith(ref, BetaPrefix) ==> ref != MasterRef
    ensures StartsWith(ref, ReleasePrefix) ==> ref != MasterRef && !StartsWith(ref, BetaPrefix)
  {
    if StartsWith(ref, BetaPrefix) {
      assert ref[11] == 'b' != MasterRef[11];
    }
    if StartsWith(ref, ReleasePrefix) {
      assert ref[5] == 't' != MasterRef[5];
    }
  }

  /** A beta branch named after a rendered version builds that version with
      the run number as its beta number. */
  lemma HubversionBeta(cs: seq<int>, number: string, sha: string, fallback: Option<string>)
    requires |cs| >= 1
    ensures Hubversion(Dump(BetaPrefix + Render(cs), number, sha), fallback)
            == Ok((Some(Render(cs) + "b" + number), sha))
  {
    var ref := BetaPrefix + Render(cs);
    assert StartsWith(ref, BetaPrefix) by { assert ref[..|BetaPrefix|] == BetaPrefix; }
    RefKindsDiffer(ref);
    RenderNoSlash(cs);
    RPartitionTailOf(BetaPrefix, Render(cs), '/');
    ValidateCanonical(cs);
  }

  /** A release tag named after a rendered version builds exactly that version. */
  lemma HubversionRelease(cs: seq<int>, number: string, sha: string, fallback: Option<string>)
    requires |cs| >= 1
    ensures Hubversion(Dump(ReleasePrefix + Render(cs), number, sha), fallback)
            == Ok((Some(Render(cs)), sha))
  {
    var ref := ReleasePrefix + Render(cs);
    assert StartsWith(ref, ReleasePrefix) by { assert ref[..|ReleasePrefix|] == ReleasePrefix; }
    RefKindsDiffer(ref);
    RenderNoSlash(cs);
    RPartitionTailOf(ReleasePrefix, Render(cs), '/');
    ValidateCanonical(cs);
  }

  // ---------------------------------------------------------------------------
  // bump_version

  /** The components after a bump: `major` bumps the third component from the
      end and zeroes the last two, `minor` bumps the second from the end and
      zeroes the last, any other mode bumps the last. */
  function Bumped(cs: seq<int>, mode: string): Result<seq<int>, ToolError>
    requires |cs| >= 1
  {
    var n := |cs|;
    if mode == "major" then
      if n < 3 then Err(IndexError) else Ok(cs[..n - 3] + [cs[n - 3] + 1, 0, 0])
    else if mode == "minor" then
      if n < 2 then Err(IndexError) else Ok(cs[..n - 2] + [cs[n - 2] + 1, 0])
    else Ok(cs[..n - 1] + [cs[n - 1] + 1])
  }

  /** What `bump_version(version, mode)` returns or raises. */
  function BumpSpec(version: string, mode: string): Result<string, ToolError> {
    match Components(version)
    case Err(e) => Err(e)
    case Ok(cs) =>
      match Bumped(cs, mode)
      case Err(e) => Err(e)
      case Ok(ns) => Ok(Render(ns))
  }

  method BumpVersion(version: string, mode: string) returns (r: Result<string, ToolError>)
    ensures r == BumpSpec(version, mode)
  {
    var parsed := ParseAll(Split(version, '.'));
    if parsed.Err? {
      return Err(ValueError(parsed.error));
    }
    var newver := BumpInPlace(parsed.value, mode);
    if newver.Err? {
      return Err(newver.error);
    }
    return Ok(Render(newver.value));
  }

  /** The list updates of `bump_version`; a negative index before the start
      of the list is an `IndexError`. */
  method BumpInPlace(cs: seq<int>, mode: string) returns (r: Result<seq<int>, ToolError>)
    requires |cs| >= 1
    ensures r == Bumped(cs, mode)
  {
    var newver := cs;
    var n := |newver|;
    if mode == "major" {
      if n < 3 {
        return Err(IndexError);
      }
      newver := newver[n - 3 := newver[n - 3] + 1];
      newver := newver[n - 2 := 0];
      newver := newver[n - 1 := 0];
      assert newver == cs[..n - 3] + [cs[n - 3] + 1, 0, 0];
    } else if mode == "minor" {
      if n < 2 {
        return Err(IndexError);
      }
      newver := newver[n - 2 := newver[n - 2] + 1];
      newver := newver[n - 1 := 0];
      assert newver == cs[..n - 2] + [cs[n - 2] + 1, 0];
    } else {
      newver := newver[n - 1 := newver[n - 1] + 1];
      assert newver == cs[..n - 1] + [cs[n - 1] + 1];
    }
    return Ok(newver);
  }

  /** `a` comes before `b`, component by component. */
  predicate Precedes(a: seq<int>, b: seq<int>) {
    exists k :: 0 <= k < |a| && k < |b| && a[..k] == b[..k] && a[k] < b[k]
  }

  /** A bump keeps the number of components and moves the version strictly
      forward: the first component it changes grows. */
  lemma BumpedForward(cs: seq<int>, mode: string)
    requires |cs| >= 1 && Bumped(cs, mode).Ok?
    ensures var ns := Bumped(cs, mode).value;
      |ns| == |cs| && Precedes(cs, ns)
  {
    var n := |cs|;
    var ns := Bumped(cs, mode).value;
    var k := if mode == "major" then n - 3 else if mode == "minor" then n - 2 else n - 1;
    assert ns[..k] == cs[..k];
    assert cs[k] < ns[k];
  }

  /** Bumping a rendered version is bumping its components; the result reads
      back as the bumped components. */
  lemma BumpRendered(cs: seq<int>, mode: string)
    requires |cs| >= 1
    ensures BumpSpec(Render(cs), mode) == (match Bumped(cs, mode) case Ok(ns) => Ok(Render(ns)) case Err(e) => Err(e))
    ensures Bumped(cs, mode).Ok? ==> Components(BumpSpec(Render(cs), mode).value) == Bumped(cs, mode)
  {
    RenderComponents(cs);
    if Bumped(cs, mode).Ok? {
      RenderComponents(Bumped(cs, mode).value);
    }
  }

  /** An information separator before a version makes `int()` and so
      `bump_version` raise, though `str.strip()` would remove it, also
      when a non-ASCII space follows the number. */
  lemma BumpSeparator()
    ensures BumpSpec("\U{1c}1.2.3", "micro") == Err(ValueError("\U{1c}1"))
    ensures BumpSpec("\U{1c}1\U{a0}.2.3", "micro") == Err(ValueError("\U{1c}1\U{a0}"))
  {
    var v := "\U{1c}1.2.3";
    assert v[1..] == "1.2.3" && v[1..][1..] == ".2.3";
    assert Split(".2.3", '.')[0] == "";
    assert Split("1.2.3", '.')[0] == "1";
    assert Split(v, '.')[0] == "\U{1c}1";
    var u := "\U{1c}1\U{a0}.2.3";
    assert u[1..] == "1\U{a0}.2.3" && u[1..][1..] == "\U{a0}.2.3" && u[1..][1..][1..] == ".2.3";
    assert Split("\U{a0}.2.3", '.')[0] == "\U{a0}";
    assert Split("1\U{a0}.2.3", '.')[0] == "1\U{a0}";
    assert Split(u, '.')[0] == "\U{1c}1\U{a0}";
    ParseIntSeparators();
  }

  // ---------------------------------------------------------------------------
  // set_module_var

  /** The line appended when the variable is missing: `f'{var} = "{value}"'`. */
  function Assignment(name: string, value: Option<string>): string {
    name + " = \"" + Show(value) + "\""
  }

  /** The text with the assignment appended, on a line of its own. */
  function Appended(txt: string, name: string, value: Option<string>): string {
    (if txt != "" && txt[|txt| - 1] != '\n' then txt + "\n" else txt) + Assignment(name, value)
  }

  /** What `set_module_var` returns (and writes back to the file) for a file
      holding `file` (`None`: the file does not exist). */
  function SetModuleVarSpec(file: Option<string>, name: string, value: Option<string>, create: bool)
    : Result<(Option<string>, string), ToolError>
  {
    if file.None? && !create then Err(FileNotFound)
    else
      var lines := Split(file.GetOr(""), '\n');
      var s := Scan(lines, Spans(lines, name, false), 0, value);
      var txt := Join(s.lines, '\n');
      if !Truthy(s.fixed) && create then Ok((s.fixed, Appended(txt, name, value)))
      else Ok((s.fixed, txt))
  }

  method SetModuleVar(file: Option<string>, name: string, value: Option<string>, create: bool)
    returns (r: Result<(Option<string>, string), ToolError>)
    ensures r == SetModuleVarSpec(file, name, value, create)
  {
    if file.None? && !create {
      return Err(FileNotFound);
    }
    var inputLines := Split(file.GetOr(""), '\n');
    ghost var spans := Spans(inputLines, name, false);
    SpansValid(inputLines, name, false);
    var fixed: Option<string> := None;
    var lines: seq<string> := [];
    var k := |inputLines|;
    while k > 0
      invariant 0 <= k <= |inputLines|
      invariant Scanned(fixed, Reverse(lines)) == Scan(inputLines, spans, k, value)
    {
      k := k - 1;
      ghost var after := Scan(inputLines, spans, k, value);
      var line := inputLines[k];
      if Truthy(fixed) {
        assert after == Scanned(fixed, [line] + Reverse(lines));
        ReverseSnoc(lines, line);
        lines := lines + [line];
        continue;
      }
      var m := Match(line, name, false);
      SpanOf(inputLines, name, false, k);
      if m.Some? {
        var (x, y) := m.value;
        fixed := Some(line[x..y]);
        if value.Some? {
          line := line[..x] + value.value + line[y..];
        }
      }
      assert after == Scanned(fixed, [line] + Reverse(lines));
      ReverseSnoc(lines, line);
      lines := lines + [line];
    }
    ghost var scanned := Scan(inputLines, spans, 0, value);
    assert fixed == scanned.fixed && Reverse(lines) == scanned.lines;
    var txt := Join(Reverse(lines), '\n');
    if !Truthy(fixed) && create {
      txt := Append(txt, name, value);
    }
    return Ok((fixed, txt));
  }

  /** The assignment added at the end, after a newline unless the text is
      empty or already ends in one. */
  method Append(txt: string, name: string, value: Option<string>) returns (r: string)
    ensures r == Appended(txt, name, value)
  {
    r := txt;
    if r != "" && r[|r| - 1] != '\n' {
      r := r + "\n";
    }
    r := r + Assignment(name, value);
  }

  /** A missing file is an error unless it may be created, and a created
      file holds just the assignment. */
  lemma SetModuleVarMissing(name: string, value: Option<string>)
    ensures SetModuleVarSpec(None, name, value, false) == Err(FileNotFound)
    ensures SetModuleVarSpec(None, name, value, true) == Ok((None, Assignment(name, value)))
  {
    var lines := Split(None.GetOr(""), '\n');
    assert lines == [""];
    var spans := Spans(lines, name, false);
    assert spans[0] == Match("", name, false) == None;
    ScanNoMatch(lines, spans, value);
    assert Join(lines, '\n') == "";
    assert Appended("", name, value) == Assignment(name, value);
    assert Scan(lines, spans, 0, value).fixed == None;
  }

  /** Asked only to read (no value) a file that holds the variable, or one it
      may not extend, `set_module_var` leaves the text as it was. */
  lemma SetModuleVarReadOnly(text: string, name: string, create: bool)
    requires var r := SetModuleVarSpec(Some(text), name, None, create); Truthy(r.value.0) || !create
    ensures SetModuleVarSpec(Some(text), name, None, create).value.1 == text
  {
    var lines := Split(text, '\n');
    ScanWithoutValue(lines, Spans(lines, name, false));
    JoinSplit(text, '\n');
  }

  /** Lines that hold no newline keep holding none when a newline-free value
      is written into them. */
  lemma ScanNoNewline(lines: seq<string>, spans: seq<Span>, value: Option<string>)
    requires ValidSpans(lines, spans)
    requires forall i :: 0 <= i < |lines| ==> '\n' !in lines[i]
    requires value.Some? ==> '\n' !in value.value
    ensures var s := Scan(lines, spans, 0, value);
      forall i :: 0 <= i < |s.lines| ==> '\n' !in s.lines[i]
  {
    ScanMeaning(lines, spans, value);
  }

  /** Writing a quote-free value into the matched span leaves a line that
      matches with the new value as its group. */
  lemma MatchRewritten(line: string, name: string, x: nat, y: nat, v: string)
    requires Match(line, name, false) == Some((x, y))
    requires forall k :: 0 <= k < |v| ==> !IsQuote(v[k])
    ensures Match(Rewrite(line, x, y, v), name, false) == Some((x, x + |v|))
  {
    MatchShape(line, name, false);
    var e := SkipSpace(line, |name|);
    var r := Rewrite(line, x, y, v);
    assert forall k :: 0 <= k < x ==> r[k] == line[k];
    assert forall k :: x <= k < x + |v| ==> r[k] == v[k - x];
    assert r[x + |v|] == line[y];
    assert StartsWith(r, name) by { assert r[..|name|] == line[..|name|]; }
    assert Shaped(r, name, false, e, x, x + |v|);
    MatchIntro(r, name, false, e, x, x + |v|);
  }

  /** The appended assignment of a value without quotes matches, with the
      value as its group. */
  lemma AssignmentMatches(name: string, v: string)
    requires forall k :: 0 <= k < |v| ==> !IsQuote(v[k])
    ensures var a := Assignment(name, Some(v)); var x := |name| + 4;
      Match(a, name, false) == Some((x, x + |v|)) && a[x..x + |v|] == v
  {
    var a := Assignment(name, Some(v));
    var x := |name| + 4;
    AssignmentShaped(name, v);
    MatchIntro(a, name, false, |name| + 1, x, x + |v|);
  }

  /** The appended assignment has the shape of the pattern, the value
      between its quotes. */
  lemma AssignmentShaped(name: string, v: string)
    requires forall k :: 0 <= k < |v| ==> !IsQuote(v[k])
    ensures var a := Assignment(name, Some(v)); var x := |name| + 4;
      Shaped(a, name, false, |name| + 1, x, x + |v|) && a[x..x + |v|] == v
  {
    var a := Assignment(name, Some(v));
    var x := |name| + 4;
    assert a == name + [' ', '=', ' ', '"'] + v + ['"'];
    assert a[..|name|] == name;
    assert forall k :: x <= k < x + |v| ==> a[k] == v[k - x];
    assert a[x..x + |v|] == v;
  }

  /** The appended assignment is the last line of the text. */
  lemma SplitAppended(txt: string, name: string, value: Option<string>)
    requires '\n' !in Assignment(name, value)
    ensures var p := Split(Appended(txt, name, value), '\n'); p[|p| - 1] == Assignment(name, value)
  {
    var a := Assignment(name, value);
    if txt == "" {
      assert Appended(txt, name, value) == a;
      SplitJoin([a], '\n');
    } else if txt[|txt| - 1] != '\n' {
      SplitSnoc(txt, a, '\n');
    } else {
      var t := txt[..|txt| - 1];
      assert txt == t + ['\n'];
      assert Appended(txt, name, value) == t + ['\n'] + a;
      SplitSnoc(t, a, '\n');
    }
  }

  /** Reading lines whose last one matches with a non-empty value finds that value. */
  lemma GetLast(lines: seq<string>, name: string)
    requires |lines| >= 1
    requires var m := Match(lines[|lines| - 1], name, false); m.Some? && m.value.0 < m.value.1
    ensures var (x, y) := Match(lines[|lines| - 1], name, false).value;
      Scan(lines, Spans(lines, name, false), 0, None).fixed == Some(lines[|lines| - 1][x..y])
  {
    var spans := Spans(lines, name, false);
    SpansValid(lines, name, false);
    var (x, y) := Match(lines[|lines| - 1], name, false).value;
    LastSpan(lines, name, x, y);
    ScanLastLine(lines, spans, x, y, None);
  }

  lemma LastSpan(lines: seq<string>, name: string, x: nat, y: nat)
    requires |lines| >= 1 && Match(lines[|lines| - 1], name, false) == Some((x, y))
    ensures Spans(lines, name, false)[|lines| - 1] == Some((x, y))
  {
  }

  /** After a scan that wrote a non-empty quote-free value over a non-empty
      one, reading the lines again finds the value written. */
  lemma GetRewritten(lines: seq<string>, name: string, v: string)
    requires v != "" && forall k :: 0 <= k < |v| ==> !IsQuote(v[k])
    requires Truthy(Scan(lines, Spans(lines, name, false), 0, Some(v)).fixed)
    ensures var after := Scan(lines, Spans(lines, name, false), 0, Some(v)).lines;
      Scan(after, Spans(after, name, false), 0, None).fixed == Some(v)
  {
    var spans := Spans(lines, name, false);
    SpansValid(lines, name, false);
    ScanMeaning(lines, spans, Some(v));
    var after := Scan(lines, spans, 0, Some(v)).lines;
    var spans2 := Spans(after, name, false);
    SpansValid(after, name, false);
    var i :| 0 <= i < |lines| && Stops(lines, spans, i);
    var m := LastSome(spans, i);
    assert Hit(lines, spans, m);
    var (x, y) := spans[m].value;
    MatchRewritten(lines[m], name, x, y, v);
    assert after[m] == Rewrite(lines[m], x, y, v);
    forall j | m < j < |after|
      ensures spans2[j].None?
    {
      assert after[j] == lines[j];
    }
    assert Captured(after, spans2, m) == v;
    ScanLast(after, spans2, m, None);
  }

  /** Writing a non-empty value without quotes or newlines and then reading
      the variable back finds that value, and the read changes nothing. */
  lemma SetThenGet(file: Option<string>, name: string, v: string)
    requires v != "" && '\n' !in v && '\n' !in name
    requires forall k :: 0 <= k < |v| ==> !IsQuote(v[k])
    ensures var txt := SetModuleVarSpec(file, name, Some(v), true).value.1;
      SetModuleVarSpec(Some(txt), name, None, false) == Ok((Some(v), txt))
  {
    var lines := Split(file.GetOr(""), '\n');
    var spans := Spans(lines, name, false);
    SpansValid(lines, name, false);
    var s := Scan(lines, spans, 0, Some(v));
    var txt := SetModuleVarSpec(file, name, Some(v), true).value.1;
    var lines2 := Split(txt, '\n');
    SpansValid(lines2, name, false);
    if !Truthy(s.fixed) {
      assert txt == Appended(Join(s.lines, '\n'), name, Some(v));
      GetAppended(Join(s.lines, '\n'), name, v);
    } else {
      assert txt == Join(s.lines, '\n');
      GetJoined(lines, name, v);
    }
    ScanWithoutValue(lines2, Spans(lines2, name, false));
    JoinSplit(txt, '\n');
  }

  /** Reading back a text with the assignment appended finds its value. */
  lemma GetAppended(txt: string, name: string, v: string)
    requires v != "" && '\n' !in v && '\n' !in name
    requires forall k :: 0 <= k < |v| ==> !IsQuote(v[k])
    ensures var lines := Split(Appended(txt, name, Some(v)), '\n');
      Scan(lines, Spans(lines, name, false), 0, None).fixed == Some(v)
  {
    assert '\n' !in Assignment(name, Some(v));
    SplitAppended(txt, name, Some(v));
    AssignmentMatches(name, v);
    GetLast(Split(Appended(txt, name, Some(v)), '\n'), name);
  }

  /** Reading back the joined lines of a scan that wrote `v` finds `v`. */
  lemma GetJoined(lines: seq<string>, name: string, v: string)
    requires v != "" && '\n' !in v
    requires forall k :: 0 <= k < |v| ==> !IsQuote(v[k])
    requires forall i :: 0 <= i < |lines| ==> '\n' !in lines[i]
    requires Truthy(Scan(lines, Spans(lines, name, false), 0, Some(v)).fixed)
    ensures var lines2 := Split(Join(Scan(lines, Spans(lines, name, false), 0, Some(v)).lines, '\n'), '\n');
      Scan(lines2, Spans(lines2, name, false), 0, None).fixed == Some(v)
  {
    var spans := Spans(lines, name, false);
    SpansValid(lines, name, false);
    var s := Scan(lines, spans, 0, Some(v));
    ScanNoNewline(lines, spans, Some(v));
    ScanLines(lines, spans, 0, Some(v));
    SplitJoin(s.lines, '\n');
    GetRewritten(lines, name, v);
  }

  /** The last index holding a span, at or after `i`. */
  function LastSome(spans: seq<Span>, i: nat): (m: nat)
    requires i < |spans| && spans[i].Some?
    ensures i <= m < |spans| && spans[m].Some?
    ensures forall j :: m < j < |spans| ==> spans[j].None?
    decreases |spans| - i
  {
    if exists j :: i < j < |spans| && spans[j].Some? then
      var j :| i < j < |spans| && spans[j].Some?;
      LastSome(spans, j)
    else i
  }

  // ---------------------------------------------------------------------------
  // extract_beta_branches

  /** `re.search(r"beta/\d+([.]\d+)*", s)` from position `p` on: the repeated
      group may match nothing, so `beta/` followed by a digit suffices. */
  predicate SearchBeta(s: string, p: nat)
    decreases |s| - p
  {
    p + 6 <= |s| && ((s[p..p + 5] == "beta/" && IsDigit(s[p + 5])) || SearchBeta(s, p + 1))
  }

  /** `beta/` and a digit at `p`. */
  predicate BetaAt(s: string, p: nat) {
    p + 6 <= |s| && s[p..p + 5] == "beta/" && IsDigit(s[p + 5])
  }

  lemma {:induction false} SearchBetaMeaning(s: string, p: nat)
    ensures SearchBeta(s, p) <==> exists q :: p <= q && BetaAt(s, q)
    decreases |s| - p
  {
    if p + 6 <= |s| {
      SearchBetaMeaning(s, p + 1);
      if !BetaAt(s, p) {
        forall q | p <= q && BetaAt(s, q)
          ensures p + 1 <= q
        {
        }
      }
    } else {
      forall q | p <= q
        ensures !BetaAt(s, q)
      {
      }
    }
  }

  /** The branch belongs to the remote asked for (any when none is) and names a beta version. */
  predicate BetaSelected(branch: string, remote: Option<string>) {
    !(Truthy(remote) && remote.value != PartitionHead(branch, '/')) && SearchBeta(branch, 0)
  }

  method ExtractBetaBranches(branches: seq<string>, remote: Option<string>) returns (result: set<string>)
    ensures forall b :: b in result <==>
      && b in branches
      && (Truthy(remote) ==> remote.value == PartitionHead(b, '/'))
      && (exists q :: BetaAt(b, q))
  {
    result := {};
    var i := 0;
    while i < |branches|
      invariant 0 <= i <= |branches|
      invariant forall b :: b in result <==> b in branches[..i] && BetaSelected(b, remote)
    {
      var branch := branches[i];
      var head := PartitionHead(branch, '/');
      assert branches[..i + 1] == branches[..i] + [branch];
      if Truthy(remote) && remote.value != head {
        i := i + 1;
        continue;
      }
      if SearchBeta(branch, 0) {
        result := result + {branch};
      }
      i := i + 1;
    }
    assert branches[..i] == branches;
    forall b
      ensures BetaSelected(b, remote) <==> (Truthy(remote) ==> remote.value == PartitionHead(b, '/')) && exists q :: BetaAt(b, q)
    {
      SearchBetaMeaning(b, 0);
    }
  }
}
