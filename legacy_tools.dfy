/** The older `setuptools.github.tools` module: the same action-run version
    as `Tools.Hubversion` with a different error for an unhandled ref, and
    `initversion`, which rewrites `var = "value"` in a source file with a
    pattern that only takes non-empty values. */
module LegacyTools {
  import opened Wrappers
  import opened PyText
  import opened Assign
  import opened Tools

  // ---------------------------------------------------------------------------
  // hubversion

  /** `hubversion(gdata, fallback)` of the older module: `(version, sha)` for
      an action run; a ref it does not handle raises `RuntimeError`. */
  function Hubversion(gdata: map<string, string>, fallback: Option<string>): (r: Result<(Option<string>, string), ToolError>)
    ensures r.Ok? ==> "sha" in gdata && r.value.1 == gdata["sha"]
    ensures r.Err? && r.error.RuntimeError? ==>
      "ref" in gdata && "run_number" in gdata && "sha" in gdata && r.error.message == UnhandledRef
  {
    if "ref" !in gdata then Err(KeyError("ref"))
    else if "run_number" !in gdata then Err(KeyError("run_number"))
    else if "sha" !in gdata then Err(KeyError("sha"))
    else
      var ref, number, shasum := gdata["ref"], gdata["run_number"], gdata["sha"];
      if ref == MasterRef then Ok((fallback, shasum))
      else if StartsWith(ref, BetaPrefix) then
        match Validate(RPartitionTail(ref, '/'))
        case Ok(version) => Ok((Some(version + "b" + number), shasum))
        case Err(e) => Err(e)
      else if StartsWith(ref, ReleasePrefix) then
        match Validate(RPartitionTail(ref, '/'))
        case Ok(version) => Ok((Some(version), shasum))
        case Err(e) => Err(e)
      else Err(RuntimeError(UnhandledRef))
  }

  const UnhandledRef := "unhandled github ref"

  /** The two modules agree on every dump: the same version, the same
      missing key, the same rejected component; only an unhandled ref is
      reported differently. */
  lemma HubversionLikeTools(gdata: map<string, string>, fallback: Option<string>)
    ensures var old_, new_ := Hubversion(gdata, fallback), Tools.Hubversion(gdata, fallback);
      if new_.Err? && new_.error.InvalidGithubReference? then old_ == Err(RuntimeError(UnhandledRef))
      else old_ == new_
  {
  }

  // ---------------------------------------------------------------------------
  // initversion

  /** What `initversion` returns for a file holding `file` (`None`: the file
      does not exist): the value of the last assignment with a non-empty
      value and the text with that value replaced. Lines are split and
      joined with `os.linesep`, taken here as `"\n"`. */
  function InitVersionSpec(file: Option<string>, name: string, value: Option<string>)
    : Result<(Option<string>, string), ToolError>
  {
    if file.None? then Err(FileNotFound)
    else
      var lines := Split(file.value, '\n');
      var s := Scan(lines, Spans(lines, name, true), 0, value);
      Ok((s.fixed, Join(s.lines, '\n')))
  }

  /** `initversion(initfile, var, value, inplace)`; `written` is what is
      written back to the file, which happens only with `inplace`. */
  method InitVersion(file: Option<string>, name: string, value: Option<string>, inplace: bool)
    returns (r: Result<(Option<string>, string), ToolError>, written: Option<string>)
    ensures r == InitVersionSpec(file, name, value)
    ensures written == if inplace && r.Ok? then Some(r.value.1) else None
  {
    if file.None? {
      return Err(FileNotFound), None;
    }
    var inputLines := Split(file.value, '\n');
    ghost var spans := Spans(inputLines, name, true);
    SpansValid(inputLines, name, true);
    var fixed: Option<string> := None;
    var lines: seq<string> := [];
    var k := |inputLines|;
    while k > 0
      invariant 0 <= k <= |inputLines|
      invariant Scanned(fixed, Reverse(lines)) == Scan(inputLines, spans, k, value)
    {
      k := k - 1;
      ghost var after := Scan(inputLines, spans, k, value);
      var line := inputLines[k];
      if Truthy(fixed) {
        assert after == Scanned(fixed, [line] + Reverse(lines));
        ReverseSnoc(lines, line);
        lines := lines + [line];
        continue;
      }
      var m := Match(line, name, true);
      SpanOf(inputLines, name, true, k);
      if m.Some? {
        var (x, y) := m.value;
        fixed := Some(line[x..y]);
        if value.Some? {
          line := line[..x] + value.value + line[y..];
        }
      }
      assert after == Scanned(fixed, [line] + Reverse(lines));
      ReverseSnoc(lines, line);
      lines := lines + [line];
    }
    ghost var scanned := Scan(inputLines, spans, 0, value);
    assert fixed == scanned.fixed && Reverse(lines) == scanned.lines;
    var txt := Join(Reverse(lines), '\n');
    written := if inplace then Some(txt) else None;
    r := Ok((fixed, txt));
  }

  /** Every match of the `+` pattern has a non-empty value, so the scan
      stops at the first one it meets. */
  lemma SpansStop(lines: seq<string>, name: string)
    ensures var spans := Spans(lines, name, true);
      ValidSpans(lines, spans) &&
      forall j :: 0 <= j < |lines| && spans[j].Some? ==> Stops(lines, spans, j)
  {
    var spans := Spans(lines, name, true);
    SpansValid(lines, name, true);
    forall j | 0 <= j < |lines| && spans[j].Some?
      ensures Stops(lines, spans, j)
    {
      MatchShape(lines[j], name, true);
    }
  }

  lemma InitVersionMissing(name: string, value: Option<string>)
    ensures InitVersionSpec(None, name, value) == Err(FileNotFound)
  {
  }

  /** A text in which no line matches comes back as it was, with no value. */
  lemma InitVersionUntouched(text: string, name: string, value: Option<string>)
    requires forall line :: line in Split(text, '\n') ==> Match(line, name, true).None?
    ensures InitVersionSpec(Some(text), name, value) == Ok((None, text))
  {
    var lines := Split(text, '\n');
    var spans := Spans(lines, name, true);
    SpansValid(lines, name, true);
    forall i | 0 <= i < |lines|
      ensures spans[i].None?
    {
      assert lines[i] in lines;
      assert spans[i] == Match(lines[i], name, true);
    }
    ScanNoMatch(lines, spans, value);
    JoinSplit(text, '\n');
  }

  /** Without a value the text comes back as it was. */
  lemma InitVersionReadOnly(text: string, name: string)
    ensures InitVersionSpec(Some(text), name, None).value.1 == text
  {
    var lines := Split(text, '\n');
    SpansValid(lines, name, true);
    ScanWithoutValue(lines, Spans(lines, name, true));
    JoinSplit(text, '\n');
  }

  /** When line `m` is the last that matches, its value is the one reported
      and the text is rewritten on that line alone, in the value's span. */
  lemma InitVersionLast(text: string, name: string, m: nat, v: string)
    requires var lines := Split(text, '\n');
      && m < |lines| && Match(lines[m], name, true).Some?
      && forall j :: m < j < |lines| ==> Match(lines[j], name, true).None?
    ensures var lines := Split(text, '\n');
      var (x, y) := Match(lines[m], name, true).value;
      InitVersionSpec(Some(text), name, Some(v))
        == Ok((Some(lines[m][x..y]), Join(lines[m := Rewrite(lines[m], x, y, v)], '\n')))
  {
    var lines := Split(text, '\n');
    var spans := Spans(lines, name, true);
    SpansStop(lines, name);
    ScanNonEmpty(lines, spans, m, v);
  }

  /** A line assigning one plain name matches no other plain name, before
      or after its value is rewritten. */
  lemma OtherUnaffected(line: string, name: string, other: string, v: string)
    requires IsPlainName(name) && IsPlainName(other) && name != other
    requires Match(line, name, true).Some?
    ensures var (x, y) := Match(line, name, true).value;
      Match(line, other, true).None? && Match(Rewrite(line, x, y, v), other, true).None?
  {
    var (x, y) := Match(line, name, true).value;
    MatchPrefix(line, name, true);
    NoCrossMatch(line, name, other, true);
    RewriteKeepsPrefix(line, name, true, v);
    NoCrossMatch(Rewrite(line, x, y, v), name, other, true);
  }

  /** Line `i` after the rewrite of `name` matches `other` as it did before,
      and a line that matches `other` is not rewritten. */
  lemma OtherLine(lines: seq<string>, name: string, other: string, v: string, i: nat)
    requires IsPlainName(name) && IsPlainName(other) && name != other
    requires i < |lines|
    ensures ValidSpans(lines, Spans(lines, name, true))
    ensures var rewritten := After(lines, Spans(lines, name, true), i, Some(v));
      && Match(rewritten, other, true) == Match(lines[i], other, true)
      && (Match(lines[i], other, true).Some? ==> rewritten == lines[i])
  {
    SpansValid(lines, name, true);
    SpanOf(lines, name, true, i);
    if Match(lines[i], name, true).Some? {
      OtherUnaffected(lines[i], name, other, v);
    }
  }

  /** Rewriting one plain name leaves what is read for another plain name
      unchanged: the rewritten text has the same lines, each matching the
      other name as before, and the lines that match it are untouched. */
  lemma InitVersionOther(text: string, name: string, other: string, v: string)
    requires IsPlainName(name) && IsPlainName(other) && name != other
    requires '\n' !in v
    ensures var written := InitVersionSpec(Some(text), name, Some(v)).value.1;
      InitVersionSpec(Some(written), other, None).value.0
        == InitVersionSpec(Some(text), other, None).value.0
    ensures var lines, after := Split(text, '\n'), Split(InitVersionSpec(Some(text), name, Some(v)).value.1, '\n');
      && |after| == |lines|
      && Spans(after, other, true) == Spans(lines, other, true)
      && forall i :: 0 <= i < |lines| && Spans(lines, other, true)[i].Some? ==> after[i] == lines[i]
  {
    var lines := Split(text, '\n');
    OtherSpans(lines, name, other, v);
    var after := Scan(lines, Spans(lines, name, true), 0, Some(v)).lines;
    var others := Spans(lines, other, true);
    SpansValid(lines, other, true);
    SpansValid(after, other, true);
    ScanFixedSame(after, lines, others, 0, None);
  }

  /** The lines after the rewrite of `name`: as many as before, free of
      newlines, matching `other` as before, and unchanged where they match it. */
  lemma OtherSpans(lines: seq<string>, name: string, other: string, v: string)
    requires IsPlainName(name) && IsPlainName(other) && name != other
    requires '\n' !in v && |lines| >= 1
    requires forall i :: 0 <= i < |lines| ==> '\n' !in lines[i]
    ensures ValidSpans(lines, Spans(lines, name, true))
    ensures var after := Scan(lines, Spans(lines, name, true), 0, Some(v)).lines;
      && |after| == |lines|
      && Split(Join(after, '\n'), '\n') == after
      && Spans(after, other, true) == Spans(lines, other, true)
      && forall i :: 0 <= i < |lines| && Spans(lines, other, true)[i].Some? ==> after[i] == lines[i]
  {
    var spans := Spans(lines, name, true);
    SpansValid(lines, name, true);
    ScanMeaning(lines, spans, Some(v));
    ScanNoNewline(lines, spans, Some(v));
    var after := Scan(lines, spans, 0, Some(v)).lines;
    SplitJoin(after, '\n');
    var others := Spans(lines, other, true);
    forall i | 0 <= i < |lines|
      ensures Spans(after, other, true)[i] == others[i]
      ensures others[i].Some? ==> after[i] == lines[i]
    {
      assert after[i] == After(lines, spans, i, Some(v));
      OtherLine(lines, name, other, v, i);
      SpanOf(after, other, true, i);
      SpanOf(lines, other, true, i);
    }
    assert Spans(after, other, true) == others;
  }

  /** Two rewrites of different plain names, one after the other, as an
      `inplace` rewrite of `__version__` followed by one of `__hash__`:
      the second reports the other name's value, and the text ends up with
      the last assignment of each name rewritten and every other line as it
      was. */
  lemma InitVersionTwice(text: string, name: string, other: string, v: string, w: string, m: nat, n: nat)
    requires IsPlainName(name) && IsPlainName(other) && name != other
    requires '\n' !in v
    requires var lines := Split(text, '\n');
      && m < |lines| && Match(lines[m], name, true).Some?
      && (forall j :: m < j < |lines| ==> Match(lines[j], name, true).None?)
      && n < |lines| && Match(lines[n], other, true).Some?
      && (forall j :: n < j < |lines| ==> Match(lines[j], other, true).None?)
    ensures var lines := Split(text, '\n');
      var (x, y) := Match(lines[m], name, true).value;
      var (p, q) := Match(lines[n], other, true).value;
      var first := InitVersionSpec(Some(text), name, Some(v)).value.1;
      && m != n
      && InitVersionSpec(Some(first), other, Some(w))
           == Ok((Some(lines[n][p..q]), Join(lines[m := Rewrite(lines[m], x, y, v)][n := Rewrite(lines[n], p, q, w)], '\n')))
  {
    var lines := Split(text, '\n');
    var (x, y) := Match(lines[m], name, true).value;
    OtherUnaffected(lines[m], name, other, v);
    InitVersionLast(text, name, m, v);
    var first := InitVersionSpec(Some(text), name, Some(v)).value.1;
    var once := lines[m := Rewrite(lines[m], x, y, v)];
    assert first == Join(once, '\n');
    forall i | 0 <= i < |once|
      ensures '\n' !in once[i]
    {
      if i == m {
        assert once[i] == lines[m][..x] + v + lines[m][y..];
      }
    }
    SplitJoin(once, '\n');
    InitVersionOther(text, name, other, v);
    var after := Split(first, '\n');
    assert after == once;
    SpansValid(lines, other, true);
    SpansValid(after, other, true);
    SpanOf(lines, other, true, n);
    SpanOf(after, other, true, n);
    forall j | n < j < |after|
      ensures Match(after[j], other, true).None?
    {
      SpanOf(lines, other, true, j);
      SpanOf(after, other, true, j);
    }
    InitVersionLast(first, other, n, w);
  }
}
