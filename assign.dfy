/** The module-level assignment `name = "value"` that both version rewriters
    look for, and the reverse line scan both of them run: lines are visited
    from the last to the first; every matching line is rewritten while no
    non-empty value has been found yet, and the scan stops looking once one
    has been found. */
module Assign {
  import opened Wrappers
  import opened PyText

  predicate IsQuote(c: char) {
    c == '"' || c == '\''
  }

  /** The first index at or after `i` that is not whitespace: the regex's `\s*`. */
  function SkipSpace(s: string, i: nat): (j: nat)
    requires i <= |s|
    ensures i <= j <= |s|
    decreases |s| - i
  {
    if i < |s| && IsSpace(s[i]) then SkipSpace(s, i + 1) else i
  }

  /** `SkipSpace` passes blanks only and stops at the first other character. */
  lemma {:induction false} SkipSpaceFacts(s: string, i: nat)
    requires i <= |s|
    ensures var j := SkipSpace(s, i);
      (forall k :: i <= k < j ==> IsSpace(s[k])) && (j == |s| || !IsSpace(s[j]))
    decreases |s| - i
  {
    if i < |s| && IsSpace(s[i]) {
      SkipSpaceFacts(s, i + 1);
    }
  }

  /** The first quote at or after `i`: the regex's `[^"']*`. */
  function SkipValue(s: string, i: nat): (j: nat)
    requires i <= |s|
    ensures i <= j <= |s|
    decreases |s| - i
  {
    if i < |s| && !IsQuote(s[i]) then SkipValue(s, i + 1) else i
  }

  /** `SkipValue` passes characters other than quotes and stops at the first quote. */
  lemma {:induction false} SkipValueFacts(s: string, i: nat)
    requires i <= |s|
    ensures var j := SkipValue(s, i);
      (forall k :: i <= k < j ==> !IsQuote(s[k])) && (j == |s| || IsQuote(s[j]))
    decreases |s| - i
  {
    if i < |s| && !IsQuote(s[i]) {
      SkipValueFacts(s, i + 1);
    }
  }

  /** `re.search` of `^{name}\s*=\s*['"](?P<value>[^"']*)['"]` on one line, or of
      the same pattern with `[^"']+` when `nonEmpty`: the span of the value
      group. The name is matched literally. */
  function Match(line: string, name: string, nonEmpty: bool): (r: Option<(nat, nat)>)
    ensures r.Some? ==> r.value.0 <= r.value.1 < |line|
  {
    if !StartsWith(line, name) then None
    else
      var e := SkipSpace(line, |name|);
      if e == |line| || line[e] != '=' then None
      else
        var q := SkipSpace(line, e + 1);
        if q == |line| || !IsQuote(line[q]) then None
        else
          var y := SkipValue(line, q + 1);
          if y == |line| || (nonEmpty && y == q + 1) then None
          else Some((q + 1, y))
  }

  predicate AllSpace(s: string, i: nat, j: nat)
    requires i <= j <= |s|
  {
    forall k :: i <= k < j ==> IsSpace(s[k])
  }

  /** What the regular expression means, with `e` the position of `=`:
      `line` starts with `name`, then blanks, `=`, blanks, a quote, the
      quote-free value `line[x..y]` and a quote; anything may follow. */
  predicate Shaped(line: string, name: string, nonEmpty: bool, e: nat, x: nat, y: nat) {
    && |name| <= e && e + 2 <= x <= y < |line|
    && StartsWith(line, name)
    && AllSpace(line, |name|, e) && line[e] == '='
    && AllSpace(line, e + 1, x - 1) && IsQuote(line[x - 1])
    && (forall k :: x <= k < y ==> !IsQuote(line[k])) && IsQuote(line[y])
    && (nonEmpty ==> x < y)
  }

  ghost predicate Matches(line: string, name: string, nonEmpty: bool, x: nat, y: nat) {
    exists e :: Shaped(line, name, nonEmpty, e, x, y)
  }

  lemma SkipSpaceStops(s: string, i: nat, j: nat)
    requires i <= j <= |s| && AllSpace(s, i, j) && (j == |s| || !IsSpace(s[j]))
    ensures SkipSpace(s, i) == j
  {
    SkipSpaceFacts(s, i);
    var r := SkipSpace(s, i);
    assert r < |s| ==> !IsSpace(s[r]);
    assert j < |s| ==> !IsSpace(s[j]);
  }

  lemma SkipValueStops(s: string, i: nat, j: nat)
    requires i <= j < |s| && IsQuote(s[j])
    requires forall k :: i <= k < j ==> !IsQuote(s[k])
    ensures SkipValue(s, i) == j
  {
    SkipValueFacts(s, i);
    var r := SkipValue(s, i);
    assert r < |s| ==> IsQuote(s[r]);
  }

  /** A successful match has the shape the regular expression describes,
      with `=` where the first run of blanks ends. */
  lemma MatchShape(line: string, name: string, nonEmpty: bool)
    requires Match(line, name, nonEmpty).Some?
    ensures var (x, y) := Match(line, name, nonEmpty).value;
      Shaped(line, name, nonEmpty, SkipSpace(line, |name|), x, y)
  {
    var e := SkipSpace(line, |name|);
    SkipSpaceFacts(line, |name|);
    SkipSpaceFacts(line, e + 1);
    SkipValueFacts(line, SkipSpace(line, e + 1) + 1);
  }

  /** A line of the shape the regular expression describes matches. */
  lemma MatchIntro(line: string, name: string, nonEmpty: bool, e: nat, x: nat, y: nat)
    requires Shaped(line, name, nonEmpty, e, x, y)
    ensures Match(line, name, nonEmpty) == Some((x, y))
  {
    assert !IsSpace(line[e]) && !IsSpace(line[x - 1]);
    SkipSpaceStops(line, |name|, e);
    SkipSpaceStops(line, e + 1, x - 1);
    SkipValueStops(line, x, y);
  }

  /** `Match` finds exactly the spans the regular expression describes. */
  lemma MatchMeaning(line: string, name: string, nonEmpty: bool, x: nat, y: nat)
    ensures Match(line, name, nonEmpty) == Some((x, y)) <==> Matches(line, name, nonEmpty, x, y)
  {
    if Match(line, name, nonEmpty) == Some((x, y)) {
      MatchShape(line, name, nonEmpty);
    }
    if Matches(line, name, nonEmpty, x, y) {
      var e :| Shaped(line, name, nonEmpty, e, x, y);
      MatchIntro(line, name, nonEmpty, e, x, y);
    }
  }

  /** With `+` for the value an empty-valued assignment never matches; a
      non-empty one matches both patterns alike. */
  lemma NonEmptyPattern(line: string, name: string)
    ensures Match(line, name, true) ==
      (match Match(line, name, false)
       case Some((x, y)) => if x < y then Some((x, y)) else None
       case None => None)
  {
  }

  /** A matching line keeps its prefix up to the value, so it starts with
      `name` followed by a blank or `=`. */
  lemma MatchPrefix(line: string, name: string, nonEmpty: bool)
    requires Match(line, name, nonEmpty).Some?
    ensures |name| < |line| && StartsWith(line, name)
    ensures IsSpace(line[|name|]) || line[|name|] == '='
  {
  }

  /** A name without blanks or `=` in it. */
  predicate IsPlainName(name: string) {
    forall i :: 0 <= i < |name| ==> !IsSpace(name[i]) && name[i] != '='
  }

  /** A line that starts with one plain name followed by a blank or `=`
      cannot match a different plain name. */
  lemma NoCrossMatch(line: string, name: string, other: string, nonEmpty: bool)
    requires IsPlainName(name) && IsPlainName(other) && name != other
    requires |name| < |line| && StartsWith(line, name)
    requires IsSpace(line[|name|]) || line[|name|] == '='
    ensures Match(line, other, nonEmpty).None?
  {
    if |other| < |name| {
      assert line[|other|] == name[|other|];
      if StartsWith(line, other) {
        SkipSpaceStops(line, |other|, |other|);
      }
    } else if |other| > |name| {
      assert line[|name|] != other[|name|];
      assert !StartsWith(line, other);
    } else {
      assert line[..|other|] == name;
    }
  }

  /** `line[:x] + value + line[y:]`. */
  function Rewrite(line: string, x: nat, y: nat, v: string): string
    requires x <= y <= |line|
  {
    line[..x] + v + line[y..]
  }

  /** A rewritten line still starts with everything before the value. */
  lemma RewriteKeepsPrefix(line: string, name: string, nonEmpty: bool, v: string)
    requires Match(line, name, nonEmpty).Some?
    ensures var (x, y) := Match(line, name, nonEmpty).value;
            var r := Rewrite(line, x, y, v);
            |name| < |r| && StartsWith(r, name) && (IsSpace(r[|name|]) || r[|name|] == '=')
  {
    MatchPrefix(line, name, nonEmpty);
    var (x, y) := Match(line, name, nonEmpty).value;
    var r := Rewrite(line, x, y, v);
    assert r[..x] == line[..x];
    assert r[..|name|] == line[..x][..|name|];
  }

  // ---------------------------------------------------------------------------
  // the reverse scan

  type Span = Option<(nat, nat)>

  /** The span the pattern finds on every line. */
  function Spans(lines: seq<string>, name: string, nonEmpty: bool): (r: seq<Span>)
    ensures |r| == |lines|
  {
    seq(|lines|, i requires 0 <= i < |lines| => Match(lines[i], name, nonEmpty))
  }

  /** One span per line, each inside its line. */
  predicate ValidSpans(lines: seq<string>, spans: seq<Span>) {
    && |spans| == |lines|
    && forall i :: 0 <= i < |lines| && spans[i].Some? ==> spans[i].value.0 <= spans[i].value.1 <= |lines[i]|
  }

  lemma SpansValid(lines: seq<string>, name: string, nonEmpty: bool)
    ensures ValidSpans(lines, Spans(lines, name, nonEmpty))
  {
  }

  lemma SpanOf(lines: seq<string>, name: string, nonEmpty: bool, k: nat)
    requires k < |lines|
    ensures Spans(lines, name, nonEmpty)[k] == Match(lines[k], name, nonEmpty)
  {
  }

  /** The value found so far (`fixed`) and the visited lines, in file order. */
  datatype Scanned = Scanned(fixed: Option<string>, lines: seq<string>)

  /** The state of the reverse scan once it has visited `lines[k..]`, last
      line first, where `spans[i]` is what the pattern finds on `lines[i]`. */
  function Scan(lines: seq<string>, spans: seq<Span>, k: nat, value: Option<string>): Scanned
    requires ValidSpans(lines, spans) && k <= |lines|
    decreases |lines| - k
  {
    if k == |lines| then Scanned(None, [])
    else
      var s := Scan(lines, spans, k + 1, value);
      if Truthy(s.fixed) then Scanned(s.fixed, [lines[k]] + s.lines)
      else
        match spans[k]
        case None => Scanned(s.fixed, [lines[k]] + s.lines)
        case Some((x, y)) =>
          var line := if value.Some? then Rewrite(lines[k], x, y, value.value) else lines[k];
          Scanned(Some(lines[k][x..y]), [line] + s.lines)
  }

  /** The value captured on line `i`. */
  function Captured(lines: seq<string>, spans: seq<Span>, i: nat): string
    requires ValidSpans(lines, spans) && i < |lines| && spans[i].Some?
  {
    var (x, y) := spans[i].value;
    lines[i][x..y]
  }

  /** Line `i` matches with a non-empty value: the scan stops looking there. */
  predicate Stops(lines: seq<string>, spans: seq<Span>, i: nat)
    requires ValidSpans(lines, spans) && i < |lines|
  {
    spans[i].Some? && spans[i].value.0 < spans[i].value.1
  }

  /** No line after `i` stops the scan, so the scan still examines line `i`. */
  predicate Reached(lines: seq<string>, spans: seq<Span>, i: nat)
    requires ValidSpans(lines, spans) && i < |lines|
  {
    forall j :: i < j < |lines| ==> !Stops(lines, spans, j)
  }

  /** Line `i` is one the scan treats as the assignment. */
  predicate Hit(lines: seq<string>, spans: seq<Span>, i: nat)
    requires ValidSpans(lines, spans) && i < |lines|
  {
    Reached(lines, spans, i) && spans[i].Some?
  }

  /** Line `i` as the scan leaves it. */
  function After(lines: seq<string>, spans: seq<Span>, i: nat, value: Option<string>): string
    requires ValidSpans(lines, spans) && i < |lines|
  {
    if Hit(lines, spans, i) && value.Some? then
      var (x, y) := spans[i].value;
      Rewrite(lines[i], x, y, value.value)
    else lines[i]
  }

  /** What the scan reports: nothing when no line matches; a non-empty
      value exactly when some line matches with one, and then the value of
      the last such line. */
  lemma {:induction false} ScanFixed(lines: seq<string>, spans: seq<Span>, k: nat, value: Option<string>)
    requires ValidSpans(lines, spans) && k <= |lines|
    ensures var f := Scan(lines, spans, k, value).fixed;
      && (f.None? <==> forall i :: k <= i < |lines| ==> spans[i].None?)
      && (Truthy(f) <==> exists i :: k <= i < |lines| && Stops(lines, spans, i))
      && (forall i :: k <= i < |lines| && Stops(lines, spans, i) && Reached(lines, spans, i)
            ==> f == Some(Captured(lines, spans, i)))
    decreases |lines| - k
  {
    if k < |lines| {
      ScanFixed(lines, spans, k + 1, value);
      var r := Scan(lines, spans, k + 1, value).fixed;
      var f := Scan(lines, spans, k, value).fixed;
      if Truthy(r) {
        var j :| k + 1 <= j < |lines| && Stops(lines, spans, j);
        assert !Reached(lines, spans, k);
        assert f == r;
      } else {
        assert Reached(lines, spans, k);
        assert forall i :: k < i < |lines| ==> !Stops(lines, spans, i);
        if spans[k].Some? {
          assert f == Some(Captured(lines, spans, k));
          assert |Captured(lines, spans, k)| == spans[k].value.1 - spans[k].value.0;
          assert Truthy(f) <==> Stops(lines, spans, k);
        } else {
          assert f == r;
        }
      }
    }
  }

  /** What the scan leaves: the same number of lines, each as `After` says. */
  lemma {:induction false} ScanLines(lines: seq<string>, spans: seq<Span>, k: nat, value: Option<string>)
    requires ValidSpans(lines, spans) && k <= |lines|
    ensures var s := Scan(lines, spans, k, value);
      && |s.lines| == |lines| - k
      && (forall i :: k <= i < |lines| ==> s.lines[i - k] == After(lines, spans, i, value))
    decreases |lines| - k
  {
    if k < |lines| {
      ScanLines(lines, spans, k + 1, value);
      ScanFixed(lines, spans, k + 1, value);
      var r := Scan(lines, spans, k + 1, value);
      var s := Scan(lines, spans, k, value);
      if Truthy(r.fixed) {
        var j :| k + 1 <= j < |lines| && Stops(lines, spans, j);
        assert !Reached(lines, spans, k);
      } else {
        assert Reached(lines, spans, k);
      }
      assert s.lines[0] == After(lines, spans, k, value);
      assert s.lines == [s.lines[0]] + r.lines;
      forall i | k < i < |lines|
        ensures s.lines[i - k] == After(lines, spans, i, value)
      {
        assert s.lines[i - k] == r.lines[i - (k + 1)];
      }
    }
  }

  /** What the whole scan does, line by line: it keeps the line count,
      rewrites the value span of exactly the matching lines that no later
      non-empty match hides, and reports the value of the last matching line
      it examined. */
  lemma ScanMeaning(lines: seq<string>, spans: seq<Span>, value: Option<string>)
    requires ValidSpans(lines, spans)
    ensures var s := Scan(lines, spans, 0, value);
      && |s.lines| == |lines|
      && (forall i :: 0 <= i < |lines| ==> s.lines[i] == After(lines, spans, i, value))
      && (s.fixed.None? <==> forall i :: 0 <= i < |lines| ==> spans[i].None?)
      && (Truthy(s.fixed) <==> exists i :: 0 <= i < |lines| && Stops(lines, spans, i))
      && (forall i :: 0 <= i < |lines| && Stops(lines, spans, i) && Reached(lines, spans, i)
            ==> s.fixed == Some(Captured(lines, spans, i)))
  {
    ScanLines(lines, spans, 0, value);
    ScanFixed(lines, spans, 0, value);
  }

  /** Without a value to write the scan leaves every line as it was. */
  lemma ScanWithoutValue(lines: seq<string>, spans: seq<Span>)
    requires ValidSpans(lines, spans)
    ensures Scan(lines, spans, 0, None).lines == lines
  {
    ScanLines(lines, spans, 0, None);
    var s := Scan(lines, spans, 0, None);
    assert forall i :: 0 <= i < |lines| ==> s.lines[i] == After(lines, spans, i, None);
  }

  /** When no line matches, nothing is found and nothing changes. */
  lemma ScanNoMatch(lines: seq<string>, spans: seq<Span>, value: Option<string>)
    requires ValidSpans(lines, spans)
    requires forall i :: 0 <= i < |lines| ==> spans[i].None?
    ensures Scan(lines, spans, 0, value) == Scanned(None, lines)
  {
    ScanMeaning(lines, spans, value);
  }

  /** The last matching line is always examined, and a non-empty value on it
      is the one reported. */
  lemma ScanLast(lines: seq<string>, spans: seq<Span>, m: nat, value: Option<string>)
    requires ValidSpans(lines, spans) && m < |lines| && spans[m].Some?
    requires forall j :: m < j < |lines| ==> spans[j].None?
    ensures Hit(lines, spans, m)
    ensures Stops(lines, spans, m) ==> Scan(lines, spans, 0, value).fixed == Some(Captured(lines, spans, m))
  {
    ScanFixed(lines, spans, 0, value);
  }

  /** A last line that matches with a non-empty value gives the value found. */
  lemma ScanLastLine(lines: seq<string>, spans: seq<Span>, x: nat, y: nat, value: Option<string>)
    requires ValidSpans(lines, spans) && |lines| >= 1
    requires spans[|lines| - 1] == Some((x, y)) && x < y
    ensures x <= y <= |lines[|lines| - 1]|
    ensures Scan(lines, spans, 0, value).fixed == Some(lines[|lines| - 1][x..y])
  {
    ScanLast(lines, spans, |lines| - 1, value);
  }

  /** When every match has a non-empty value (the `+` pattern), the scan
      reports the value of the last matching line and rewrites that line
      alone. */
  lemma ScanNonEmpty(lines: seq<string>, spans: seq<Span>, m: nat, v: string)
    requires ValidSpans(lines, spans) && m < |lines| && spans[m].Some?
    requires forall j :: m < j < |lines| ==> spans[j].None?
    requires forall j :: 0 <= j < |lines| && spans[j].Some? ==> Stops(lines, spans, j)
    ensures var s := Scan(lines, spans, 0, Some(v));
      var (x, y) := spans[m].value;
      && s.fixed == Some(lines[m][x..y])
      && s.lines == lines[m := Rewrite(lines[m], x, y, v)]
  {
    ScanMeaning(lines, spans, Some(v));
    var s := Scan(lines, spans, 0, Some(v));
    forall i | 0 <= i < |lines| && i != m
      ensures s.lines[i] == lines[i]
    {
      if i < m {
        assert !Reached(lines, spans, i);
      }
    }
  }

  /** The value the scan reports depends only on the spans and on the lines
      that hold one. */
  lemma {:induction false} ScanFixedSame(l1: seq<string>, l2: seq<string>, spans: seq<Span>, k: nat, value: Option<string>)
    requires ValidSpans(l1, spans) && ValidSpans(l2, spans) && k <= |l1|
    requires forall i :: 0 <= i < |l1| && spans[i].Some? ==> l1[i] == l2[i]
    ensures Scan(l1, spans, k, value).fixed == Scan(l2, spans, k, value).fixed
    decreases |l1| - k
  {
    if k < |l1| {
      ScanFixedSame(l1, l2, spans, k + 1, value);
    }
  }
}
