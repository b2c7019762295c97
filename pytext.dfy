/** The pieces of Python's `str` and `int` behaviour that the release helpers
    rely on: whitespace, `split`/`join`, `strip`, `partition`/`rpartition`,
    `str(int)` and `int(str)`. */
module PyText {
  import opened Wrappers

  /** The characters `str.isspace()` accepts; `str.strip()` with no argument
      and the regular-expression class `\s` of a `str` pattern use this set. */
  predicate IsSpace(c: char) {
    c == ' ' || ('\t' <= c <= '\r') || ('\U{1c}' <= c <= '\U{1f}')
    || c == '\U{85}' || c == '\U{a0}' || c == '\U{1680}'
    || ('\U{2000}' <= c <= '\U{200a}') || c == '\U{2028}' || c == '\U{2029}'
    || c == '\U{202f}' || c == '\U{205f}' || c == '\U{3000}'
  }

  /** An ASCII decimal digit: what `\d` and `int()` accept in this model. */
  predicate IsDigit(c: char) {
    '0' <= c <= '9'
  }

  /** `not s.strip()`: the text holds whitespace only. */
  predicate IsBlank(s: string) {
    forall i :: 0 <= i < |s| ==> IsSpace(s[i])
  }

  /** `s.startswith(prefix)`. */
  predicate StartsWith(s: string, prefix: string) {
    |prefix| <= |s| && s[..|prefix|] == prefix
  }

  /** How an f-string renders an `Optional[str]`. */
  function Show(o: Option<string>): string {
    match o
    case Some(s) => s
    case None => "None"
  }

  /** Truthiness of an `Optional[str]`: neither `None` nor `""`. */
  predicate Truthy(o: Option<string>) {
    o.Some? && o.value != ""
  }

  // ---------------------------------------------------------------------------
  // split and join

  /** `s.split(sep)`: never empty, and no piece holds the separator. */
  function Split(s: string, sep: char): (parts: seq<string>)
    ensures |parts| >= 1
    ensures forall i :: 0 <= i < |parts| ==> sep !in parts[i]
  {
    if s == [] then [""]
    else
      var rest := Split(s[1..], sep);
      if s[0] == sep then [""] + rest
      else [[s[0]] + rest[0]] + rest[1..]
  }

  /** `sep.join(parts)`. */
  function Join(parts: seq<string>, sep: char): string {
    if parts == [] then ""
    else if |parts| == 1 then parts[0]
    else parts[0] + [sep] + Join(parts[1..], sep)
  }

  /** Joining the pieces of a split gives the text back. */
  lemma {:induction false} JoinSplit(s: string, sep: char)
    ensures Join(Split(s, sep), sep) == s
  {
    if s != [] {
      JoinSplit(s[1..], sep);
      var rest := Split(s[1..], sep);
      var parts := Split(s, sep);
      if s[0] == sep {
        assert parts == [""] + rest;
        assert parts[1..] == rest;
        assert Join(parts, sep) == "" + [sep] + Join(rest, sep);
      } else {
        assert parts == [[s[0]] + rest[0]] + rest[1..];
        assert s == [s[0]] + s[1..];
        if |rest| == 1 {
          assert |parts| == 1;
          assert Join(parts, sep) == [s[0]] + rest[0];
        } else {
          assert parts[1..] == rest[1..];
          assert Join(rest, sep) == rest[0] + [sep] + Join(rest[1..], sep);
          assert Join(parts, sep) == ([s[0]] + rest[0]) + [sep] + Join(rest[1..], sep);
        }
      }
    }
  }

  /** Splitting `a + t`, where `a` holds no separator, extends the first piece of `t`'s split. */
  lemma {:induction false} SplitPrefix(a: string, t: string, sep: char)
    requires sep !in a
    ensures Split(a + t, sep) == [a + Split(t, sep)[0]] + Split(t, sep)[1..]
  {
    if a == [] {
      assert a + t == t;
      var st := Split(t, sep);
      assert a + st[0] == st[0];
      assert st == [st[0]] + st[1..];
    } else {
      SplitPrefix(a[1..], t, sep);
      assert (a + t)[1..] == a[1..] + t;
      assert (a + t)[0] == a[0];
      var st := Split(t, sep);
      assert [a[0]] + (a[1..] + st[0]) == a + st[0];
    }
  }

  /** Splitting a join of separator-free pieces gives the pieces back. */
  lemma {:induction false} SplitJoin(parts: seq<string>, sep: char)
    requires |parts| >= 1
    requires forall i :: 0 <= i < |parts| ==> sep !in parts[i]
    ensures Split(Join(parts, sep), sep) == parts
  {
    if |parts| == 1 {
      SplitPrefix(parts[0], "", sep);
      assert parts[0] + "" == parts[0];
    } else {
      SplitJoin(parts[1..], sep);
      var t := [sep] + Join(parts[1..], sep);
      SplitPrefix(parts[0], t, sep);
      assert parts[0] + [sep] + Join(parts[1..], sep) == parts[0] + t;
      assert t[0] == sep && t[1..] == Join(parts[1..], sep);
      assert Split(t, sep) == [""] + parts[1..];
      assert parts[0] + "" == parts[0];
      assert parts == [parts[0]] + parts[1..];
    }
  }

  /** Joining one more piece appends a separator and the piece. */
  lemma {:induction false} JoinSnoc(parts: seq<string>, b: string, sep: char)
    requires |parts| >= 1
    ensures Join(parts + [b], sep) == Join(parts, sep) + [sep] + b
  {
    if |parts| > 1 {
      JoinSnoc(parts[1..], b, sep);
      assert (parts + [b])[1..] == parts[1..] + [b];
    }
  }

  /** A character in none of the pieces, other than the separator, is not in their join. */
  lemma {:induction false} JoinFree(parts: seq<string>, sep: char, c: char)
    requires c != sep && forall i :: 0 <= i < |parts| ==> c !in parts[i]
    ensures c !in Join(parts, sep)
  {
    if |parts| > 1 {
      JoinFree(parts[1..], sep, c);
      assert c !in parts[0];
    }
  }

  /** Text followed by a separator and a separator-free tail splits into the
      text's pieces and the tail. */
  lemma SplitSnoc(t: string, b: string, sep: char)
    requires sep !in b
    ensures Split(t + [sep] + b, sep) == Split(t, sep) + [b]
  {
    var p := Split(t, sep);
    JoinSplit(t, sep);
    JoinSnoc(p, b, sep);
    SplitJoin(p + [b], sep);
  }

  // ---------------------------------------------------------------------------
  // strip, partition, rpartition

  /** `s.lstrip()`. */
  function LStrip(s: string): (r: string)
    ensures |r| <= |s|
  {
    if s != [] && IsSpace(s[0]) then LStrip(s[1..]) else s
  }

  /** `lstrip()` drops the leading whitespace and no more. */
  lemma {:induction false} LStripFacts(s: string)
    ensures var r := LStrip(s);
      && |r| <= |s| && r == s[|s| - |r|..]
      && (r == [] || !IsSpace(r[0]))
      && (forall i :: 0 <= i < |s| - |r| ==> IsSpace(s[i]))
  {
    if s != [] && IsSpace(s[0]) {
      LStripFacts(s[1..]);
      var r := LStrip(s[1..]);
      assert s[1..][|s| - 1 - |r|..] == s[|s| - |r|..];
      assert forall i :: 1 <= i < |s| - |r| ==> s[i] == s[1..][i - 1];
    }
  }

  /** `s.rstrip()`. */
  function RStrip(s: string): (r: string)
    ensures |r| <= |s|
  {
    if s != [] && IsSpace(s[|s| - 1]) then RStrip(s[..|s| - 1]) else s
  }

  /** `rstrip()` drops the trailing whitespace and no more. */
  lemma {:induction false} RStripFacts(s: string)
    ensures var r := RStrip(s);
      && |r| <= |s| && r == s[..|r|]
      && (r == [] || !IsSpace(r[|r| - 1]))
      && (forall i :: |r| <= i < |s| ==> IsSpace(s[i]))
  {
    if s != [] && IsSpace(s[|s| - 1]) {
      RStripFacts(s[..|s| - 1]);
      var r := RStrip(s[..|s| - 1]);
      assert s[..|s| - 1][..|r|] == s[..|r|];
    }
  }

  /** `s.strip()`. */
  function Strip(s: string): string {
    RStrip(LStrip(s))
  }

  /** `strip()` keeps a slice `s[a..a + |r|]` whose ends are not whitespace
      and drops only whitespace on either side of it. */
  lemma StripFacts(s: string)
    ensures var r := Strip(s); var a := |s| - |LStrip(s)|;
      && a + |r| <= |s| && r == s[a..a + |r|]
      && (forall i :: 0 <= i < a ==> IsSpace(s[i]))
      && (forall i :: a + |r| <= i < |s| ==> IsSpace(s[i]))
      && (r == [] || (!IsSpace(r[0]) && !IsSpace(r[|r| - 1])))
  {
    LStripFacts(s);
    RStripFacts(LStrip(s));
    StripCompose(s, LStrip(s), Strip(s));
  }

  /** Dropping leading whitespace to get `l`, then trailing whitespace to
      get `r`, keeps a slice of `s` between two runs of whitespace. */
  lemma StripCompose(s: string, l: string, r: string)
    requires |l| <= |s| && l == s[|s| - |l|..]
    requires (l == [] || !IsSpace(l[0])) && forall i :: 0 <= i < |s| - |l| ==> IsSpace(s[i])
    requires |r| <= |l| && r == l[..|r|]
    requires (r == [] || !IsSpace(r[|r| - 1])) && forall i :: |r| <= i < |l| ==> IsSpace(l[i])
    ensures var a := |s| - |l|;
      && a + |r| <= |s| && r == s[a..a + |r|]
      && (forall i :: a + |r| <= i < |s| ==> IsSpace(s[i]))
      && (r == [] || (!IsSpace(r[0]) && !IsSpace(r[|r| - 1])))
  {
    var a := |s| - |l|;
    assert l[..|r|] == s[a..a + |r|];
    forall i | a + |r| <= i < |s|
      ensures IsSpace(s[i])
    {
      assert s[i] == l[i - a];
    }
    if r != [] {
      assert r[0] == l[0];
    }
  }

  /** `strip()` leaves nothing exactly when the text is blank. */
  lemma StripEmptyIffBlank(s: string)
    ensures Strip(s) == "" <==> IsBlank(s)
  {
    StripFacts(s);
    var r := Strip(s);
    var a := |s| - |LStrip(s)|;
    assert r != "" ==> r[0] == s[a];
  }

  /** Text that neither starts nor ends with whitespace is its own strip. */
  lemma StripTrimmed(s: string)
    requires s == [] || (!IsSpace(s[0]) && !IsSpace(s[|s| - 1]))
    ensures Strip(s) == s
  {
  }

  /** `s.partition(sep)[0]`: the text before the first `sep`, or all of `s`. */
  function PartitionHead(s: string, sep: char): (r: string)
    ensures |r| <= |s| && r == s[..|r|] && sep !in r
    ensures |r| < |s| ==> s[|r|] == sep
  {
    if s == [] || s[0] == sep then [] else [s[0]] + PartitionHead(s[1..], sep)
  }

  /** `s.partition(sep)[2]`: the text after the first `sep`, or `""`. */
  function PartitionTail(s: string, sep: char): string {
    var h := PartitionHead(s, sep);
    if |h| < |s| then s[|h| + 1..] else ""
  }

  /** `s.rpartition(sep)[2]`: the text after the last `sep`, or all of `s`. */
  function RPartitionTail(s: string, sep: char): (r: string)
    ensures |r| <= |s| && r == s[|s| - |r|..] && sep !in r
    ensures |r| < |s| ==> s[|s| - |r| - 1] == sep
  {
    if s == [] || s[|s| - 1] == sep then [] else RPartitionTail(s[..|s| - 1], sep) + [s[|s| - 1]]
  }

  /** The last segment after a separator is the separator-free tail. */
  lemma RPartitionTailOf(p: string, v: string, sep: char)
    requires p != [] && p[|p| - 1] == sep && sep !in v
    ensures RPartitionTail(p + v, sep) == v
  {
    var s := p + v;
    var r := RPartitionTail(s, sep);
    assert forall k :: |s| - |r| <= k < |s| ==> s[k] == r[k - (|s| - |r|)];
    assert forall k :: |p| <= k < |s| ==> s[k] == v[k - |p|];
    assert s[|p| - 1] == sep;
    assert |r| == |v|;
    assert s[|s| - |v|..] == v;
  }

  // ---------------------------------------------------------------------------
  // str(int) and int(str)

  function DigitChar(d: nat): (c: char)
    requires d < 10
    ensures IsDigit(c)
  {
    ('0' as int + d) as char
  }

  function DigitValue(c: char): nat
    requires IsDigit(c)
  {
    c as int - '0' as int
  }

  predicate AllDigits(s: string) {
    forall i :: 0 <= i < |s| ==> IsDigit(s[i])
  }

  /** `str(n)` for a non-negative `n`: decimal, no leading zeros. */
  function NatToString(n: nat): (s: string)
    ensures |s| >= 1 && AllDigits(s)
    ensures |s| > 1 ==> s[0] != '0'
  {
    if n < 10 then [DigitChar(n)] else NatToString(n / 10) + [DigitChar(n % 10)]
  }

  /** The number a string of decimal digits denotes. */
  function DigitsValue(s: string): nat
    requires AllDigits(s)
  {
    if s == [] then 0 else 10 * DigitsValue(s[..|s| - 1]) + DigitValue(s[|s| - 1])
  }

  lemma {:induction false} NatToStringValue(n: nat)
    ensures DigitsValue(NatToString(n)) == n
  {
    if n >= 10 {
      NatToStringValue(n / 10);
      var s := NatToString(n);
      assert s[..|s| - 1] == NatToString(n / 10);
    }
  }

  /** `str(n)`. */
  function IntToString(n: int): (s: string)
    ensures |s| >= 1 && !IsSpace(s[0]) && IsDigit(s[|s| - 1])
    ensures forall i :: 0 <= i < |s| ==> IsDigit(s[i]) || (i == 0 && s[i] == '-')
  {
    if n < 0 then "-" + NatToString(-n) else NatToString(n)
  }

  /** A run of digits in which single underscores may separate digits, as `int()` accepts. */
  predicate IsDigitRun(s: string) {
    && DigitsOrUnderscores(s)
    && |s| > 0 && IsDigit(s[0]) && IsDigit(s[|s| - 1])
    && SingleUnderscores(s)
  }

  /** No two underscores in a row. */
  predicate SingleUnderscores(s: string)
    decreases |s|
  {
    |s| < 2 || (!(s[0] == '_' && s[1] == '_') && SingleUnderscores(s[1..]))
  }

  lemma {:induction false} DigitsSingleUnderscores(s: string)
    requires AllDigits(s)
    ensures SingleUnderscores(s)
    decreases |s|
  {
    if |s| >= 2 {
      DigitsSingleUnderscores(s[1..]);
    }
  }

  predicate DigitsOrUnderscores(s: string) {
    forall i :: 0 <= i < |s| ==> IsDigit(s[i]) || s[i] == '_'
  }

  function RemoveUnderscores(s: string): (r: string)
    requires DigitsOrUnderscores(s)
    ensures AllDigits(r)
    ensures AllDigits(s) ==> r == s
  {
    if s == [] then []
    else (if s[0] == '_' then [] else [s[0]]) + RemoveUnderscores(s[1..])
  }

  function ParseDigits(s: string): Option<nat> {
    if IsDigitRun(s) then
      Some(DigitsValue(RemoveUnderscores(s)))
    else None
  }

  /** The whitespace `int(s)` skips around the number. A character below
      `\x80` is read as it is, and of those only `" \t\n\v\f\r"` is
      skipped, so the separators `\x1c`-`\x1f` are not; a higher character
      that `str.isspace()` accepts is read as a blank. */
  predicate IsIntSpace(c: char) {
    c == ' ' || ('\t' <= c <= '\r') || (c >= '\U{80}' && IsSpace(c))
  }

  /** `s` without the leading characters `int()` skips. */
  function IntLStrip(s: string): (r: string)
    ensures |r| <= |s|
  {
    if s != [] && IsIntSpace(s[0]) then IntLStrip(s[1..]) else s
  }

  /** `s` without the trailing characters `int()` skips. */
  function IntRStrip(s: string): (r: string)
    ensures |r| <= |s|
  {
    if s != [] && IsIntSpace(s[|s| - 1]) then IntRStrip(s[..|s| - 1]) else s
  }

  /** The text `int(s)` reads its sign and digits from. */
  function IntStrip(s: string): string {
    IntRStrip(IntLStrip(s))
  }

  /** `int(s)`: surrounding whitespace, an optional sign and a digit run;
      `None` stands for the `ValueError` Python raises otherwise. */
  function ParseInt(s: string): Option<int> {
    var t := IntStrip(s);
    if |t| > 0 && (t[0] == '-' || t[0] == '+') then
      match ParseDigits(t[1..])
      case None => None
      case Some(n) =>
        var v := if t[0] == '-' then -(n as int) else n as int;
        Some(v)
    else
      ParseDigits(t)
  }

  /** `int()` refuses the separators `\x1c`-`\x1f` around a number, though
      `str.strip()` removes them, whatever else the text holds; it skips
      the ASCII blanks and the non-ASCII spaces. */
  lemma ParseIntSeparators()
    ensures ParseInt("\U{1c}1") == None && Strip("\U{1c}1") == "1"
    ensures ParseInt("\U{1c}1\U{a0}") == None
    ensures ParseInt("1\U{a0}") == Some(1)
    ensures ParseInt(" 1\t") == Some(1)
  {
    assert IntStrip("\U{1c}1") == "\U{1c}1";
    assert IntLStrip("\U{1c}1\U{a0}") == "\U{1c}1\U{a0}";
    assert IntRStrip("\U{1c}1\U{a0}") == "\U{1c}1";
    NatToStringParses(1);
    assert NatToString(1) == "1";
    assert IntRStrip("1\U{a0}") == "1";
    assert IntLStrip(" 1\t") == "1\t";
    assert IntRStrip("1\t") == "1";
    LStripFacts("\U{1c}1");
    assert LStrip("\U{1c}1") == "1";
  }

  /** `int(str(n)) == n`. */
  lemma ParseIntRoundTrip(n: int)
    ensures ParseInt(IntToString(n)) == Some(n)
  {
    var s := IntToString(n);
    IntToStringTrimmed(n);
    var t := IntStrip(s);
    assert t == s;
    if n < 0 {
      var d := NatToString(-n);
      assert s == "-" + d;
      assert t[1..] == d;
      NatToStringParses(-n);
      assert t[0] == '-';
    } else {
      NatToStringParses(n);
      assert s == NatToString(n);
      assert IsDigit(t[0]);
    }
  }

  /** `str(n)` has nothing `int()` would skip at either end. */
  lemma IntToStringTrimmed(n: int)
    ensures IntStrip(IntToString(n)) == IntToString(n)
  {
    var s := IntToString(n);
    assert !IsIntSpace(s[0]) && !IsIntSpace(s[|s| - 1]);
    assert IntLStrip(s) == s;
  }

  lemma NatToStringParses(n: nat)
    ensures ParseDigits(NatToString(n)) == Some(n)
  {
    var d := NatToString(n);
    NatToStringValue(n);
    DigitsSingleUnderscores(d);
    assert IsDigitRun(d);
    assert RemoveUnderscores(d) == d;
  }

  // ---------------------------------------------------------------------------
  // sequences

  /** The elements in order of first appearance. */
  function Dedup(xs: seq<string>): (r: seq<string>)
    ensures forall x :: x in r <==> x in xs
  {
    if xs == [] then []
    else
      var d := Dedup(xs[..|xs| - 1]);
      assert xs == xs[..|xs| - 1] + [xs[|xs| - 1]];
      if xs[|xs| - 1] in d then d else d + [xs[|xs| - 1]]
  }

  /** `reversed(s)`. */
  function Reverse<T>(s: seq<T>): (r: seq<T>)
    ensures |r| == |s|
    ensures forall i :: 0 <= i < |s| ==> r[i] == s[|s| - 1 - i]
  {
    if s == [] then [] else [s[|s| - 1]] + Reverse(s[..|s| - 1])
  }

  lemma ReverseSnoc<T>(s: seq<T>, x: T)
    ensures Reverse(s + [x]) == [x] + Reverse(s)
  {
    assert (s + [x])[..|s|] == s;
  }

  /** `[prefix + name for name in names]`. */
  function Prefixed(prefix: string, names: seq<string>): (r: seq<string>)
    ensures |r| == |names|
  {
    seq(|names|, i requires 0 <= i < |names| => prefix + names[i])
  }
}
