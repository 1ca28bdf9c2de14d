/**
 * WuCaiUtils.splitStringAndTrimEmptyLine: split a text into lines and keep
 * the non-empty ones, each with its first whitespace run collapsed to one
 * space, carriage returns and line feeds removed, and both ends trimmed.
 */
module TextUtils {
  import opened Types

  /** JavaScript's \s class, which is also the set String.prototype.trim removes. */
  predicate IsJsSpace(c: char) {
    c == ' ' || c == '\t' || c == '\n' || c == '\r' || c == '\U{B}' || c == '\U{C}'
    || c == '\U{A0}' || c == '\U{1680}' || ('\U{2000}' <= c <= '\U{200A}')
    || c == '\U{2028}' || c == '\U{2029}' || c == '\U{202F}' || c == '\U{205F}'
    || c == '\U{3000}' || c == '\U{FEFF}'
  }

  predicate NoSpaces(s: string) { forall i :: 0 <= i < |s| ==> !IsJsSpace(s[i]) }
  predicate AllSpaces(s: string) { forall i :: 0 <= i < |s| ==> IsJsSpace(s[i]) }

  /** `s.split('\n')`: always at least one piece, the text between line feeds. */
  function Split(s: string): (r: seq<string>)
    ensures |r| >= 1
  {
    if s == [] then [""]
    else
      var rest := Split(s[1..]);
      if s[0] == '\n' then [""] + rest else [[s[0]] + rest[0]] + rest[1..]
  }

  /** `lines.join('\n')`, the inverse of Split. */
  function JoinLines(lines: seq<string>): string
    requires |lines| >= 1
  {
    if |lines| == 1 then lines[0] else lines[0] + "\n" + JoinLines(lines[1..])
  }

  function CountChar(s: string, c: char): nat {
    if s == [] then 0 else (if s[0] == c then 1 else 0) + CountChar(s[1..], c)
  }

  /** Remove the leading run of whitespace. */
  function DropSpaces(s: string): string {
    if s != [] && IsJsSpace(s[0]) then DropSpaces(s[1..]) else s
  }

  /** `.replace(/[\s\t]+/, ' ')`: the regex has no global flag, so only the
      leftmost maximal run of whitespace becomes a single space. */
  function CollapseFirstRun(s: string): string {
    if s == [] then []
    else if IsJsSpace(s[0]) then " " + DropSpaces(s[1..])
    else [s[0]] + CollapseFirstRun(s[1..])
  }

  /** `.replace(/[\r\n]+/g, '')`. */
  function StripCrLf(s: string): string {
    if s == [] then []
    else (if s[0] == '\r' || s[0] == '\n' then [] else [s[0]]) + StripCrLf(s[1..])
  }

  function TrimEnd(s: string): string {
    if s != [] && IsJsSpace(s[|s| - 1]) then TrimEnd(s[..|s| - 1]) else s
  }

  /** `.trim()`. */
  function Trim(s: string): string {
    TrimEnd(DropSpaces(s))
  }

  /** What the loop body makes of one line. */
  function CleanLine(line: string): string {
    Trim(StripCrLf(CollapseFirstRun(line)))
  }

  /** Every line cleaned, in order. */
  function Cleaned(lines: seq<string>): (r: seq<string>)
    ensures |r| == |lines|
  {
    if lines == [] then [] else Cleaned(lines[..|lines| - 1]) + [CleanLine(lines[|lines| - 1])]
  }

  /** The elements that are not empty, in their original order. */
  function NonEmpty(xs: seq<string>): seq<string> {
    if xs == [] then []
    else NonEmpty(xs[..|xs| - 1]) + (if |xs[|xs| - 1]| > 0 then [xs[|xs| - 1]] else [])
  }

  /** The cleaned lines that are not empty, in their original order. */
  function KeepCleaned(lines: seq<string>): seq<string> {
    NonEmpty(Cleaned(lines))
  }

  /** The specification of splitStringAndTrimEmptyLine; None stands for null or undefined. */
  function SplitTrimmed(coretxt: Option<string>): seq<string> {
    if coretxt.None? || |coretxt.value| <= 0 then [] else KeepCleaned(Split(coretxt.value))
  }

  predicate WellFormedLine(s: string) {
    && |s| > 0
    && !IsJsSpace(s[0]) && !IsJsSpace(s[|s| - 1])
    && forall i :: 0 <= i < |s| ==> s[i] != '\r' && s[i] != '\n'
  }

  /** The loop of splitStringAndTrimEmptyLine, pushing each non-empty cleaned line. */
  method SplitStringAndTrimEmptyLine(coretxt: Option<string>) returns (ret: seq<string>)
    ensures ret == SplitTrimmed(coretxt)
    ensures forall i :: 0 <= i < |ret| ==> WellFormedLine(ret[i])
  {
    if coretxt.None? || |coretxt.value| <= 0 {
      return [];
    }
    var arrCore := Split(coretxt.value);
    ret := [];
    for i2 := 0 to |arrCore|
      invariant ret == NonEmpty(Cleaned(arrCore[..i2]))
    {
      var s2 := CleanLine(arrCore[i2]);
      KeepCleanedStep(arrCore, i2);
      if |s2| > 0 {
        ret := ret + [s2];
      }
    }
    assert arrCore[..|arrCore|] == arrCore;
    KeepCleanedWellFormed(arrCore);
  }

  /** One turn of the loop: the next line is cleaned and kept when not empty. */
  lemma KeepCleanedStep(lines: seq<string>, i: nat)
    requires i < |lines|
    ensures var c := CleanLine(lines[i]);
            NonEmpty(Cleaned(lines[..i + 1])) == NonEmpty(Cleaned(lines[..i])) + (if |c| > 0 then [c] else [])
  {
    var done := lines[..i + 1];
    assert done[..|done| - 1] == lines[..i] && done[|done| - 1] == lines[i];
    var cs := Cleaned(done);
    assert cs == Cleaned(lines[..i]) + [CleanLine(lines[i])];
    assert cs[..|cs| - 1] == Cleaned(lines[..i]);
  }

  // ---- Properties of the pieces ----

  /** DropSpaces leaves a suffix that does not start with whitespace. */
  lemma {:induction false} DropSpacesSuffix(s: string)
    ensures |DropSpaces(s)| <= |s| && DropSpaces(s) == s[|s| - |DropSpaces(s)|..]
    ensures DropSpaces(s) == [] || !IsJsSpace(DropSpaces(s)[0])
  {
    if s != [] && IsJsSpace(s[0]) {
      DropSpacesSuffix(s[1..]);
      assert s[1..][|s| - 1 - |DropSpaces(s)|..] == s[|s| - |DropSpaces(s)|..];
    }
  }

  /** TrimEnd leaves a prefix that does not end with whitespace. */
  lemma {:induction false} TrimEndPrefix(s: string)
    ensures |TrimEnd(s)| <= |s| && TrimEnd(s) == s[..|TrimEnd(s)|]
    ensures TrimEnd(s) == [] || !IsJsSpace(TrimEnd(s)[|TrimEnd(s)| - 1])
  {
    if s != [] && IsJsSpace(s[|s| - 1]) {
      TrimEndPrefix(s[..|s| - 1]);
      assert s[..|s| - 1][..|TrimEnd(s)|] == s[..|TrimEnd(s)|];
    }
  }

  lemma {:induction false} StripCrLfHasNone(s: string)
    ensures forall i :: 0 <= i < |StripCrLf(s)| ==> StripCrLf(s)[i] != '\r' && StripCrLf(s)[i] != '\n'
  {
    if s != [] { StripCrLfHasNone(s[1..]); }
  }

  /** A non-empty cleaned line has no whitespace at either end and no CR or LF. */
  lemma CleanLineWellFormed(line: string)
    requires |CleanLine(line)| > 0
    ensures WellFormedLine(CleanLine(line))
  {
    var t := StripCrLf(CollapseFirstRun(line));
    StripCrLfHasNone(CollapseFirstRun(line));
    var d := DropSpaces(t);
    var r := TrimEnd(d);
    DropSpacesSuffix(t);
    TrimEndPrefix(d);
    assert r == d[..|r|] && d == t[|t| - |d|..];
    forall i | 0 <= i < |r| ensures r[i] != '\r' && r[i] != '\n' {
      assert r[i] == t[|t| - |d| + i];
    }
    assert r[0] == d[0];
  }

  /** Every element the routine returns is non-empty and trimmed. */
  lemma {:induction false} KeepCleanedWellFormed(lines: seq<string>)
    ensures forall i :: 0 <= i < |KeepCleaned(lines)| ==> WellFormedLine(KeepCleaned(lines)[i])
  {
    forall i | 0 <= i < |lines| && |Cleaned(lines)[i]| > 0
      ensures WellFormedLine(Cleaned(lines)[i])
    {
      CleanedAt(lines, i);
      CleanLineWellFormed(lines[i]);
    }
    NonEmptyFrom(Cleaned(lines));
  }

  lemma {:induction false} CleanedAt(lines: seq<string>, i: nat)
    requires i < |lines|
    ensures Cleaned(lines)[i] == CleanLine(lines[i])
  {
    var n := |lines|;
    if i < n - 1 {
      CleanedAt(lines[..n - 1], i);
    }
  }

  /** Each kept element is a non-empty element of the input. */
  lemma {:induction false} NonEmptyFrom(xs: seq<string>)
    ensures forall k :: 0 <= k < |NonEmpty(xs)| ==>
      |NonEmpty(xs)[k]| > 0 && exists i :: 0 <= i < |xs| && NonEmpty(xs)[k] == xs[i]
  {
    if xs != [] {
      var init := xs[..|xs| - 1];
      NonEmptyFrom(init);
      forall k | 0 <= k < |NonEmpty(init)|
        ensures exists i :: 0 <= i < |xs| && NonEmpty(init)[k] == xs[i]
      {
        var i :| 0 <= i < |init| && NonEmpty(init)[k] == init[i];
        assert xs[i] == init[i];
      }
    }
  }

  /** At most one output element per input line. */
  lemma {:induction false} NonEmptyLength(xs: seq<string>)
    ensures |NonEmpty(xs)| <= |xs|
  {
    if xs != [] { NonEmptyLength(xs[..|xs| - 1]); }
  }

  /** Order is kept: a non-empty element at position j lands right after
      what the elements before it contribute. */
  lemma {:induction false} NonEmptyIsOrderedFilter(xs: seq<string>, j: nat)
    requires j < |xs| && |xs[j]| > 0
    ensures var k := |NonEmpty(xs[..j])|;
            k < |NonEmpty(xs)| && NonEmpty(xs)[k] == xs[j]
  {
    var n := |xs|;
    var init := xs[..n - 1];
    if j == n - 1 {
      assert init == xs[..j];
    } else {
      NonEmptyIsOrderedFilter(init, j);
      assert init[..j] == xs[..j] && init[j] == xs[j];
    }
  }

  /** The output of the routine, element by element: the line at position j,
      when it is non-empty once cleaned, appears in the output right after the
      lines before it; and the output is no longer than the line count. */
  lemma SplitTrimmedOrder(coretxt: string, j: nat)
    requires |coretxt| > 0
    requires j < |Split(coretxt)| && |CleanLine(Split(coretxt)[j])| > 0
    ensures var lines := Split(coretxt);
            var k := |KeepCleaned(lines[..j])|;
            k < |SplitTrimmed(Some(coretxt))| && SplitTrimmed(Some(coretxt))[k] == CleanLine(lines[j])
  {
    var lines := Split(coretxt);
    CleanedAt(lines, j);
    NonEmptyIsOrderedFilter(Cleaned(lines), j);
    CleanedPrefix(lines, j);
  }

  lemma {:induction false} CleanedPrefix(lines: seq<string>, j: nat)
    requires j <= |lines|
    ensures Cleaned(lines)[..j] == Cleaned(lines[..j])
  {
    var n := |lines|;
    if j < n {
      CleanedPrefix(lines[..n - 1], j);
      assert lines[..n - 1][..j] == lines[..j];
    } else {
      assert lines[..j] == lines;
    }
  }

  /** The output has at most as many elements as the text has lines. */
  lemma SplitTrimmedLength(coretxt: string)
    ensures |SplitTrimmed(Some(coretxt))| <= CountChar(coretxt, '\n') + 1
  {
    SplitLength(coretxt);
    NonEmptyLength(Cleaned(Split(coretxt)));
  }

  lemma {:induction false} SplitPiecesHaveNoLineFeed(s: string)
    ensures forall k, i :: 0 <= k < |Split(s)| && 0 <= i < |Split(s)[k]| ==> Split(s)[k][i] != '\n'
  {
    if s != [] { SplitPiecesHaveNoLineFeed(s[1..]); }
  }

  /** The number of lines is one more than the number of line feeds. */
  lemma {:induction false} SplitLength(s: string)
    ensures |Split(s)| == CountChar(s, '\n') + 1
  {
    if s != [] { SplitLength(s[1..]); }
  }

  /** Joining the lines again gives the text back. */
  lemma {:induction false} JoinSplit(s: string)
    ensures JoinLines(Split(s)) == s
  {
    if s != [] {
      JoinSplit(s[1..]);
      var rest := Split(s[1..]);
      if s[0] != '\n' {
        var r := Split(s);
        if |rest| == 1 {
          assert r == [[s[0]] + rest[0]];
        } else {
          assert r[1..] == rest[1..];
          assert JoinLines(r) == r[0] + "\n" + JoinLines(rest[1..]);
          assert JoinLines(rest) == rest[0] + "\n" + JoinLines(rest[1..]);
        }
      }
    }
  }

  /** Splitting a join of lines that hold no line feed gives the lines back. */
  lemma {:induction false} SplitJoin(lines: seq<string>)
    requires |lines| >= 1
    requires forall k, i :: 0 <= k < |lines| && 0 <= i < |lines[k]| ==> lines[k][i] != '\n'
    ensures Split(JoinLines(lines)) == lines
  {
    if |lines| == 1 {
      SplitOfLine(lines[0]);
    } else {
      SplitJoin(lines[1..]);
      SplitPrefix(lines[0], JoinLines(lines[1..]));
    }
  }

  lemma {:induction false} SplitOfLine(s: string)
    requires forall i :: 0 <= i < |s| ==> s[i] != '\n'
    ensures Split(s) == [s]
  {
    if s != [] {
      SplitOfLine(s[1..]);
      assert [s[0]] + s[1..] == s;
    }
  }

  lemma {:induction false} SplitPrefix(a: string, b: string)
    requires forall i :: 0 <= i < |a| ==> a[i] != '\n'
    ensures Split(a + "\n" + b) == [a] + Split(b)
  {
    if a == [] {
      assert a + "\n" + b == ['\n'] + b;
      assert (['\n'] + b)[1..] == b;
    } else {
      SplitPrefix(a[1..], b);
      assert (a + "\n" + b)[1..] == a[1..] + "\n" + b;
      assert [a[0]] + a[1..] == a;
    }
  }

  /** Only the first run is collapsed: text before it is kept, the run becomes
      one space, and everything after the run (later runs included) is kept. */
  lemma {:induction false} CollapseFirstRunOnly(p: string, w: string, q: string)
    requires NoSpaces(p) && |w| > 0 && AllSpaces(w)
    requires q == [] || !IsJsSpace(q[0])
    ensures CollapseFirstRun(p + w + q) == p + " " + q
  {
    if p == [] {
      assert (w + q)[1..] == w[1..] + q;
      DropSpacesRun(w[1..], q);
      assert p + w + q == w + q;
    } else {
      CollapseFirstRunOnly(p[1..], w, q);
      assert (p + w + q)[1..] == p[1..] + w + q;
      assert [p[0]] + (p[1..] + " " + q) == p + " " + q;
    }
  }

  lemma {:induction false} DropSpacesRun(w: string, q: string)
    requires AllSpaces(w)
    requires q == [] || !IsJsSpace(q[0])
    ensures DropSpaces(w + q) == q
  {
    if w != [] {
      assert (w + q)[1..] == w[1..] + q;
      DropSpacesRun(w[1..], q);
    } else {
      assert w + q == q;
    }
  }

  /** The routine is not idempotent: once leading whitespace is trimmed away,
      a second pass collapses the run that the first pass left alone. */
  lemma NotIdempotent()
    ensures SplitTrimmed(Some("  a  b")) == ["a  b"]
    ensures SplitTrimmed(Some("a  b")) == ["a b"]
    ensures SplitTrimmed(Some(JoinLines(SplitTrimmed(Some("  a  b"))))) != SplitTrimmed(Some("  a  b"))
  {
    FirstPass();
    SecondPass();
  }

  lemma FirstPass()
    ensures SplitTrimmed(Some("  a  b")) == ["a  b"]
  {
    var x, y := "  a  b", "a  b";
    CollapseFirstRunOnly("", "  ", y);
    assert "" + "  " + y == x;
    var c := " " + y;
    assert CollapseFirstRun(x) == c;
    StripCrLfNoop(c);
    DropSpacesRun(" ", y);
    TrimNoop(y);
    assert CleanLine(x) == y;
    SingleLine(x);
  }

  lemma SecondPass()
    ensures SplitTrimmed(Some("a  b")) == ["a b"]
  {
    var x, y := "a  b", "a b";
    CollapseFirstRunOnly("a", "  ", "b");
    assert "a" + "  " + "b" == x && "a" + " " + "b" == y;
    StripCrLfNoop(y);
    TrimNoop(y);
    assert CleanLine(x) == y;
    SingleLine(x);
  }

  lemma TrimNoop(s: string)
    requires |s| > 0 && !IsJsSpace(s[0]) && !IsJsSpace(s[|s| - 1])
    ensures DropSpaces(s) == s && Trim(s) == s
  {
  }

  /** A text without line feeds is one line. */
  lemma SingleLine(s: string)
    requires |s| > 0 && forall i :: 0 <= i < |s| ==> s[i] != '\n'
    ensures SplitTrimmed(Some(s)) == if |CleanLine(s)| > 0 then [CleanLine(s)] else []
  {
    SplitOfLine(s);
    assert [s][..0] == [];
    var cs := Cleaned([s]);
    assert cs == [CleanLine(s)];
    assert cs[..0] == [];
    assert NonEmpty(cs) == NonEmpty(cs[..0]) + (if |cs[0]| > 0 then [cs[0]] else []);
  }

  lemma {:induction false} StripCrLfNoop(s: string)
    requires forall i :: 0 <= i < |s| ==> s[i] != '\r' && s[i] != '\n'
    ensures StripCrLf(s) == s
  {
    if s != [] { StripCrLfNoop(s[1..]); assert [s[0]] + s[1..] == s; }
  }
}
