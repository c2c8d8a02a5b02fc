/** The line renderer: indentation prefix, branch glyph and name for one
    entry, computed from that entry and the whole sorted listing. */
module Render {
  import opened Wrappers
  import opened Paths
  import opened Entries
  import opened Siblings

  const Bar: string := "│   "
  const Blank: string := "    "
  const Corner: char := '└'
  const Tee: char := '├'
  const Dash: char := '─'

  /** The four-column indentation segment for one ancestor level. */
  function Segment(needsBar: bool): string {
    if needsBar then Bar else Blank
  }

  /** What one output line shows: a connector flag per ancestor level
      (root-nearest first), corner or tee, the dash count, the name, and
      whether the entry is a directory. */
  datatype LineView = LineView(bars: seq<bool>, corner: bool, dashes: nat, name: string, isDir: bool)

  /** For each proper ancestor of `p`, whether it still has a later sibling,
      i.e. whether a vertical connector runs past this line at its column. */
  function NeedsBars(p: RelPath, es: seq<Entry>): (r: seq<bool>)
    ensures |r| == |p| - 1
    ensures forall d :: 0 <= d < |p| - 1 ==> (r[d] <==> !IsLastSibling(Ancestor(p, d), es))
  {
    seq(|p| - 1, d requires 0 <= d < |p| - 1 => !IsLastSibling(Ancestor(p, d), es))
  }

  /** The view of the line printed for `e`. */
  function ViewOf(e: Entry, es: seq<Entry>, dashCount: nat): LineView {
    LineView(NeedsBars(e.path, es), IsLastSibling(e.path, es), dashCount, FileName(e.path), e.isDir)
  }

  /** Concatenated indentation segments, one per flag. */
  function Indent(bars: seq<bool>): (r: string)
    ensures |r| == 4 * |bars|
  {
    if |bars| == 0 then "" else Segment(bars[0]) + Indent(bars[1..])
  }

  /** Columns `4d` to `4d + 3` of an indentation hold the segment for level `d`. */
  lemma {:induction false} IndentColumns(bars: seq<bool>, d: nat)
    requires d < |bars|
    ensures Indent(bars)[4 * d..4 * d + 4] == Segment(bars[d])
  {
    var head, rest := Segment(bars[0]), Indent(bars[1..]);
    assert Indent(bars) == head + rest && |head| == 4;
    if d > 0 {
      IndentColumns(bars[1..], d - 1);
      SliceOfAppend(head, rest, 4 * d, 4 * d + 4);
      assert bars[1..][d - 1] == bars[d];
    } else {
      assert (head + rest)[..4] == head;
    }
  }

  /** A slice lying wholly in the second part of a concatenation. */
  lemma SliceOfAppend(a: string, b: string, i: nat, j: nat)
    requires |a| <= i <= j <= |a| + |b|
    ensures (a + b)[i..j] == b[i - |a|..j - |a|]
  {
  }

  lemma {:induction false} IndentSnoc(bars: seq<bool>, b: bool)
    ensures Indent(bars + [b]) == Indent(bars) + Segment(b)
  {
    if |bars| > 0 {
      assert (bars + [b])[1..] == bars[1..] + [b];
      IndentSnoc(bars[1..], b);
    }
  }

  lemma NextIndent(bars: seq<bool>, d: nat)
    requires d < |bars|
    ensures Indent(bars[..d + 1]) == Indent(bars[..d]) + Segment(bars[d])
  {
    assert bars[..d + 1] == bars[..d] + [bars[d]];
    IndentSnoc(bars[..d], bars[d]);
  }

  /** Corner or tee, followed by `dashCount` horizontal rules. */
  function Branch(corner: bool, dashCount: nat): (r: string)
    ensures |r| == dashCount + 1
    ensures r[0] == (if corner then Corner else Tee)
    ensures forall i :: 1 <= i < |r| ==> r[i] == Dash
  {
    [if corner then Corner else Tee] + seq(dashCount, _ => Dash)
  }

  /** The text of a line: prefix, branch, a space, the name, and a slash for a directory. */
  function RenderLine(v: LineView): string {
    Indent(v.bars) + Branch(v.corner, v.dashes) + " " + v.name + (if v.isDir then "/" else "")
  }

  lemma RenderLineParts(v: LineView)
    ensures RenderLine(v) == Indent(v.bars) + (Branch(v.corner, v.dashes) + " " + (v.name + (if v.isDir then "/" else "")))
  {
  }

  /** The line printed for entry `e` of listing `es`. */
  function Line(e: Entry, es: seq<Entry>, dashCount: nat): string {
    RenderLine(ViewOf(e, es, dashCount))
  }

  /** A directory's line ends with a slash. */
  lemma DirectoryLineEndsInSlash(e: Entry, es: seq<Entry>, dashCount: nat)
    requires e.isDir
    ensures |Line(e, es, dashCount)| > 0 && Line(e, es, dashCount)[|Line(e, es, dashCount)| - 1] == '/'
  {
    RenderLineParts(ViewOf(e, es, dashCount));
  }

  /** Builds the indentation prefix as the program does: one pass over the
      ancestor levels, appending a bar segment when that ancestor is not the
      last of its siblings and a blank one when it is. */
  method BuildPrefix(p: RelPath, es: seq<Entry>) returns (prefix: string)
    ensures prefix == Indent(NeedsBars(p, es))
    ensures |prefix| == 4 * (|p| - 1)
  {
    var depth := |p| - 1;
    ghost var bars := NeedsBars(p, es);
    prefix := "";
    var d := 0;
    while d < depth
      invariant 0 <= d <= depth
      invariant prefix == Indent(bars[..d])
    {
      var ancestor := p[..d + 1];
      var needsVerticalBar := !IsLastSibling(ancestor, es);
      assert needsVerticalBar == bars[d];
      if needsVerticalBar {
        prefix := prefix + Bar;
      } else {
        prefix := prefix + Blank;
      }
      NextIndent(bars, d);
      d := d + 1;
    }
    assert bars[..depth] == bars;
  }

  /** Builds the line for `e` as the program does: the prefix, then the
      branch, then the name with a slash for a directory. */
  method FormatEntry(e: Entry, es: seq<Entry>, dashCount: nat) returns (line: string)
    ensures line == Line(e, es, dashCount)
    ensures |line| == 4 * (|e.path| - 1) + dashCount + 2 + |FileName(e.path)| + (if e.isDir then 1 else 0)
    ensures forall d :: 0 <= d < |e.path| - 1 ==>
              line[4 * d..4 * d + 4] == (if IsLastSibling(Ancestor(e.path, d), es) then Blank else Bar)
    ensures line[4 * (|e.path| - 1)] == (if IsLastSibling(e.path, es) then Corner else Tee)
  {
    var prefix := BuildPrefix(e.path, es);
    var isLast := IsLastSibling(e.path, es);
    var dashes := seq(dashCount, _ => Dash);
    var branch := if isLast then [Corner] + dashes else [Tee] + dashes;
    assert branch == Branch(isLast, dashCount);
    var name := FileName(e.path);
    if e.isDir {
      line := prefix + branch + " " + name + "/";
    } else {
      line := prefix + branch + " " + name;
    }
    LineLayout(e, es, dashCount);
  }

  /** Column layout of a rendered line: the indentation segments, then the glyph. */
  lemma LayoutColumns(v: LineView, d: nat)
    requires d < |v.bars|
    ensures RenderLine(v)[4 * d..4 * d + 4] == Segment(v.bars[d])
  {
    var ind := Indent(v.bars);
    var tail := Branch(v.corner, v.dashes) + " " + v.name + (if v.isDir then "/" else "");
    assert RenderLine(v) == ind + tail;
    IndentColumns(v.bars, d);
    assert RenderLine(v)[4 * d..4 * d + 4] == ind[4 * d..4 * d + 4];
  }

  lemma LayoutGlyph(v: LineView)
    ensures RenderLine(v)[4 * |v.bars|] == (if v.corner then Corner else Tee)
  {
    var ind := Indent(v.bars);
    var tail := Branch(v.corner, v.dashes) + " " + v.name + (if v.isDir then "/" else "");
    assert RenderLine(v) == ind + tail;
  }

  /** Column layout of a printed line. */
  lemma LineLayout(e: Entry, es: seq<Entry>, dashCount: nat)
    ensures |Line(e, es, dashCount)| == 4 * (|e.path| - 1) + dashCount + 2 + |FileName(e.path)| + (if e.isDir then 1 else 0)
    ensures forall d :: 0 <= d < |e.path| - 1 ==>
              Line(e, es, dashCount)[4 * d..4 * d + 4] == (if IsLastSibling(Ancestor(e.path, d), es) then Blank else Bar)
    ensures Line(e, es, dashCount)[4 * (|e.path| - 1)] == (if IsLastSibling(e.path, es) then Corner else Tee)
  {
    var v := ViewOf(e, es, dashCount);
    forall d | 0 <= d < |e.path| - 1
      ensures Line(e, es, dashCount)[4 * d..4 * d + 4] == (if IsLastSibling(Ancestor(e.path, d), es) then Blank else Bar)
    {
      LayoutColumns(v, d);
    }
    LayoutGlyph(v);
  }

  // ---------------------------------------------------------------------
  // Reading a line back
  // ---------------------------------------------------------------------

  /** Splits the leading indentation segments off `s`: one flag per segment
      (true for a bar), and the text after them. */
  function ParseIndent(s: string): (r: (seq<bool>, string))
    ensures Indent(r.0) + r.1 == s
    decreases |s|
  {
    if |s| >= 4 && (s[..4] == Bar || s[..4] == Blank) then
      var inner := ParseIndent(s[4..]);
      assert s == s[..4] + s[4..];
      ([s[..4] == Bar] + inner.0, inner.1)
    else ([], s)
  }

  /** Length of the run of horizontal rules at the start of `s`. */
  function CountDashes(s: string): (n: nat)
    ensures n <= |s|
    ensures forall i :: 0 <= i < n ==> s[i] == Dash
    ensures n < |s| ==> s[n] != Dash
  {
    if |s| > 0 && s[0] == Dash then 1 + CountDashes(s[1..]) else 0
  }

  /** Recovers the view from a rendered line; None when `line` is not of that shape. */
  function ParseLine(line: string): Option<LineView> {
    var split := ParseIndent(line);
    ParseBranch(split.0, split.1)
  }

  /** Reads the glyph, the dashes, the separating space and the name that
      follow the indentation. */
  function ParseBranch(bars: seq<bool>, rest: string): Option<LineView> {
    if |rest| == 0 || (rest[0] != Corner && rest[0] != Tee) then None
    else
      var n := CountDashes(rest[1..]);
      if |rest| < n + 2 || rest[n + 1] != ' ' then None
      else Some(ViewWithName(bars, rest[0] == Corner, n, rest[n + 2..]))
  }

  /** A trailing slash on the shown name marks a directory. */
  function ViewWithName(bars: seq<bool>, corner: bool, dashes: nat, shown: string): LineView {
    if |shown| > 0 && shown[|shown| - 1] == '/' then
      LineView(bars, corner, dashes, shown[..|shown| - 1], true)
    else
      LineView(bars, corner, dashes, shown, false)
  }

  /** A file's name must not end in a slash, or it would read as a directory. */
  predicate Unambiguous(v: LineView) {
    !v.isDir ==> !(|v.name| > 0 && v.name[|v.name| - 1] == '/')
  }

  lemma {:induction false} ParseIndentOfIndent(bars: seq<bool>, rest: string)
    requires |rest| > 0 && (rest[0] == Corner || rest[0] == Tee)
    ensures ParseIndent(Indent(bars) + rest) == (bars, rest)
  {
    var s := Indent(bars) + rest;
    if |bars| == 0 {
      assert s == rest;
      NotASegment(s);
    } else {
      var head, inner := Segment(bars[0]), Indent(bars[1..]) + rest;
      assert s == head + inner;
      assert s[..4] == head && s[4..] == inner;
      assert (head == Bar) == bars[0];
      ParseIndentOfIndent(bars[1..], rest);
      assert [bars[0]] + bars[1..] == bars;
    }
  }

  /** Text that starts with a glyph does not start with an indentation segment. */
  lemma NotASegment(s: string)
    requires |s| > 0 && (s[0] == Corner || s[0] == Tee)
    ensures !(|s| >= 4 && (s[..4] == Bar || s[..4] == Blank))
  {
    if |s| >= 4 {
      assert s[..4][0] == s[0];
    }
  }

  lemma {:induction false} CountDashesOfRun(n: nat, rest: string)
    requires |rest| > 0 && rest[0] != Dash
    ensures CountDashes(seq(n, _ => Dash) + rest) == n
  {
    if n > 0 {
      assert (seq(n, _ => Dash) + rest)[1..] == seq(n - 1, _ => Dash) + rest;
      CountDashesOfRun(n - 1, rest);
    } else {
      assert seq(n, _ => Dash) + rest == rest;
    }
  }

  /** The branch reader accepts a rendered branch and returns what follows the space. */
  lemma ParseBranchOfBranch(bars: seq<bool>, corner: bool, dashes: nat, shown: string)
    ensures ParseBranch(bars, Branch(corner, dashes) + " " + shown) == Some(ViewWithName(bars, corner, dashes, shown))
  {
    var after := " " + shown;
    var rest := Branch(corner, dashes) + after;
    assert rest == Branch(corner, dashes) + " " + shown;
    assert rest[1..] == seq(dashes, _ => Dash) + after;
    CountDashesOfRun(dashes, after);
    assert rest[dashes + 1] == ' ';
    assert rest[dashes + 2..] == shown;
  }

  /** The name and directory flag survive the trailing-slash encoding. */
  lemma ViewWithShownName(v: LineView)
    requires Unambiguous(v)
    ensures ViewWithName(v.bars, v.corner, v.dashes, v.name + (if v.isDir then "/" else "")) == v
  {
    var shown := v.name + (if v.isDir then "/" else "");
    if v.isDir {
      assert shown[..|shown| - 1] == v.name;
    } else {
      assert shown == v.name;
    }
  }

  /** Parsing undoes rendering. */
  lemma ParseRender(v: LineView)
    requires Unambiguous(v)
    ensures ParseLine(RenderLine(v)) == Some(v)
  {
    var shown := v.name + (if v.isDir then "/" else "");
    var tail := Branch(v.corner, v.dashes) + " " + shown;
    RenderLineParts(v);
    assert RenderLine(v) == Indent(v.bars) + tail;
    ParseIndentOfIndent(v.bars, tail);
    ParseBranchOfBranch(v.bars, v.corner, v.dashes, shown);
    ViewWithShownName(v);
  }

  /** The part of a line after the indentation, when the parser accepts it,
      is a branch, a space and the shown name. */
  lemma BranchOfRest(rest: string, n: nat)
    requires |rest| >= n + 2 && (rest[0] == Corner || rest[0] == Tee)
    requires n == CountDashes(rest[1..]) && rest[n + 1] == ' '
    ensures rest == Branch(rest[0] == Corner, n) + " " + rest[n + 2..]
  {
    assert rest[1..n + 1] == seq(n, _ => Dash);
    assert rest == [rest[0]] + rest[1..n + 1] + " " + rest[n + 2..];
  }

  /** The shown name is the name followed by a slash exactly for a directory. */
  lemma ShownName(bars: seq<bool>, corner: bool, dashes: nat, shown: string)
    ensures var v := ViewWithName(bars, corner, dashes, shown);
            v.name + (if v.isDir then "/" else "") == shown && Unambiguous(v)
  {
    if |shown| > 0 && shown[|shown| - 1] == '/' {
      assert shown == shown[..|shown| - 1] + "/";
    }
  }

  /** Rendering undoes parsing: every line the parser accepts is the
      rendering of what it read. */
  lemma RenderParse(line: string)
    requires ParseLine(line).Some?
    ensures RenderLine(ParseLine(line).value) == line
    ensures Unambiguous(ParseLine(line).value)
  {
    var split := ParseIndent(line);
    var bars, rest := split.0, split.1;
    var n := CountDashes(rest[1..]);
    var shown := rest[n + 2..];
    var v := ViewWithName(bars, rest[0] == Corner, n, shown);
    assert ParseLine(line) == Some(v);
    BranchOfRest(rest, n);
    ShownName(bars, rest[0] == Corner, n, shown);
    RenderLineParts(v);
    assert line == Indent(bars) + rest;
  }

  /** The printed line, read back, shows exactly the entry's view: one flag
      per ancestor level, corner iff last sibling, `dashCount` dashes, the
      name, and a trailing slash iff a directory. */
  lemma ParseLineOfEntry(e: Entry, es: seq<Entry>, dashCount: nat)
    requires !(|FileName(e.path)| > 0 && FileName(e.path)[|FileName(e.path)| - 1] == '/')
    ensures ParseLine(Line(e, es, dashCount)) == Some(ViewOf(e, es, dashCount))
  {
    ParseRender(ViewOf(e, es, dashCount));
  }
}
