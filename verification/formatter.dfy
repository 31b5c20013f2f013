/**
 * The document formatter of out/extension.js: every line is trimmed and
 * re-indented by two spaces per open tag, blank lines become empty lines,
 * and the trailing white space of the whole result is removed.
 */
module Formatter {
  import opened Strings

  const IndentSize: nat := 2

  /** The indentation a line is emitted at: a line starting with `</` first drops it by two, floored at zero. */
  function Dedent(t: string, indent: nat): nat {
    if StartsWith(t, "</") then (if indent >= IndentSize then indent - IndentSize else 0) else indent
  }

  /** `/<(\S+)/` finds a match: some `<` is followed by a character that is not white space. */
  predicate HasTagName(t: string) {
    exists j: nat | j + 1 < |t| :: t[j] == '<' && !IsSpace(t[j + 1])
  }

  /**
   * A trimmed line after which the indentation grows: it starts with `<` but
   * not `</`, does not end with `/>`, holds no `</`, and names a tag.
   */
  predicate Opens(t: string) {
    StartsWith(t, "<") && !StartsWith(t, "</") && !EndsWith(t, "/>") && !Contains(t, "</") && HasTagName(t)
  }

  /**
   * The source's last test, that the line does not contain `</name>` for the
   * tag name found, can never fail once the line holds no `</` at all.
   */
  lemma SameLineCloseImpossible(t: string, name: string)
    requires !Contains(t, "</")
    ensures !Contains(t, "</" + name + ">")
  {
    if Contains(t, "</" + name + ">") {
      var i: nat :| i <= |t| && At(t, i, "</" + name + ">");
      assert t[i..i + 2] == ("</" + name + ">")[..2];
      assert At(t, i, "</");
    }
  }

  /** The indentation after a trimmed line: blank lines leave it alone. */
  function Next(t: string, indent: nat): nat {
    if t == [] then indent
    else
      var d := Dedent(t, indent);
      if Opens(t) then d + IndentSize else d
  }

  /**
   * The indentation grows, by exactly two, after an opening line and only
   * then; it shrinks only at a closing line, and never below zero.
   */
  lemma IndentChange(t: string, indent: nat)
    ensures Opens(t) <==> Next(t, indent) == indent + IndentSize
    ensures !Opens(t) ==> Next(t, indent) <= indent
    ensures Next(t, indent) < indent <==> StartsWith(t, "</") && indent > 0
  {
    if StartsWith(t, "</") {
      assert t[..1] == "<";
      assert At(t, 0, "<");
    }
  }

  /** What a trimmed line becomes: nothing when blank, otherwise indented. */
  function LineOut(t: string, indent: nat): string {
    if t == [] then [] else Spaces(Dedent(t, indent)) + t
  }

  /** The output lines, one per input line, starting at indentation `indent`. */
  function OutLines(lines: seq<string>, indent: nat): (o: seq<string>)
    ensures |o| == |lines|
    decreases |lines|
  {
    if lines == [] then []
    else [LineOut(Trim(lines[0]), indent)] + OutLines(lines[1..], Next(Trim(lines[0]), indent))
  }

  /** The indentation reached after formatting `lines`, starting at `indent`. */
  function IndentAfter(lines: seq<string>, indent: nat): nat
    decreases |lines|
  {
    if lines == [] then indent else IndentAfter(lines[1..], Next(Trim(lines[0]), indent))
  }

  // Proof step: the indentation after the first `j` lines, one line at a time.
  lemma IndentAfterCons(lines: seq<string>, indent: nat, j: nat)
    requires 0 < j <= |lines|
    ensures IndentAfter(lines[..j], indent) == IndentAfter(lines[1..][..j - 1], Next(Trim(lines[0]), indent))
  {
    assert lines[..j][0] == lines[0] && lines[..j][1..] == lines[1..][..j - 1];
  }

  /** Each line followed by a newline. */
  function Concat(o: seq<string>): string {
    if o == [] then [] else o[0] + "\n" + Concat(o[1..])
  }

  /** The formatted document: the output lines, each ended by a newline, then `trimEnd`. */
  function Formatted(text: string): string {
    TrimEnd(Concat(OutLines(Split(text, "\n"), 0)))
  }

  lemma OutStep(lines: seq<string>, i: nat, indent: nat)
    requires i < |lines|
    ensures Concat(OutLines(lines[i..], indent)) ==
      LineOut(Trim(lines[i]), indent) + "\n" + Concat(OutLines(lines[i + 1..], Next(Trim(lines[i]), indent)))
  {
    assert lines[i..][1..] == lines[i + 1..];
    var o := OutLines(lines[i..], indent);
    assert o[1..] == OutLines(lines[i + 1..], Next(Trim(lines[i]), indent));
  }

  /** The body of the loop for one line: what it appends and the indentation it leaves. */
  method FormatLine(line: string, indent: nat) returns (out: string, next: nat)
    ensures out == LineOut(Trim(line), indent) + "\n" && next == Next(Trim(line), indent)
  {
    var trimmed := Trim(line);
    if trimmed == [] {
      return "\n", indent;
    }
    var current: int := indent;
    if StartsWith(trimmed, "</") {
      current := if current - IndentSize > 0 then current - IndentSize else 0;
    }
    out := Spaces(current) + trimmed + "\n";
    next := current;
    if StartsWith(trimmed, "<") && !StartsWith(trimmed, "</") {
      if !EndsWith(trimmed, "/>") && !Contains(trimmed, "</") {
        if HasTagName(trimmed) {
          next := next + IndentSize;
        }
      }
    }
  }

  /** The formatting loop over `text.split('\n')`, with its running `formatted` and `indent`. */
  method Format(text: string) returns (r: string)
    ensures r == Formatted(text)
  {
    var lines := Split(text, "\n");
    ghost var whole := Concat(OutLines(lines, 0));
    var formatted := "";
    var indent: nat := 0;
    assert lines[0..] == lines;
    for i := 0 to |lines|
      invariant formatted + Concat(OutLines(lines[i..], indent)) == whole
    {
      OutStep(lines, i, indent);
      var out, next := FormatLine(lines[i], indent);
      ghost var rest := Concat(OutLines(lines[i + 1..], next));
      Assoc(formatted, out, rest);
      formatted, indent := formatted + out, next;
    }
    assert lines[|lines|..] == [];
    assert formatted == whole;
    r := TrimEnd(formatted);
  }

  // ---------------------------------------------------------------------
  // The shape of the output

  /** A formatted line keeps the trimmed text of its input line, and only that. */
  lemma LineOutTrim(line: string, indent: nat)
    ensures Trim(LineOut(Trim(line), indent)) == Trim(line)
    ensures LineOut(Trim(line), indent) == [] <==> Trim(line) == []
    ensures LineOut(Trim(line), indent) != [] ==> !IsSpace(LineOut(Trim(line), indent)[|LineOut(Trim(line), indent)| - 1])
  {
    var t := Trim(line);
    if t != [] {
      TrimIndented(Dedent(t, indent), t);
    }
  }

  /** Formatting never introduces a line break inside a line. */
  lemma LineOutOneLine(line: string, indent: nat)
    requires '\n' !in line
    ensures '\n' !in LineOut(Trim(line), indent)
  {
    var t := Trim(line);
    var i := TrimWithin(line);
    forall k | 0 <= k < |t| ensures t[k] != '\n' {
      assert t[k] == line[i + k];
    }
  }

  /** Formatting the output lines again gives the same lines. */
  lemma {:induction false} ReformatLines(lines: seq<string>, indent: nat)
    ensures OutLines(OutLines(lines, indent), indent) == OutLines(lines, indent)
    decreases |lines|
  {
    if lines != [] {
      var o := OutLines(lines, indent);
      OutLinesCons(lines, indent);
      LineOutTrim(lines[0], indent);
      OutLinesCons(o, indent);
      ReformatLines(lines[1..], Next(Trim(lines[0]), indent));
    }
  }

  lemma OutLinesCons(lines: seq<string>, indent: nat)
    requires lines != []
    ensures OutLines(lines, indent) ==
      [LineOut(Trim(lines[0]), indent)] + OutLines(lines[1..], Next(Trim(lines[0]), indent))
  {
  }

  lemma TakeCons(lines: seq<string>, k: nat)
    requires 0 < k <= |lines|
    ensures lines[..k][0] == lines[0] && lines[..k][1..] == lines[1..][..k - 1]
  {
  }

  lemma PrefixCons(x: string, a: seq<string>, b: seq<string>, k: nat)
    requires 0 < k <= |b| + 1 && a == b[..k - 1]
    ensures [x] + a == ([x] + b)[..k]
  {
  }

  /** The output lines of a prefix of the input are a prefix of the output lines. */
  lemma {:induction false} OutLinesPrefix(lines: seq<string>, indent: nat, k: nat)
    requires k <= |lines|
    ensures OutLines(lines[..k], indent) == OutLines(lines, indent)[..k]
    decreases |lines|
  {
    if k > 0 {
      var n := Next(Trim(lines[0]), indent);
      var p := lines[..k];
      TakeCons(lines, k);
      OutLinesPrefix(lines[1..], n, k - 1);
      OutLinesCons(p, indent);
      OutLinesCons(lines, indent);
      PrefixCons(LineOut(Trim(lines[0]), indent), OutLines(p[1..], n), OutLines(lines[1..], n), k);
    }
  }

  lemma {:induction false} ConcatJoin(o: seq<string>)
    requires o != []
    ensures Concat(o) == Join(o, "\n") + "\n"
    decreases |o|
  {
    if |o| > 1 {
      ConcatJoin(o[1..]);
    } else {
      assert o[1..] == [];
    }
  }

  lemma {:induction false} ConcatAppend(a: seq<string>, b: seq<string>)
    ensures Concat(a + b) == Concat(a) + Concat(b)
    decreases |a|
  {
    if a == [] {
      assert a + b == b;
    } else {
      assert (a + b)[1..] == a[1..] + b;
      ConcatAppend(a[1..], b);
    }
  }

  /** Blank output lines contribute only newlines. */
  lemma {:induction false} ConcatBlank(o: seq<string>)
    requires forall k :: 0 <= k < |o| ==> o[k] == []
    ensures forall k :: 0 <= k < |Concat(o)| ==> IsSpace(Concat(o)[k])
    ensures |Concat(o)| == |o|
    decreases |o|
  {
    if o != [] {
      ConcatBlank(o[1..]);
      assert Concat(o) == "\n" + Concat(o[1..]);
    }
  }

  /** The last character of a join is the last character of its last part. */
  lemma {:induction false} JoinLast(o: seq<string>)
    requires o != [] && o[|o| - 1] != []
    ensures Join(o, "\n") != [] && Join(o, "\n")[|Join(o, "\n")| - 1] == o[|o| - 1][|o[|o| - 1]| - 1]
    decreases |o|
  {
    if |o| > 1 {
      JoinLast(o[1..]);
    }
  }

  /** White space alone trims to nothing. */
  lemma {:induction false} TrimEndBlank(s: string)
    requires forall k :: 0 <= k < |s| ==> IsSpace(s[k])
    ensures TrimEnd(s) == []
    decreases |s|
  {
    if s != [] {
      TrimEndBlank(s[..|s| - 1]);
    }
  }

  /** The output lines up to and including the last non-blank one. */
  function Kept(o: seq<string>): (k: seq<string>)
    ensures |k| <= |o| && k == o[..|k|]
    ensures forall j :: |k| <= j < |o| ==> o[j] == []
    ensures k == [] || k[|k| - 1] != []
    decreases |o|
  {
    if o == [] || o[|o| - 1] != [] then o else Kept(o[..|o| - 1])
  }

  /** Lines that hold no newline. */
  predicate SingleLines(o: seq<string>) {
    forall j :: 0 <= j < |o| ==> '\n' !in o[j]
  }

  /** Lines each of which is empty or ends in a visible character. */
  predicate EndVisible(o: seq<string>) {
    forall j :: 0 <= j < |o| && o[j] != [] ==> !IsSpace(o[j][|o[j]| - 1])
  }

  /** The input lines as `text.split('\n')` gives them; none holds a newline. */
  lemma SplitLines(text: string)
    ensures SingleLines(Split(text, "\n"))
  {
    SplitFromParts(text, '\n', 0);
  }

  /** Trimming the end of lines that each end in a visible character keeps them up to the last non-blank one. */
  lemma TrimConcat(o: seq<string>)
    requires EndVisible(o)
    ensures TrimEnd(Concat(o)) == Join(Kept(o), "\n")
  {
    var k := Kept(o);
    KeptTail(o);
    if k == [] {
      KeptNone(o);
      TrimEndBlank(Concat(o));
    } else {
      KeptLast(o);
      TrimKept(k, Concat(o[|k|..]));
    }
  }

  lemma KeptNone(o: seq<string>)
    requires Kept(o) == []
    ensures Concat(o) == Concat(o[|Kept(o)|..])
  {
    assert o[0..] == o;
  }

  lemma KeptLast(o: seq<string>)
    requires EndVisible(o) && Kept(o) != []
    ensures var k := Kept(o); k[|k| - 1] != [] && !IsSpace(k[|k| - 1][|k[|k| - 1]| - 1])
  {
    var k := Kept(o);
    assert k[|k| - 1] == o[|k| - 1];
  }

  /** Newline-ended kept lines followed by white space trim to the join of those lines. */
  lemma TrimKept(k: seq<string>, tail: string)
    requires k != [] && k[|k| - 1] != [] && !IsSpace(k[|k| - 1][|k[|k| - 1]| - 1])
    requires forall i :: 0 <= i < |tail| ==> IsSpace(tail[i])
    ensures TrimEnd(Concat(k) + tail) == Join(k, "\n")
  {
    var j := Join(k, "\n");
    ConcatJoin(k);
    JoinLast(k);
    NewlineBlank(tail);
    Assoc(j, "\n", tail);
    TrimEndAppend(j, "\n" + tail);
  }

  /** The lines after the kept ones contribute white space only. */
  lemma KeptTail(o: seq<string>)
    ensures Concat(o) == Concat(Kept(o)) + Concat(o[|Kept(o)|..])
    ensures forall i :: 0 <= i < |Concat(o[|Kept(o)|..])| ==> IsSpace(Concat(o[|Kept(o)|..])[i])
  {
    var k := Kept(o);
    assert o == k + o[|k|..];
    ConcatAppend(k, o[|k|..]);
    ConcatBlank(o[|k|..]);
  }

  lemma NewlineBlank(tail: string)
    requires forall i :: 0 <= i < |tail| ==> IsSpace(tail[i])
    ensures forall i :: 0 <= i < |"\n" + tail| ==> IsSpace(("\n" + tail)[i])
  {
  }

  /** Output lines of single lines: none holds a newline, and none ends in white space. */
  lemma OutLinesClean(lines: seq<string>)
    requires SingleLines(lines)
    ensures SingleLines(OutLines(lines, 0)) && EndVisible(OutLines(lines, 0))
  {
    var o := OutLines(lines, 0);
    forall j | 0 <= j < |o| ensures '\n' !in o[j] && (o[j] != [] ==> !IsSpace(o[j][|o[j]| - 1])) {
      var d := OutLineAt(lines, 0, j);
      LineOutOneLine(lines[j], d);
    }
  }

  /**
   * The formatted document is its output lines, up to the last non-blank one,
   * joined by newlines: blank lines become empty lines, and the trailing blank
   * lines and the final newline are dropped.
   */
  lemma FormattedLines(text: string)
    ensures Formatted(text) == Join(Kept(OutLines(Split(text, "\n"), 0)), "\n")
  {
    SplitLines(text);
    TrimmedOutput(Split(text, "\n"));
  }

  lemma TrimmedOutput(lines: seq<string>)
    requires SingleLines(lines)
    ensures TrimEnd(Concat(OutLines(lines, 0))) == Join(Kept(OutLines(lines, 0)), "\n")
  {
    var o := OutLines(lines, 0);
    OutLinesClean(lines);
    TrimConcat(o);
  }

  /**
   * Every output line is the formatted form of its own input line at the
   * indentation `d` reached after the lines before it, and does not end in
   * white space.
   */
  lemma {:induction false} OutLineAt(lines: seq<string>, indent: nat, j: nat) returns (d: nat)
    requires j < |lines|
    ensures d == IndentAfter(lines[..j], indent)
    ensures OutLines(lines, indent)[j] == LineOut(Trim(lines[j]), d)
    ensures var o := OutLines(lines, indent)[j];
      o != [] ==> !IsSpace(o[|o| - 1])
    decreases |lines|
  {
    OutLinesCons(lines, indent);
    if j == 0 {
      d := indent;
      assert lines[..0] == [];
      LineOutTrim(lines[0], indent);
    } else {
      d := OutLineAt(lines[1..], Next(Trim(lines[0]), indent), j - 1);
      assert lines[1..][j - 1] == lines[j];
      IndentAfterCons(lines, indent, j);
    }
  }

  /** The kept output lines hold no newline and end in a visible character. */
  lemma KeptClean(lines: seq<string>)
    requires SingleLines(lines)
    ensures SingleLines(Kept(OutLines(lines, 0))) && EndVisible(Kept(OutLines(lines, 0)))
  {
    OutLinesClean(lines);
    var o := OutLines(lines, 0);
    var k := Kept(o);
    forall j | 0 <= j < |k| ensures '\n' !in k[j] && (k[j] != [] ==> !IsSpace(k[j][|k[j]| - 1])) {
      assert k[j] == o[j];
    }
  }

  /** Splitting the joined kept lines at their newlines gives them back. */
  lemma SplitKept(lines: seq<string>)
    requires SingleLines(lines)
    requires Kept(OutLines(lines, 0)) != []
    ensures Split(Join(Kept(OutLines(lines, 0)), "\n"), "\n") == Kept(OutLines(lines, 0))
  {
    var k := Kept(OutLines(lines, 0));
    var f := Join(k, "\n");
    KeptClean(lines);
    assert f[0..] == f;
    SplitFromJoined(f, '\n', 0, k);
  }

  /** Formatting the kept output lines again reproduces them. */
  lemma ReformatKept(lines: seq<string>)
    ensures OutLines(Kept(OutLines(lines, 0)), 0) == Kept(OutLines(lines, 0))
  {
    var o := OutLines(lines, 0);
    OutLinesPrefix(o, 0, |Kept(o)|);
    ReformatLines(lines, 0);
  }

  /** The formatted form of single lines is its own formatted form. */
  lemma ReformatJoined(lines: seq<string>)
    requires SingleLines(lines)
    ensures TrimEnd(Concat(OutLines(Split(Join(Kept(OutLines(lines, 0)), "\n"), "\n"), 0)))
      == Join(Kept(OutLines(lines, 0)), "\n")
  {
    var k := Kept(OutLines(lines, 0));
    var f := Join(k, "\n");
    if k == [] {
      assert f == [];
      ReformatEmpty();
    } else {
      SplitKept(lines);
      ReformatKept(lines);
      assert OutLines(Split(f, "\n"), 0) == k;
      KeptTrimmed(lines);
    }
  }

  /** Keeping the lines up to the last non-blank one again changes nothing. */
  lemma KeptKept(k: seq<string>)
    requires k == [] || k[|k| - 1] != []
    ensures Kept(k) == k
  {
  }

  /** The kept output lines, each ended by a newline and then trimmed, are their join. */
  lemma KeptTrimmed(lines: seq<string>)
    requires SingleLines(lines)
    ensures TrimEnd(Concat(Kept(OutLines(lines, 0)))) == Join(Kept(OutLines(lines, 0)), "\n")
  {
    var k := Kept(OutLines(lines, 0));
    KeptClean(lines);
    KeptKept(k);
    TrimConcat(k);
  }

  lemma SplitEmpty()
    ensures Split([], "\n") == [[]]
  {
    assert IndexFrom([], "\n", 0).None?;
  }

  lemma TrimEmpty()
    ensures Trim([]) == [] && LineOut([], 0) == []
  {
    assert TrimStart([]) == [];
  }

  lemma BlankLineOut()
    ensures OutLines([[]], 0) == [[]] && Concat([[]]) == "\n"
  {
    TrimEmpty();
    var o := OutLines([[]], 0);
    OutLinesCons([[]], 0);
    assert o == [LineOut([], 0)] + OutLines([], 0);
  }

  lemma TrimNewline()
    ensures TrimEnd("\n") == []
  {
    assert TrimEnd("\n") == TrimEnd([]);
  }

  /** An empty document formats to itself. */
  lemma ReformatEmpty()
    ensures TrimEnd(Concat(OutLines(Split([], "\n"), 0))) == []
  {
    SplitEmpty();
    BlankLineOut();
    TrimNewline();
  }

  /** Formatting a formatted document changes nothing. */
  lemma FormatIdempotent(text: string)
    ensures Formatted(Formatted(text)) == Formatted(text)
  {
    FormattedLines(text);
    SplitLines(text);
    ReformatJoined(Split(text, "\n"));
  }
}
