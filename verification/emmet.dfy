/**
 * The Emmet-style abbreviation expander of out/extension.js: a line ending in
 * `name>name>...` expands to nested tags, each name translated to the
 * locale's native tag through the inverted dictionary and a few aliases.
 */
module Emmet {
  import opened Wrappers
  import opened Strings
  import opened Dictionary

  const IndentSize: nat := 2

  // ---------------------------------------------------------------------
  // The abbreviation `/(\w+)(>(\w+))+$/`

  /** A name of the abbreviation: one or more `\w` characters. */
  predicate IsWord(t: string) {
    t != [] && forall k :: 0 <= k < |t| ==> IsWordChar(t[k])
  }

  /** `t` is a whole match of `\w+(>\w+)+`: two or more words separated by single `>`. */
  predicate IsAbbreviation(t: string) {
    var parts := Split(t, ">");
    |parts| >= 2 && forall k :: 0 <= k < |parts| ==> IsWord(parts[k])
  }

  /** The leftmost index at or after `j` from which the rest of `s` is an abbreviation. */
  function AbbreviationFrom(s: string, j: nat): (r: Option<nat>)
    requires j <= |s|
    ensures r.Some? ==> j <= r.value <= |s| && IsAbbreviation(s[r.value..])
    ensures r.Some? ==> forall k :: j <= k < r.value ==> !IsAbbreviation(s[k..])
    ensures r.None? ==> forall k :: j <= k <= |s| ==> !IsAbbreviation(s[k..])
    decreases |s| - j
  {
    if IsAbbreviation(s[j..]) then Some(j)
    else if j == |s| then None
    else AbbreviationFrom(s, j + 1)
  }

  /** Where `linePrefix.match(/(\w+)(>(\w+))+$/)` starts, if it matches. */
  function Abbreviation(linePrefix: string): Option<nat> {
    AbbreviationFrom(linePrefix, 0)
  }

  // ---------------------------------------------------------------------
  // Name translation

  /** `m[k] || k`: the mapped name when present and non-empty, the name itself otherwise. */
  function Pick(m: map<string, string>, k: string): (r: string)
    ensures r == k || (k in m && r == m[k] && r != [])
    ensures k in m && m[k] != [] ==> r == m[k]
  {
    if k in m && m[k] != [] then m[k] else k
  }

  /** The canonical tag an alias stands for. */
  function AliasOf(t: string): Option<string> {
    if t == "page" then Some("html")
    else if t == "para" then Some("p")
    else if t == "btn" then Some("button")
    else if t == "heading" || t == "heading1" then Some("h1")
    else if t == "heading2" then Some("h2")
    else if t == "heading3" then Some("h3")
    else None
  }

  /** The alias table: each alias names the native form of its canonical tag, or the canonical tag. */
  function AliasMap(reverse: map<string, string>): map<string, string> {
    map[
      "page" := Pick(reverse, "html"), "para" := Pick(reverse, "p"), "btn" := Pick(reverse, "button"),
      "heading" := Pick(reverse, "h1"), "heading1" := Pick(reverse, "h1"),
      "heading2" := Pick(reverse, "h2"), "heading3" := Pick(reverse, "h3")]
  }

  /** `Object.assign(reverseMap, aliases)`: the aliases override the inverted dictionary. */
  function Merged(reverse: map<string, string>): map<string, string> {
    reverse + AliasMap(reverse)
  }

  /**
   * How a name is translated: an alias becomes the native form of its
   * canonical tag (or that tag), any other name its native form when the
   * dictionary has a non-empty one, and is kept as typed otherwise.
   */
  lemma NameTranslation(reverse: map<string, string>, t: string)
    ensures AliasOf(t).Some? ==> Pick(Merged(reverse), t) == Pick(reverse, AliasOf(t).value)
    ensures AliasOf(t).None? ==> Pick(Merged(reverse), t) == Pick(reverse, t)
  {
    var aliases := AliasMap(reverse);
    if AliasOf(t).None? {
      assert t !in aliases;
    } else if t == "page" {
      assert aliases[t] == Pick(reverse, "html");
    } else if t == "para" {
      assert aliases[t] == Pick(reverse, "p");
    } else if t == "btn" {
      assert aliases[t] == Pick(reverse, "button");
    } else if t == "heading" || t == "heading1" {
      assert aliases[t] == Pick(reverse, "h1");
    } else if t == "heading2" {
      assert aliases[t] == Pick(reverse, "h2");
    } else {
      assert aliases[t] == Pick(reverse, "h3");
    }
  }

  /** The native name of every tag of the abbreviation. */
  function Natives(tags: seq<string>, merged: map<string, string>): (ns: seq<string>)
    ensures |ns| == |tags| && forall k :: 0 <= k < |tags| ==> ns[k] == Pick(merged, tags[k])
  {
    seq(|tags|, k requires 0 <= k < |tags| => Pick(merged, tags[k]))
  }

  // ---------------------------------------------------------------------
  // The snippet

  function Open(t: string): string { "<" + t + ">" }
  function Close(t: string): string { "</" + t + ">" }

  /** The opening tags from the `i`-th on, each on its own line, indented by depth. */
  function OpenFrom(ns: seq<string>, i: nat): string
    requires i < |ns|
    decreases |ns| - i
  {
    Spaces(IndentSize * i) + Open(ns[i]) + (if i == |ns| - 1 then [] else "\n" + OpenFrom(ns, i + 1))
  }

  /** The closing tags from the innermost down to the `i`-th, in the order the second loop emits them. */
  function CloseDownTo(ns: seq<string>, i: nat): string
    requires i < |ns|
    decreases |ns| - i
  {
    if i == |ns| - 1 then Close(ns[i])
    else CloseDownTo(ns, i + 1) + "\n" + Spaces(IndentSize * i) + Close(ns[i])
  }

  /** The snippet both loops build: the opening tags, the cursor `$0`, the closing tags. */
  function Snippet(ns: seq<string>): string
    requires ns != []
  {
    OpenFrom(ns, 0) + "$0" + CloseDownTo(ns, 0)
  }

  /**
   * The reference shape: the `i`-th tag opens at depth `i`, holds the rest
   * nested one level deeper (or the cursor, innermost), and closes at depth `i`.
   */
  function Nest(ns: seq<string>, i: nat): string
    requires i < |ns|
    decreases |ns| - i
  {
    var pad := Spaces(IndentSize * i);
    if i == |ns| - 1 then pad + Open(ns[i]) + "$0" + Close(ns[i])
    else pad + Open(ns[i]) + "\n" + Nest(ns, i + 1) + "\n" + pad + Close(ns[i])
  }

  /** The two loops produce properly nested tags, closing in reverse order at the depth they opened. */
  lemma {:induction false} SnippetNests(ns: seq<string>, i: nat)
    requires i < |ns|
    ensures OpenFrom(ns, i) + "$0" + CloseDownTo(ns, i) == Nest(ns, i)
    decreases |ns| - i
  {
    if i < |ns| - 1 {
      SnippetNests(ns, i + 1);
      var pad := Spaces(IndentSize * i);
      OpenFromCons(ns, i);
      CloseDownToCons(ns, i);
      NestCons(ns, i);
      Regroup(pad + Open(ns[i]), OpenFrom(ns, i + 1), CloseDownTo(ns, i + 1), pad + Close(ns[i]));
    }
  }

  lemma CloseDownToCons(ns: seq<string>, i: nat)
    requires i < |ns| - 1
    ensures CloseDownTo(ns, i) == CloseDownTo(ns, i + 1) + "\n" + (Spaces(IndentSize * i) + Close(ns[i]))
  {
  }

  lemma NestCons(ns: seq<string>, i: nat)
    requires i < |ns| - 1
    ensures Nest(ns, i) == Spaces(IndentSize * i) + Open(ns[i]) + "\n" + Nest(ns, i + 1) + "\n" + (Spaces(IndentSize * i) + Close(ns[i]))
  {
  }

  lemma Regroup(head: string, inner: string, rest: string, tail: string)
    ensures (head + "\n") + inner + "$0" + (rest + "\n" + tail) == head + "\n" + (inner + "$0" + rest) + "\n" + tail
  {
  }

  /** The completion offered: the abbreviation, the snippet replacing it, and the column it starts at. */
  datatype Completion = Completion(abbreviation: string, snippet: string, start: nat)

  /** The completion for the text left of the cursor, with the locale dictionary `html`. */
  function Expansion(linePrefix: string, html: Dict): Option<Completion> {
    match Abbreviation(linePrefix)
    case None => None
    case Some(start) =>
      var abbr := linePrefix[start..];
      var tags := Split(abbr, ">");
      Some(Completion(abbr, Snippet(Natives(tags, Merged(Reverse(html)))), start))
  }

  /** An abbreviation of `n` names expands to `n` tags nested in the order typed. */
  lemma ExpansionNests(linePrefix: string, html: Dict)
    requires Expansion(linePrefix, html).Some?
    ensures var c := Expansion(linePrefix, html).value;
      var tags := Split(c.abbreviation, ">");
      && |tags| >= 2 && (forall k :: 0 <= k < |tags| ==> IsWord(tags[k]))
      && c.abbreviation == linePrefix[c.start..]
      && c.snippet == Nest(Natives(tags, Merged(Reverse(html))), 0)
  {
    var c := Expansion(linePrefix, html).value;
    SnippetNests(Natives(Split(c.abbreviation, ">"), Merged(Reverse(html))), 0);
  }

  // ---------------------------------------------------------------------
  // The completion provider

  /** One more opening line of `OpenTags` keeps what is built plus what is left equal to the whole. */
  lemma OpenedOne(ns: seq<string>, html: string, i: nat)
    requires i < |ns| - 1 && html + OpenFrom(ns, i) == OpenFrom(ns, 0)
    ensures html + (Spaces(IndentSize * i) + Open(ns[i]) + "\n") + OpenFrom(ns, i + 1) == OpenFrom(ns, 0)
  {
    OpenFromCons(ns, i);
    Assoc(html, Spaces(IndentSize * i) + Open(ns[i]) + "\n", OpenFrom(ns, i + 1));
  }

  /** The innermost tag, with no newline after it, completes the opening lines. */
  lemma OpenedLast(ns: seq<string>, html: string, i: nat)
    requires i == |ns| - 1 && html + OpenFrom(ns, i) == OpenFrom(ns, 0)
    ensures html + Spaces(IndentSize * i) + Open(ns[i]) == OpenFrom(ns, 0)
  {
    assert OpenFrom(ns, i) == Spaces(IndentSize * i) + Open(ns[i]) + [];
    Assoc(html, Spaces(IndentSize * i), Open(ns[i]));
  }

  /** The opening tags from the `i`-th on, split after the `i`-th tag's line. */
  lemma OpenFromCons(ns: seq<string>, i: nat)
    requires i < |ns| - 1
    ensures OpenFrom(ns, i) == (Spaces(IndentSize * i) + Open(ns[i]) + "\n") + OpenFrom(ns, i + 1)
  {
  }

  /** The opening-tag loop: one tag per name, a line break and two more spaces between them. */
  method OpenTags(tags: seq<string>, merged: map<string, string>) returns (html: string, indent: nat)
    requires tags != []
    ensures html == OpenFrom(Natives(tags, merged), 0)
    ensures indent == IndentSize * (|tags| - 1)
  {
    ghost var ns := Natives(tags, merged);
    html, indent := "", 0;
    var i := 0;
    while i < |tags| - 1
      invariant i <= |tags| - 1
      invariant html + OpenFrom(ns, i) == OpenFrom(ns, 0)
      invariant indent == IndentSize * i
    {
      var nativeTag := Pick(merged, tags[i]);
      var line := Spaces(indent) + Open(nativeTag) + "\n";
      OpenedOne(ns, html, i);
      html, indent := html + line, indent + IndentSize;
      i := i + 1;
    }
    OpenedLast(ns, html, i);
    html := html + Spaces(indent) + Open(Pick(merged, tags[i]));
  }

  /** The closing-tag loop, innermost first, each outer one on a new line two spaces further out. */
  method CloseTags(tags: seq<string>, merged: map<string, string>, indent: nat) returns (html: string)
    requires tags != [] && indent == IndentSize * (|tags| - 1)
    ensures html == CloseDownTo(Natives(tags, merged), 0)
  {
    ghost var ns := Natives(tags, merged);
    html := "";
    var depth := indent;
    var i := |tags|;
    while i > 0
      invariant 0 <= i <= |tags|
      invariant i < |tags| ==> html == CloseDownTo(ns, i) && depth == IndentSize * i
      invariant i == |tags| ==> html == [] && depth == IndentSize * (|tags| - 1)
    {
      i := i - 1;
      var nativeTag := Pick(merged, tags[i]);
      if i == |tags| - 1 {
        html := html + Close(nativeTag);
      } else {
        depth := depth - IndentSize;
        html := html + "\n" + Spaces(depth) + Close(nativeTag);
      }
    }
  }

  /** `provideCompletionItems`: match the abbreviation, invert the dictionary, add the aliases, build the snippet. */
  method Expand(linePrefix: string, html: Dict) returns (r: Option<Completion>)
    ensures r == Expansion(linePrefix, html)
  {
    var m := Abbreviation(linePrefix);
    if m.None? {
      return None;
    }
    var start := m.value;
    var abbr := linePrefix[start..];
    var reverse := BuildReverse(html);
    var merged := reverse + AliasMap(reverse);
    var tags := Split(abbr, ">");
    var opening, indent := OpenTags(tags, merged);
    var closing := CloseTags(tags, merged, indent);
    r := Some(Completion(abbr, opening + "$0" + closing, start));
  }
}
