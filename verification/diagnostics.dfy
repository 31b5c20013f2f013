/**
 * The unknown-tag diagnostics: `updateDiagnostics` of out/extension.js and
 * its older form in src/extension.ts. Every `<name` or `</name` whose name is
 * not a key of the locale dictionary is reported, with a range covering the
 * name. Ranges are character offsets into the document.
 */
module Diagnostics {
  import opened Wrappers
  import opened Strings
  import opened Dictionary
  import opened TagScan

  /** An error diagnostic: the offsets of the range it marks, and its message. */
  datatype Diagnostic = Diagnostic(start: nat, end: nat, message: string)

  /** The variant of the scan: the language named in messages, and whether names with `?` are skipped. */
  datatype Rules = Rules(languageName: string, skipQuestion: bool)

  /** The rules of src/extension.ts: Tamil only, and only names starting with `!` are skipped. */
  const TamilRules: Rules := Rules("Tamil", false)

  function Message(rules: Rules, name: string): string {
    "Unknown " + rules.languageName + " tag: '" + name + "'."
  }

  /** Names that are never reported: comments and `!DOCTYPE`, and under the newer rules `<?...`. */
  predicate Skipped(name: string, rules: Rules) {
    StartsWith(name, "!") || (rules.skipQuestion && '?' in name)
  }

  /** A name is reported when it is not skipped and not among the dictionary's keys. */
  predicate Reported(name: string, keys: seq<string>, rules: Rules) {
    !Skipped(name, rules) && name !in keys
  }

  /** The diagnostics of the scan from index `i` on, in the order the `while (regex.exec(text))` loop finds them. */
  function DiagnosticsFrom(text: string, i: nat, keys: seq<string>, rules: Rules): seq<Diagnostic>
    requires i <= |text|
    decreases |text| - i
  {
    if i == |text| then []
    else
      match TagNameAt(text, i, NotGtOrSpace)
      case None => DiagnosticsFrom(text, i + 1, keys, rules)
      case Some(m) => FoundAt(text, i, m, keys, rules) + DiagnosticsFrom(text, m.end, keys, rules)
  }

  /** What the match `m` at index `i` adds: one diagnostic covering its name when the name is reported. */
  function FoundAt(text: string, i: nat, m: NameMatch, keys: seq<string>, rules: Rules): seq<Diagnostic>
    requires i <= |text| && TagNameAt(text, i, NotGtOrSpace) == Some(m)
  {
    if Reported(m.name, keys, rules) then
      var start := NameStart(text, i, NotGtOrSpace, m);
      [Diagnostic(start, start + |m.name|, Message(rules, m.name))]
    else []
  }

  /** A step of the scan without a match at `i` moves on by one. */
  lemma NoMatchStep(text: string, i: nat, keys: seq<string>, rules: Rules)
    requires i < |text| && TagNameAt(text, i, NotGtOrSpace).None?
    ensures DiagnosticsFrom(text, i, keys, rules) == DiagnosticsFrom(text, i + 1, keys, rules)
  {
  }

  /** A step of the scan with a match at `i` adds what the match gives and moves past it. */
  lemma MatchStep(text: string, i: nat, m: NameMatch, keys: seq<string>, rules: Rules)
    requires i < |text| && TagNameAt(text, i, NotGtOrSpace) == Some(m)
    ensures DiagnosticsFrom(text, i, keys, rules) == FoundAt(text, i, m, keys, rules) + DiagnosticsFrom(text, m.end, keys, rules)
  {
  }

  /**
   * `updateDiagnostics`: nothing is computed for a file that does not end with
   * the locale's HTML extension; otherwise the scan over the whole text.
   */
  function Update(fileName: string, htmlExt: string, text: string, html: Dict, rules: Rules): (r: Option<seq<Diagnostic>>)
    ensures r.Some? <==> EndsWith(fileName, htmlExt)
  {
    if !EndsWith(fileName, htmlExt) then None else Some(DiagnosticsFrom(text, 0, Keys(html), rules))
  }

  // ---------------------------------------------------------------------
  // The scanning loop

  /** One `regex.exec`: no match at `i`, or a match that is reported or passed over. */
  method ScanAt(text: string, i: nat, keys: seq<string>, rules: Rules) returns (found: seq<Diagnostic>, next: nat)
    requires i < |text|
    ensures i < next <= |text|
    ensures found + DiagnosticsFrom(text, next, keys, rules) == DiagnosticsFrom(text, i, keys, rules)
  {
    var m := TagNameAt(text, i, NotGtOrSpace);
    if m.None? {
      NoMatchStep(text, i, keys, rules);
      return [], i + 1;
    }
    MatchStep(text, i, m.value, keys, rules);
    var tagName := m.value.name;
    next := m.value.end;
    found := [];
    if Skipped(tagName, rules) {
      return;
    }
    if tagName !in keys {
      var start := NameStart(text, i, NotGtOrSpace, m.value);
      found := [Diagnostic(start, start + |tagName|, Message(rules, tagName))];
    }
  }

  /** The `while` loop pushing one diagnostic per unknown tag name. */
  method Scan(text: string, keys: seq<string>, rules: Rules) returns (diagnostics: seq<Diagnostic>)
    ensures diagnostics == DiagnosticsFrom(text, 0, keys, rules)
  {
    diagnostics := [];
    var i := 0;
    while i < |text|
      invariant i <= |text|
      invariant diagnostics + DiagnosticsFrom(text, i, keys, rules) == DiagnosticsFrom(text, 0, keys, rules)
      decreases |text| - i
    {
      var found, next := ScanAt(text, i, keys, rules);
      diagnostics, i := diagnostics + found, next;
    }
  }

  /** `updateDiagnostics` with the file-name guard, then the scan. */
  method UpdateDiagnostics(fileName: string, htmlExt: string, text: string, html: Dict, rules: Rules)
    returns (r: Option<seq<Diagnostic>>)
    ensures r == Update(fileName, htmlExt, text, html, rules)
  {
    if !EndsWith(fileName, htmlExt) {
      return None;
    }
    var diagnostics := Scan(text, Keys(html), rules);
    r := Some(diagnostics);
  }

  // ---------------------------------------------------------------------
  // Properties

  /**
   * What a diagnostic says about the text: its range lies in the text and
   * covers a name that is reported, holds no `>` or white space, and is the
   * name its message mentions.
   */
  predicate Marks(text: string, d: Diagnostic, keys: seq<string>, rules: Rules) {
    && d.start < d.end <= |text|
    && Reported(text[d.start..d.end], keys, rules)
    && (forall k :: d.start <= k < d.end ==> text[k] != '>' && !IsSpace(text[k]))
    && d.message == Message(rules, text[d.start..d.end])
  }

  /**
   * A match gives at most one diagnostic, and one exactly when its name is
   * reported; that diagnostic lies inside the match and marks the name.
   */
  lemma FoundAtSound(text: string, i: nat, m: NameMatch, keys: seq<string>, rules: Rules)
    requires i <= |text| && TagNameAt(text, i, NotGtOrSpace) == Some(m)
    ensures var r := FoundAt(text, i, m, keys, rules);
      && |r| <= 1 && (r != [] <==> Reported(m.name, keys, rules))
      && forall d :: d in r ==> i <= d.start && d.end <= m.end && Marks(text, d, keys, rules)
  {
    if Reported(m.name, keys, rules) {
      FoundMarks(text, i, m, keys, rules);
    }
  }

  /** The diagnostic for a reported name found at `i`. */
  lemma FoundMarks(text: string, i: nat, m: NameMatch, keys: seq<string>, rules: Rules)
    requires i <= |text| && TagNameAt(text, i, NotGtOrSpace) == Some(m) && Reported(m.name, keys, rules)
    ensures Marks(text, Diagnostic(NameStart(text, i, NotGtOrSpace, m), NameStart(text, i, NotGtOrSpace, m) + |m.name|, Message(rules, m.name)), keys, rules)
  {
    MatchedName(text, i, NotGtOrSpace, m);
    NameMarks(text, NameStart(text, i, NotGtOrSpace, m), m.name, keys, rules);
  }

  lemma NameMarks(text: string, start: nat, name: string, keys: seq<string>, rules: Rules)
    requires start + |name| <= |text| && text[start..start + |name|] == name && name != []
    requires forall k :: 0 <= k < |name| ==> InName(name[k], NotGtOrSpace)
    requires Reported(name, keys, rules)
    ensures Marks(text, Diagnostic(start, start + |name|, Message(rules, name)), keys, rules)
  {
    forall k | start <= k < start + |name| ensures text[k] != '>' && !IsSpace(text[k]) {
      assert text[k] == name[k - start];
    }
  }

  /**
   * Every diagnostic marks a name that is not skipped and not a dictionary
   * key, its range covers exactly that name and lies after the scan's
   * starting point, and its message names it.
   */
  lemma {:induction false} DiagnosticsSound(text: string, i: nat, keys: seq<string>, rules: Rules)
    requires i <= |text|
    ensures forall d :: d in DiagnosticsFrom(text, i, keys, rules) ==> i <= d.start && Marks(text, d, keys, rules)
    decreases |text| - i
  {
    if i < |text| {
      match TagNameAt(text, i, NotGtOrSpace)
      case None =>
        NoMatchStep(text, i, keys, rules);
        DiagnosticsSound(text, i + 1, keys, rules);
      case Some(m) =>
        MatchStep(text, i, m, keys, rules);
        DiagnosticsSound(text, m.end, keys, rules);
        FoundAtSound(text, i, m, keys, rules);
    }
  }

  /** Diagnostics in text order, with ranges that do not overlap. */
  predicate InOrder(ds: seq<Diagnostic>) {
    forall a, b :: 0 <= a < b < |ds| ==> ds[a].end <= ds[b].start
  }

  lemma InOrderCons(found: seq<Diagnostic>, rest: seq<Diagnostic>)
    requires |found| <= 1 && InOrder(rest)
    requires forall d, e :: d in found && e in rest ==> d.end <= e.start
    ensures InOrder(found + rest)
  {
    var ds := found + rest;
    forall a, b | 0 <= a < b < |ds| ensures ds[a].end <= ds[b].start {
      assert ds[b] == rest[b - |found|];
      if a >= |found| {
        assert ds[a] == rest[a - |found|];
      } else {
        assert ds[a] in found;
      }
    }
  }

  /** The diagnostics come in text order and their ranges do not overlap. */
  lemma {:induction false} DiagnosticsOrdered(text: string, i: nat, keys: seq<string>, rules: Rules)
    requires i <= |text|
    ensures InOrder(DiagnosticsFrom(text, i, keys, rules))
    decreases |text| - i
  {
    if i < |text| {
      match TagNameAt(text, i, NotGtOrSpace)
      case None =>
        NoMatchStep(text, i, keys, rules);
        DiagnosticsOrdered(text, i + 1, keys, rules);
      case Some(m) =>
        MatchStep(text, i, m, keys, rules);
        DiagnosticsOrdered(text, m.end, keys, rules);
        DiagnosticsSound(text, m.end, keys, rules);
        FoundAtSound(text, i, m, keys, rules);
        InOrderCons(FoundAt(text, i, m, keys, rules), DiagnosticsFrom(text, m.end, keys, rules));
    }
  }

  /** A text whose every tag name is a key, or skipped, gets no diagnostic. */
  lemma {:induction false} KnownTagsClean(text: string, i: nat, keys: seq<string>, rules: Rules)
    requires i <= |text|
    requires forall j :: i <= j < |text| && TagNameAt(text, j, NotGtOrSpace).Some? ==>
      !Reported(TagNameAt(text, j, NotGtOrSpace).value.name, keys, rules)
    ensures DiagnosticsFrom(text, i, keys, rules) == []
    decreases |text| - i
  {
    if i < |text| {
      match TagNameAt(text, i, NotGtOrSpace)
      case None =>
        NoMatchStep(text, i, keys, rules);
        KnownTagsClean(text, i + 1, keys, rules);
      case Some(m) =>
        MatchStep(text, i, m, keys, rules);
        KnownTagsClean(text, m.end, keys, rules);
    }
  }

  /**
   * The first `<` of the text always starts a scan step: an unknown name there
   * gives the first diagnostic, which starts where the name does and names it.
   */
  lemma FirstTagReported(text: string, j: nat, keys: seq<string>, rules: Rules)
    requires j < |text| && text[j] == '<' && forall k :: 0 <= k < j ==> text[k] != '<'
    requires TagNameAt(text, j, NotGtOrSpace).Some?
    requires Reported(TagNameAt(text, j, NotGtOrSpace).value.name, keys, rules)
    ensures DiagnosticsFrom(text, 0, keys, rules) != []
    ensures DiagnosticsFrom(text, 0, keys, rules)[0].start == NameStart(text, j, NotGtOrSpace, TagNameAt(text, j, NotGtOrSpace).value)
    ensures DiagnosticsFrom(text, 0, keys, rules)[0].message == Message(rules, TagNameAt(text, j, NotGtOrSpace).value.name)
  {
    SkipToFirstTag(text, 0, j, keys, rules);
    MatchStep(text, j, TagNameAt(text, j, NotGtOrSpace).value, keys, rules);
  }

  // Proof step: a character other than `<` is skipped.
  lemma SkipOne(text: string, i: nat, keys: seq<string>, rules: Rules)
    requires i < |text| && text[i] != '<'
    ensures DiagnosticsFrom(text, i, keys, rules) == DiagnosticsFrom(text, i + 1, keys, rules)
  {
    NoTagNameWithoutLt(text, i, NotGtOrSpace);
    NoMatchStep(text, i, keys, rules);
  }

  /** Indices before the first `<` are passed over one by one. */
  lemma SkipToFirstTag(text: string, i: nat, j: nat, keys: seq<string>, rules: Rules)
    requires i <= j < |text| && forall k :: i <= k < j ==> text[k] != '<'
    ensures DiagnosticsFrom(text, i, keys, rules) == DiagnosticsFrom(text, j, keys, rules)
  {
    var f := (k: nat) => if k <= |text| then DiagnosticsFrom(text, k, keys, rules) else [];
    forall k | i <= k < j ensures f(k) == f(k + 1) {
      SkipOne(text, k, keys, rules);
    }
    Chain(f, i, j);
  }
}
