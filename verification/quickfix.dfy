/**
 * The "Convert to <native>" quick fix of out/extension.js: every `<tag` or
 * `</tag` on the line whose `\w` name has a different native form in the
 * locale yields one action, which rewrites that tag throughout the document.
 */
module QuickFix {
  import opened Wrappers
  import opened Strings
  import opened Dictionary
  import opened TagScan
  import opened Converter

  /** A code action: its title and the whole document text it puts in place. */
  datatype Fix = Fix(title: string, converted: string)

  /**
   * `nativeTag && englishTag !== nativeTag`: the native name of `name` when the
   * inverted dictionary has a non-empty one that differs from `name`.
   */
  function NativeFor(name: string, reverse: map<string, string>): (r: Option<string>)
    ensures r.Some? <==> name in reverse && reverse[name] != [] && reverse[name] != name
    ensures r.Some? ==> r.value == reverse[name]
  {
    if name in reverse && reverse[name] != [] && reverse[name] != name then Some(reverse[name]) else None
  }

  /**
   * Against the HTML dictionary itself: the native name offered for `name` is
   * the key of the LAST entry whose canonical tag is `name`, unless that key
   * is empty or is `name` itself.
   */
  lemma NativeForFromDict(name: string, html: Dict, j: nat)
    requires j < |html| && html[j].value == name
    requires forall k :: j < k < |html| ==> html[k].value != name
    ensures NativeFor(name, Reverse(html))
      == if html[j].key != [] && html[j].key != name then Some(html[j].key) else None
  {
    ReverseLastWins(html, j);
  }

  /** A tag that is no entry's canonical tag gets no native name. */
  lemma NoNativeFor(name: string, html: Dict)
    requires forall k :: 0 <= k < |html| ==> html[k].value != name
    ensures NativeFor(name, Reverse(html)) == None
  {
    ReverseDomain(html, name);
  }

  /** The action for one English tag: both `<tag` and `</tag`, followed by a space or `>`, are renamed everywhere. */
  function FixFor(name: string, native: string, fullText: string): Fix {
    Fix("Convert to <" + native + ">", Retag(fullText, name, native))
  }

  /** The actions for the line from index `i` on, in the order `tagRegex.exec` finds the tags. */
  function FixesFrom(line: string, i: nat, fullText: string, reverse: map<string, string>): seq<Fix>
    requires i <= |line|
    decreases |line| - i
  {
    if i == |line| then []
    else
      match TagNameAt(line, i, Word)
      case None => FixesFrom(line, i + 1, fullText, reverse)
      case Some(m) =>
        var rest := FixesFrom(line, m.end, fullText, reverse);
        match NativeFor(m.name, reverse)
        case None => rest
        case Some(native) => [FixFor(m.name, native, fullText)] + rest
  }

  /** `provideCodeActions` for the line under the cursor, with the locale dictionary `html`. */
  function Fixes(line: string, fullText: string, html: Dict): seq<Fix> {
    FixesFrom(line, 0, fullText, Reverse(html))
  }

  // ---------------------------------------------------------------------
  // The provider

  /** One `tagRegex.exec` and the action it may give. */
  method FixAt(line: string, i: nat, fullText: string, reverse: map<string, string>) returns (found: seq<Fix>, next: nat)
    requires i < |line|
    ensures i < next <= |line|
    ensures found + FixesFrom(line, next, fullText, reverse) == FixesFrom(line, i, fullText, reverse)
  {
    var m := TagNameAt(line, i, Word);
    if m.None? {
      return [], i + 1;
    }
    var englishTag := m.value.name;
    next := m.value.end;
    found := [];
    if englishTag in reverse {
      var nativeTag := reverse[englishTag];
      if nativeTag != [] && englishTag != nativeTag {
        var converted := Retag(fullText, englishTag, nativeTag);
        found := [Fix("Convert to <" + nativeTag + ">", converted)];
      }
    }
  }

  /** `provideCodeActions`: invert the dictionary, then scan the line collecting actions. */
  method ProvideFixes(line: string, fullText: string, html: Dict) returns (actions: seq<Fix>)
    ensures actions == Fixes(line, fullText, html)
  {
    var reverse := BuildReverse(html);
    actions := [];
    var i := 0;
    while i < |line|
      invariant i <= |line|
      invariant actions + FixesFrom(line, i, fullText, reverse) == FixesFrom(line, 0, fullText, reverse)
      decreases |line| - i
    {
      var found, next := FixAt(line, i, fullText, reverse);
      actions, i := actions + found, next;
    }
  }

  // ---------------------------------------------------------------------
  // Properties

  /** A tag of the line that the fix is offered for: a `\w` name at index `j` with a differing native form. */
  predicate Offered(line: string, j: nat, reverse: map<string, string>, f: Fix, fullText: string)
    requires j <= |line|
  {
    && TagNameAt(line, j, Word).Some?
    && NativeFor(TagNameAt(line, j, Word).value.name, reverse).Some?
    && f == FixFor(TagNameAt(line, j, Word).value.name, NativeFor(TagNameAt(line, j, Word).value.name, reverse).value, fullText)
  }

  /** Every action comes from a tag on the line whose native form differs, and renames that tag to it. */
  lemma {:induction false} FixesSound(line: string, i: nat, fullText: string, reverse: map<string, string>)
    requires i <= |line|
    ensures forall f :: f in FixesFrom(line, i, fullText, reverse) ==>
      exists j: nat :: i <= j < |line| && Offered(line, j, reverse, f, fullText)
    decreases |line| - i
  {
    if i < |line| {
      match TagNameAt(line, i, Word)
      case None =>
        FixesSound(line, i + 1, fullText, reverse);
      case Some(m) =>
        FixesSound(line, m.end, fullText, reverse);
        match NativeFor(m.name, reverse)
        case None =>
        case Some(native) =>
          var f := FixFor(m.name, native, fullText);
          assert Offered(line, i, reverse, f, fullText);
    }
  }

  /** A line none of whose tag names is the English side of a dictionary entry gets no action. */
  lemma {:induction false} NoEnglishTagsNoFixes(line: string, i: nat, fullText: string, html: Dict)
    requires i <= |line|
    requires forall j, k :: i <= j < |line| && 0 <= k < |html| && TagNameAt(line, j, Word).Some? ==>
      html[k].value != TagNameAt(line, j, Word).value.name
    ensures FixesFrom(line, i, fullText, Reverse(html)) == []
    decreases |line| - i
  {
    if i < |line| {
      match TagNameAt(line, i, Word)
      case None =>
        NoEnglishTagsNoFixes(line, i + 1, fullText, html);
      case Some(m) =>
        ReverseDomain(html, m.name);
        NoEnglishTagsNoFixes(line, m.end, fullText, html);
    }
  }

  /** The action's text is the document unchanged when the tag it renames does not occur there. */
  lemma FixOfAbsentTag(name: string, native: string, fullText: string)
    requires forall j: nat :: j < |fullText| ==> !TagOpensAt(fullText, j, name)
    ensures FixFor(name, native, fullText).converted == fullText
  {
    RetagUntouched(fullText, name, native, 0);
  }

  /** The first tag of the line whose English name has a different native form gives the first action. */
  lemma FirstFixOffered(line: string, j: nat, fullText: string, reverse: map<string, string>)
    requires j < |line| && line[j] == '<' && forall k :: 0 <= k < j ==> line[k] != '<'
    requires TagNameAt(line, j, Word).Some?
    requires NativeFor(TagNameAt(line, j, Word).value.name, reverse).Some?
    ensures FixesFrom(line, 0, fullText, reverse) != []
    ensures FixesFrom(line, 0, fullText, reverse)[0].title ==
      "Convert to <" + reverse[TagNameAt(line, j, Word).value.name] + ">"
  {
    SkipToTag(line, 0, j, fullText, reverse);
  }

  /** Indices before the first `<` are passed over one by one. */
  lemma {:induction false} SkipToTag(line: string, i: nat, j: nat, fullText: string, reverse: map<string, string>)
    requires i <= j < |line| && forall k :: i <= k < j ==> line[k] != '<'
    ensures FixesFrom(line, i, fullText, reverse) == FixesFrom(line, j, fullText, reverse)
    decreases j - i
  {
    if i < j {
      NoTagNameWithoutLt(line, i, Word);
      SkipToTag(line, i + 1, j, fullText, reverse);
    }
  }
}
