/**
 * The tag-name scanner behind `/<\/?([^>\s]+)/g` (diagnostics) and
 * `/<\/?(\w+)/g` (quick fix): a `<`, an optional `/`, then the longest run of
 * name characters. The slash is tried first; when no name follows it, the
 * pattern is retried with the name starting right after the `<`.
 */
module TagScan {
  import opened Wrappers
  import opened Strings

  /** Which characters a tag name may hold. */
  datatype NameChars =
    | NotGtOrSpace  // `[^>\s]`
    | Word          // `\w`

  predicate InName(c: char, cls: NameChars) {
    match cls
    case NotGtOrSpace => c != '>' && !IsSpace(c)
    case Word => IsWordChar(c)
  }

  /** Where the longest run of name characters starting at `j` ends. */
  function RunEnd(s: string, j: nat, cls: NameChars): (e: nat)
    requires j <= |s|
    ensures j <= e <= |s|
    ensures forall k :: j <= k < e ==> InName(s[k], cls)
    ensures e == |s| || !InName(s[e], cls)
    decreases |s| - j
  {
    if j < |s| && InName(s[j], cls) then RunEnd(s, j + 1, cls) else j
  }

  /** A match: the captured name and the index just past the whole match. */
  datatype NameMatch = NameMatch(name: string, end: nat)

  /** The match of `<\/?(name+)` at index `i`, if any. */
  function TagNameAt(s: string, i: nat, cls: NameChars): (m: Option<NameMatch>)
    requires i <= |s|
    ensures m.Some? ==>
      && i < |s| && s[i] == '<'
      && i + 1 + |m.value.name| <= m.value.end <= |s| && m.value.name != []
  {
    if i < |s| && s[i] == '<' then
      if i + 1 < |s| && s[i + 1] == '/' && RunEnd(s, i + 2, cls) > i + 2 then
        var e := RunEnd(s, i + 2, cls);
        Some(NameMatch(s[i + 2..e], e))
      else if RunEnd(s, i + 1, cls) > i + 1 then
        var e := RunEnd(s, i + 1, cls);
        Some(NameMatch(s[i + 1..e], e))
      else None
    else None
  }

  /**
   * The rest of a match's shape: the name is the text just before the end of
   * the match, a longest run of name characters, right after the `<` or
   * after `</`.
   */
  lemma TagNameShape(s: string, i: nat, cls: NameChars, m: NameMatch)
    requires i <= |s| && TagNameAt(s, i, cls) == Some(m)
    ensures m.name == s[m.end - |m.name|..m.end]
    ensures forall k :: m.end - |m.name| <= k < m.end ==> InName(s[k], cls)
    ensures m.end == |s| || !InName(s[m.end], cls)
    ensures m.end == i + 1 + |m.name| || (m.end == i + 2 + |m.name| && s[i + 1] == '/')
  {
  }

  /** Every character of a matched name is a name character. */
  lemma MatchedName(s: string, i: nat, cls: NameChars, m: NameMatch)
    requires i <= |s| && TagNameAt(s, i, cls) == Some(m)
    ensures forall k :: 0 <= k < |m.name| ==> InName(m.name[k], cls)
  {
    TagNameShape(s, i, cls, m);
    var e := m.end;
    forall k | 0 <= k < |m.name| ensures InName(m.name[k], cls) {
      assert m.name[k] == s[e - |m.name| + k];
    }
  }

  /** A match exists at every `<` followed, after an optional `/`, by a name character. */
  lemma TagNameFound(s: string, i: nat, cls: NameChars)
    requires i + 1 < |s| && s[i] == '<'
    requires InName(s[i + 1], cls) || (s[i + 1] == '/' && i + 2 < |s| && InName(s[i + 2], cls))
    ensures TagNameAt(s, i, cls).Some?
  {
  }

  /** Without a `<` there is no match. */
  lemma NoTagNameWithoutLt(s: string, i: nat, cls: NameChars)
    requires i <= |s| && (i == |s| || s[i] != '<')
    ensures TagNameAt(s, i, cls).None?
  {
  }

  /**
   * `match[0].indexOf(p)` as an index into `s`: the first `j` at or after
   * `from` where `p` occurs and ends by `hi`, searching the window `s[from..hi]`.
   */
  function IndexWithin(s: string, p: string, from: nat, hi: nat): (r: Option<nat>)
    requires hi <= |s|
    ensures r.Some? ==> from <= r.value && r.value + |p| <= hi && At(s, r.value, p)
    decreases hi - from
  {
    if from + |p| > hi then None
    else if At(s, from, p) then Some(from)
    else IndexWithin(s, p, from + 1, hi)
  }

  /** An occurrence inside the window is found, at that index or before it. */
  lemma {:induction false} IndexWithinFinds(s: string, p: string, from: nat, hi: nat, j: nat)
    requires hi <= |s| && from <= j && j + |p| <= hi && At(s, j, p)
    ensures IndexWithin(s, p, from, hi).Some? && IndexWithin(s, p, from, hi).value <= j
    decreases j - from
  {
    if from < j && !At(s, from, p) {
      IndexWithinFinds(s, p, from + 1, hi, j);
    }
  }

  /**
   * `match.index + match[0].indexOf(name)`: where the name is first found
   * inside the matched text.
   */
  function NameStart(s: string, i: nat, cls: NameChars, m: NameMatch): (start: nat)
    requires i <= |s| && TagNameAt(s, i, cls) == Some(m)
    ensures i <= start && start + |m.name| <= m.end && At(s, start, m.name)
  {
    TagNameShape(s, i, cls, m);
    IndexWithinFinds(s, m.name, i, m.end, m.end - |m.name|);
    IndexWithin(s, m.name, i, m.end).value
  }
}
