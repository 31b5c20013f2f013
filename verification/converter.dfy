/**
 * The cross-locale tag converter of the "switch language" command and the
 * rule that names the converted file (out/extension.js), together with the
 * tag rewrite the canonical-to-native quick fix performs.
 */
module Converter {
  import opened Wrappers
  import opened Strings
  import opened Dictionary

  // ---------------------------------------------------------------------
  // `text.replace(new RegExp(`<(\/?)${src}([ >])`, 'g'), `<$1${dst}$2`)`

  /** One match of `<(\/?)src([ >])`: the optional slash, the delimiter and where the match ends. */
  datatype TagMatch = TagMatch(slash: string, delim: char, end: nat)

  predicate IsDelim(c: char) {
    c == ' ' || c == '>'
  }

  /**
   * The match of `<(\/?)src([ >])` at index `i`, if any. The optional slash is
   * tried first; when that fails the pattern is retried without it.
   */
  function TagAt(s: string, i: nat, src: string): (m: Option<TagMatch>)
    requires i <= |s|
    ensures m.Some? ==>
      && (m.value.slash == "" || m.value.slash == "/") && IsDelim(m.value.delim)
      && i < m.value.end <= |s| && s[i..m.value.end] == "<" + m.value.slash + src + [m.value.delim]
  {
    var a := i + 2 + |src|;
    var b := i + 1 + |src|;
    if At(s, i, "</" + src) && a < |s| && IsDelim(s[a]) then
      assert s[i..a + 1] == s[i..a] + [s[a]];
      Some(TagMatch("/", s[a], a + 1))
    else if At(s, i, "<" + src) && b < |s| && IsDelim(s[b]) then
      assert s[i..b + 1] == s[i..b] + [s[b]];
      Some(TagMatch("", s[b], b + 1))
    else None
  }

  /** The scanner finds a match exactly where one of the four spellings occurs. */
  lemma TagAtMatches(s: string, i: nat, src: string)
    requires i <= |s|
    ensures TagAt(s, i, src).Some? <==> TagOpensAt(s, i, src)
  {
    AtExtend(s, i, "</" + src, ' ');
    AtExtend(s, i, "</" + src, '>');
    AtExtend(s, i, "<" + src, ' ');
    AtExtend(s, i, "<" + src, '>');
  }

  /** `<src` or `</src` followed by a space or `>` occurs at index `i`. */
  predicate TagOpensAt(s: string, i: nat, src: string) {
    || At(s, i, "</" + src + " ") || At(s, i, "</" + src + ">")
    || At(s, i, "<" + src + " ") || At(s, i, "<" + src + ">")
  }

  /** An occurrence of `p + [c]` is an occurrence of `p` followed by `c`. */
  lemma AtExtend(s: string, i: nat, p: string, c: char)
    ensures At(s, i, p + [c]) <==> At(s, i, p) && i + |p| < |s| && s[i + |p|] == c
  {
    if At(s, i, p + [c]) {
      assert s[i..i + |p|] == (p + [c])[..|p|];
    }
    if At(s, i, p) && i + |p| < |s| && s[i + |p|] == c {
      assert s[i..i + |p| + 1] == s[i..i + |p|] + [s[i + |p|]];
    }
  }

  /** The global replace from index `i` on: each match becomes `<`, its slash, `dst`, its delimiter. */
  function RetagFrom(s: string, src: string, dst: string, i: nat): string
    requires i <= |s|
    decreases |s| - i
  {
    if i == |s| then []
    else
      match TagAt(s, i, src)
      case Some(t) => "<" + t.slash + dst + [t.delim] + RetagFrom(s, src, dst, t.end)
      case None => [s[i]] + RetagFrom(s, src, dst, i + 1)
  }

  /** Renames every opening and closing `src` tag of `s` to `dst`. */
  function Retag(s: string, src: string, dst: string): string {
    RetagFrom(s, src, dst, 0)
  }

  /** Renaming a tag to itself gives the text back: the scan cuts the text without loss. */
  lemma {:induction false} RetagSelf(s: string, src: string, i: nat)
    requires i <= |s|
    ensures RetagFrom(s, src, src, i) == s[i..]
    decreases |s| - i
  {
    if i < |s| {
      match TagAt(s, i, src)
      case Some(t) =>
        RetagSelf(s, src, t.end);
        assert s[i..t.end] + s[t.end..] == s[i..];
      case None =>
        RetagSelf(s, src, i + 1);
        assert [s[i]] + s[i + 1..] == s[i..];
    }
  }

  /** A text with no `<src` or `</src` followed by a space or `>` is left as it is. */
  lemma {:induction false} RetagUntouched(s: string, src: string, dst: string, i: nat)
    requires i <= |s|
    requires forall j: nat :: i <= j < |s| ==> !TagOpensAt(s, j, src)
    ensures RetagFrom(s, src, dst, i) == s[i..]
    decreases |s| - i
  {
    if i < |s| {
      TagAtMatches(s, i, src);
      RetagUntouched(s, src, dst, i + 1);
      assert [s[i]] + s[i + 1..] == s[i..];
    }
  }

  // ---------------------------------------------------------------------
  // Renaming back: `dst` to `src` after `src` to `dst`

  /** The rendering `<`, slash, `q`, delimiter is scanned back as a match of `q` when `q` has no slash. */
  lemma BackTag(t: string, o: nat, q: string, sl: string, d: char)
    requires sl == "" || sl == "/"
    requires IsDelim(d) && '/' !in q
    requires o + |"<" + sl + q + [d]| <= |t| && t[o..o + |"<" + sl + q + [d]|] == "<" + sl + q + [d]
    ensures TagAt(t, o, q) == Some(TagMatch(sl, d, o + |"<" + sl + q + [d]|))
  {
    var p := "<" + sl + q + [d];
    var n := |p|;
    assert n == |sl| + |q| + 2;
    var u := t[o..o + n];
    assert u == p;
    if sl == "/" {
      assert t[o..o + 2 + |q|] == u[..2 + |q|] == "</" + q;
      assert t[o + 2 + |q|] == u[n - 1] == d;
    } else {
      assert p[1] != '/' by {
        if q != [] {
          assert p[1] == q[0];
        } else {
          assert p[1] == d;
        }
      }
      assert t[o + 1] == u[1];
      if o + 2 + |q| <= |t| {
        assert t[o..o + 2 + |q|][1] != ("</" + q)[1];
      }
      assert p == ("<" + q) + [d];
      assert t[o..o + 1 + |q|] == u[..1 + |q|];
      assert u[..1 + |q|] == "<" + q;
      assert t[o + 1 + |q|] == u[n - 1] == d;
    }
  }

  /** One step of the scan: a match is rendered starting with `<`, any other character is copied. */
  lemma RetagStep(s: string, src: string, dst: string, j: nat)
    requires j < |s|
    ensures TagAt(s, j, src).Some? ==> RetagFrom(s, src, dst, j)[0] == '<'
    ensures TagAt(s, j, src).Some? ==>
      var m := TagAt(s, j, src).value;
      RetagFrom(s, src, dst, j) == "<" + m.slash + dst + [m.delim] + RetagFrom(s, src, dst, m.end)
    ensures TagAt(s, j, src).None? ==>
      && RetagFrom(s, src, dst, j) == [s[j]] + RetagFrom(s, src, dst, j + 1)
  {
  }

  /** Where the first rename copied the character at index `j`, the renamed text holds it and goes on with the rest. */
  lemma CopiedHead(s: string, src: string, dst: string, j: nat, t: string, o: nat)
    requires j < |s| && TagAt(s, j, src).None?
    requires o <= |t| && t[o..] == RetagFrom(s, src, dst, j)
    ensures o < |t| && t[o] == s[j] && t[o + 1..] == RetagFrom(s, src, dst, j + 1)
  {
    RetagStep(s, src, dst, j);
    var r := RetagFrom(s, src, dst, j + 1);
    assert t[o..] == [s[j]] + r;
    TextThen(t, o, [s[j]], r);
    assert t[o] == t[o..o + 1][0];
  }

  /** Two stretches that agree on their first character and on the rest agree. */
  lemma SameStretch(t: string, o: nat, s: string, j: nat, n: nat)
    requires 0 < n && o + n <= |t| && j + n <= |s| && t[o] == s[j]
    requires t[o + 1..o + n] == s[j + 1..j + n]
    ensures t[o..o + n] == s[j..j + n]
  {
    assert t[o..o + n] == [t[o]] + t[o + 1..o + n];
    assert s[j..j + n] == [s[j]] + s[j + 1..j + n];
  }

  /**
   * A stretch without `<` of a text that continues at `o` as the rendering
   * from index `j` on was copied from the original: it is `s[j..j + n]`.
   */
  lemma {:induction false} CopiedStretch(s: string, src: string, dst: string, j: nat, t: string, o: nat, n: nat)
    requires j <= |s| && o + n <= |t| && t[o..] == RetagFrom(s, src, dst, j)
    requires forall k :: o <= k < o + n ==> t[k] != '<'
    ensures j + n <= |s| && t[o..o + n] == s[j..j + n]
    decreases n
  {
    if n > 0 {
      assert t[o] == t[o..][0];
      assert j < |s|;
      RetagStep(s, src, dst, j);
      CopiedHead(s, src, dst, j, t, o);
      CopiedStretch(s, src, dst, j + 1, t, o + 1, n - 1);
      SameStretch(t, o, s, j, n);
    }
  }

  /** Every character after the opening `<` of a rendered tag differs from `<`. */
  lemma RenderedTagOneLt(sl: string, q: string, d: char)
    requires sl == "" || sl == "/"
    requires '<' !in q && IsDelim(d)
    ensures forall k :: 1 <= k < |"<" + sl + q + [d]| ==> ("<" + sl + q + [d])[k] != '<'
  {
    var p := "<" + sl + q + [d];
    forall k | 1 <= k < |p|
      ensures p[k] != '<'
    {
      if k <= |sl| {
        assert p[k] == sl[k - 1];
      } else if k <= |sl| + |q| {
        assert p[k] == q[k - 1 - |sl|];
      }
    }
  }

  /** A match of a tag name without `<` holds no `<` after its first character. */
  lemma MatchOneLt(t: string, o: nat, q: string)
    requires o <= |t| && TagAt(t, o, q).Some? && '<' !in q
    ensures forall k :: o + 1 <= k < TagAt(t, o, q).value.end ==> t[k] != '<'
  {
    var m := TagAt(t, o, q).value;
    var p := "<" + m.slash + q + [m.delim];
    RenderedTagOneLt(m.slash, q, m.delim);
    forall k | o + 1 <= k < m.end
      ensures t[k] != '<'
    {
      assert t[k] == t[o..m.end][k - o];
    }
  }

  /**
   * Where the first rename copied the character at index `i`, a `q` tag seen
   * by the second rename at the same place was already a `q` tag of `s`.
   */
  lemma CopiedNoNewTag(s: string, a: string, q: string, i: nat, t: string, o: nat)
    requires i < |s| && TagAt(s, i, a).None?
    requires '<' !in q && '/' !in q
    requires o <= |t| && t[o..] == RetagFrom(s, a, q, i)
    ensures TagAt(t, o, q).Some? ==> TagOpensAt(s, i, q)
  {
    if TagAt(t, o, q).Some? {
      var m := TagAt(t, o, q).value;
      var n := m.end - o;
      CopiedHead(s, a, q, i, t, o);
      MatchOneLt(t, o, q);
      CopiedStretch(s, a, q, i + 1, t, o + 1, n - 1);
      SameStretch(t, o, s, i, n);
      var p := "<" + m.slash + q + [m.delim];
      assert t[o..m.end] == p;
      assert n == |p|;
      assert s[i..i + |p|] == p;
      BackTag(s, i, q, m.slash, m.delim);
      TagAtMatches(s, i, q);
    }
  }

  /** The scan of the second rename over `t`, from the index where `t` continues as `RetagFrom(s, a, q, i)`. */
  lemma {:induction false} RenameBackFrom(s: string, a: string, q: string, i: nat, t: string, o: nat)
    requires i <= |s| && o <= |t| && t[o..] == RetagFrom(s, a, q, i)
    requires '<' !in q && '/' !in q
    requires forall j: nat :: i <= j < |s| ==> !TagOpensAt(s, j, q)
    ensures RetagFrom(t, q, a, o) == s[i..]
    decreases |s| - i, 1
  {
    if i == |s| {
      assert o == |t|;
    } else if TagAt(s, i, a).Some? {
      RenameBackTag(s, a, q, i, t, o);
    } else {
      RenameBackChar(s, a, q, i, t, o);
    }
  }

  /** The second rename turns a tag the first one rendered back into the original tag. */
  lemma {:induction false} RenameBackTag(s: string, a: string, q: string, i: nat, t: string, o: nat)
    requires i < |s| && TagAt(s, i, a).Some?
    requires o <= |t| && t[o..] == RetagFrom(s, a, q, i)
    requires '<' !in q && '/' !in q
    requires forall j: nat :: i <= j < |s| ==> !TagOpensAt(s, j, q)
    ensures RetagFrom(t, q, a, o) == s[i..]
    decreases |s| - i, 0
  {
    var m := TagAt(s, i, a).value;
    var h := "<" + m.slash + q + [m.delim];
    var back := "<" + m.slash + a + [m.delim];
    var rest := RetagFrom(s, a, q, m.end);
    var e := o + |h|;
    RetagStep(s, a, q, i);
    assert t[o..] == h + rest;
    TextThen(t, o, h, rest);
    BackTag(t, o, q, m.slash, m.delim);
    assert TagAt(t, o, q) == Some(TagMatch(m.slash, m.delim, e));
    RetagStep(t, q, a, o);
    assert RetagFrom(t, q, a, o) == back + RetagFrom(t, q, a, e);
    RenameBackFrom(s, a, q, m.end, t, e);
    assert s[i..m.end] == back;
    assert s[i..] == s[i..m.end] + s[m.end..];
  }

  /** A text that continues at `o` as `h + rest` holds `h` there and continues as `rest` after it. */
  lemma TextThen(t: string, o: nat, h: string, rest: string)
    requires o <= |t| && t[o..] == h + rest
    ensures o + |h| <= |t| && t[o..o + |h|] == h && t[o + |h|..] == rest
  {
    var u := t[o..];
    assert u[..|h|] == h && u[|h|..] == rest;
  }

  /** The second rename copies back a character the first one copied. */
  lemma {:induction false} RenameBackChar(s: string, a: string, q: string, i: nat, t: string, o: nat)
    requires i < |s| && TagAt(s, i, a).None?
    requires o <= |t| && t[o..] == RetagFrom(s, a, q, i)
    requires '<' !in q && '/' !in q
    requires forall j: nat :: i <= j < |s| ==> !TagOpensAt(s, j, q)
    ensures RetagFrom(t, q, a, o) == s[i..]
    decreases |s| - i, 0
  {
    CopiedNoNewTag(s, a, q, i, t, o);
    assert !TagOpensAt(s, i, q);
    RetagStep(s, a, q, i);
    var r := RetagFrom(s, a, q, i + 1);
    assert t[o..] == [s[i]] + r;
    TextThen(t, o, [s[i]], r);
    assert t[o] == s[i];
    RetagStep(t, q, a, o);
    assert RetagFrom(t, q, a, o) == [s[i]] + RetagFrom(t, q, a, o + 1);
    RenameBackFrom(s, a, q, i + 1, t, o + 1);
    assert s[i..] == [s[i]] + s[i + 1..];
  }

  /**
   * Renaming `src` to `dst` and then `dst` back to `src` gives the text back,
   * when `dst` holds no `<` and no `/` and no `dst` tag was in the text before.
   */
  lemma RenameBack(s: string, src: string, dst: string)
    requires '<' !in dst && '/' !in dst
    requires forall j: nat :: j < |s| ==> !TagOpensAt(s, j, dst)
    ensures Retag(Retag(s, src, dst), dst, src) == s
  {
    var t := Retag(s, src, dst);
    assert t[0..] == t;
    RenameBackFrom(s, src, dst, 0, t, 0);
  }

  // ---------------------------------------------------------------------
  // The conversion loop of the "switch language" command

  /**
   * The native tag of the target locale that a source entry converts to:
   * `reverseTargetMap[englishTag]`, used only when present and non-empty.
   */
  function Counterpart(e: Entry, reverse: map<string, string>): (r: Option<string>)
    ensures r.Some? <==> e.value in reverse && reverse[e.value] != []
    ensures r.Some? ==> r.value == reverse[e.value]
  {
    if e.value in reverse && reverse[e.value] != [] then Some(reverse[e.value]) else None
  }

  /**
   * Against the target dictionary itself: the counterpart is the native key
   * of the LAST target entry with the same canonical tag, unless that key is empty.
   */
  lemma CounterpartFromTarget(e: Entry, target: Dict, j: nat)
    requires j < |target| && target[j].value == e.value
    requires forall k :: j < k < |target| ==> target[k].value != e.value
    ensures Counterpart(e, Reverse(target)) == if target[j].key != [] then Some(target[j].key) else None
  {
    ReverseLastWins(target, j);
  }

  /** A canonical tag that no target entry has has no counterpart. */
  lemma NoCounterpartInTarget(e: Entry, target: Dict)
    requires forall k :: 0 <= k < |target| ==> target[k].value != e.value
    ensures Counterpart(e, Reverse(target)) == None
  {
    ReverseDomain(target, e.value);
  }

  /** One round of the loop: rename the entry's native tag when the target has a counterpart. */
  function ConvertEntry(s: string, e: Entry, reverse: map<string, string>): string {
    match Counterpart(e, reverse)
    case Some(t) => Retag(s, e.key, t)
    case None => s
  }

  /** The loop over the source entries in order, as a function of the entries processed. */
  function ConvertWith(code: string, es: Dict, reverse: map<string, string>): string
    decreases |es|
  {
    if es == [] then code
    else ConvertEntry(ConvertWith(code, es[..|es| - 1], reverse), es[|es| - 1], reverse)
  }

  /** The text of a document converted from the `source` locale to the `target` locale. */
  function Converted(code: string, source: Dict, target: Dict): string {
    ConvertWith(code, source, Reverse(target))
  }

  /** The conversion loop: invert the target dictionary, then rename the source entries one by one. */
  method ConvertLocale(code: string, source: Dict, target: Dict) returns (r: string)
    ensures r == Converted(code, source, target)
  {
    var reverse := BuildReverse(target);
    r := code;
    for i := 0 to |source|
      invariant r == ConvertWith(code, source[..i], reverse)
    {
      assert source[..i + 1][..i] == source[..i];
      var e := source[i];
      if e.value in reverse && reverse[e.value] != [] {
        r := Retag(r, e.key, reverse[e.value]);
      }
    }
    assert source[..|source|] == source;
  }

  /** A source entry whose canonical tag no target entry has is skipped. */
  lemma NoCounterpartSkipped(s: string, e: Entry, target: Dict)
    requires forall j :: 0 <= j < |target| ==> target[j].value != e.value
    ensures ConvertEntry(s, e, Reverse(target)) == s
  {
    ReverseDomain(target, e.value);
  }

  /** When no source entry has a counterpart in the target, the text is unchanged. */
  lemma {:induction false} NothingToConvert(code: string, es: Dict, reverse: map<string, string>)
    requires forall e :: e in es ==> Counterpart(e, reverse).None?
    ensures ConvertWith(code, es, reverse) == code
    decreases |es|
  {
    if es != [] {
      assert es[|es| - 1] in es;
      assert forall e :: e in es[..|es| - 1] ==> e in es;
      NothingToConvert(code, es[..|es| - 1], reverse);
    }
  }

  /** Converting to the same locale is the identity when its canonical tags map back to their own keys. */
  lemma {:induction false} ConvertSameLocale(code: string, es: Dict, reverse: map<string, string>)
    requires forall e :: e in es && e.value in reverse ==> reverse[e.value] == e.key
    ensures ConvertWith(code, es, reverse) == code
    decreases |es|
  {
    if es != [] {
      assert es[|es| - 1] in es;
      assert forall e :: e in es[..|es| - 1] ==> e in es;
      ConvertSameLocale(code, es[..|es| - 1], reverse);
      RetagSelf(code, es[|es| - 1].key, 0);
    }
  }

  /** A locale whose canonical tags are all distinct converts to itself unchanged. */
  lemma SelfConversion(code: string, d: Dict)
    requires forall i, j :: 0 <= i < j < |d| ==> d[i].value != d[j].value
    ensures Converted(code, d, d) == code
  {
    forall e | e in d && e.value in Reverse(d) ensures Reverse(d)[e.value] == e.key {
      var i :| 0 <= i < |d| && d[i] == e;
      ReverseLastWins(d, i);
    }
    ConvertSameLocale(code, d, Reverse(d));
  }

  // ---------------------------------------------------------------------
  // The file name of the converted document

  /** The two file extensions of a locale, such as `.thtml` and `.tcss`. */
  datatype Language = Language(htmlExt: string, cssExt: string)

  /**
   * `oldPath.replace(oldExt, newExt)`, as written: the HTML extensions are used
   * when the path ends with the current HTML extension, the CSS extensions
   * otherwise, and the FIRST occurrence of the old extension is swapped.
   */
  function NewPathAsWritten(oldPath: string, current: Language, target: Language): (p: string)
    ensures EndsWith(oldPath, current.htmlExt) ==> ReplacedFirst(oldPath, current.htmlExt, target.htmlExt, p)
    ensures !EndsWith(oldPath, current.htmlExt) && Contains(oldPath, current.cssExt) ==>
      ReplacedFirst(oldPath, current.cssExt, target.cssExt, p)
    ensures !EndsWith(oldPath, current.htmlExt) && !Contains(oldPath, current.cssExt) ==> p == oldPath
  {
    var isHtml := EndsWith(oldPath, current.htmlExt);
    var newExt := if isHtml then target.htmlExt else target.cssExt;
    var oldExt := if isHtml then current.htmlExt else current.cssExt;
    if isHtml then EndsWithContains(oldPath, oldExt); ReplaceFirst(oldPath, oldExt, newExt)
    else ReplaceFirst(oldPath, oldExt, newExt)
  }

  lemma EndsWithContains(s: string, x: string)
    requires EndsWith(s, x)
    ensures Contains(s, x)
  {
    assert At(s, |s| - |x|, x);
  }

  /** A folder named like the extension takes the swap; the file keeps its old extension. */
  lemma NewPathSwapsFolder()
    ensures var current, target := Language(".thtml", ".tcss"), Language(".hhtml", ".hcss");
      var p := NewPathAsWritten("/w/site.thtml/index.thtml", current, target);
      p == "/w/site.hhtml/index.thtml" && !EndsWith(p, target.htmlExt)
  {
    var s, x := "/w/site.thtml/index.thtml", ".thtml";
    var p := NewPathAsWritten(s, Language(".thtml", ".tcss"), Language(".hhtml", ".hcss"));
    FolderExtension(s, x);
    var i: nat :| At(s, i, x) && (forall k :: 0 <= k < i ==> !At(s, k, x)) && p == s[..i] + ".hhtml" + s[i + |x|..];
    assert i == 7;
    FolderSwapped(s, p);
  }

  /** The example path: `.thtml` first occurs at index 7, in the folder name, and also ends it. */
  lemma FolderExtension(s: string, x: string)
    requires s == "/w/site.thtml/index.thtml" && x == ".thtml"
    ensures EndsWith(s, x) && At(s, 7, x) && forall j :: 0 <= j < 7 ==> !At(s, j, x)
  {
    assert s[7..13] == x;
    assert s[|s| - |x|..] == x;
    forall j | 0 <= j < 7 ensures !At(s, j, x) {
      assert s[j] != '.';
      assert s[j..j + 6][0] == s[j];
    }
  }

  lemma FolderSwapped(s: string, p: string)
    requires s == "/w/site.thtml/index.thtml" && p == s[..7] + ".hhtml" + s[13..]
    ensures p == "/w/site.hhtml/index.thtml" && !EndsWith(p, ".hhtml")
  {
    assert p[|p| - 6..] == ".thtml";
  }

  /**
   * The intended rule: the trailing extension is exchanged and the rest of the
   * path is kept. A path ending with neither extension is handled as written.
   */
  function NewPath(oldPath: string, current: Language, target: Language): (p: string)
    ensures EndsWith(oldPath, current.htmlExt) ==>
      p == oldPath[..|oldPath| - |current.htmlExt|] + target.htmlExt && EndsWith(p, target.htmlExt)
    ensures !EndsWith(oldPath, current.htmlExt) && EndsWith(oldPath, current.cssExt) ==>
      p == oldPath[..|oldPath| - |current.cssExt|] + target.cssExt && EndsWith(p, target.cssExt)
  {
    if EndsWith(oldPath, current.htmlExt) then
      SwapSuffix(oldPath, current.htmlExt, target.htmlExt)
    else if EndsWith(oldPath, current.cssExt) then
      SwapSuffix(oldPath, current.cssExt, target.cssExt)
    else NewPathAsWritten(oldPath, current, target)
  }

  /** `s` with its suffix `x` exchanged for `y`. */
  function SwapSuffix(s: string, x: string, y: string): (p: string)
    requires EndsWith(s, x)
    ensures EndsWith(p, y) && p[..|p| - |y|] == s[..|s| - |x|]
  {
    var p := s[..|s| - |x|] + y;
    assert p[|p| - |y|..] == y && p[..|p| - |y|] == s[..|s| - |x|];
    p
  }

  /** Swapping the extension back restores the original path. */
  lemma SwapSuffixBack(s: string, x: string, y: string)
    requires EndsWith(s, x)
    ensures SwapSuffix(SwapSuffix(s, x, y), y, x) == s
  {
    var p := SwapSuffix(s, x, y);
    assert p[..|p| - |y|] + x == s[..|s| - |x|] + s[|s| - |x|..];
  }

  /**
   * Where the old HTML extension occurs only at the end of the path, the rule
   * as written and the intended rule give the same path.
   */
  lemma AsWrittenAgrees(oldPath: string, current: Language, target: Language)
    requires EndsWith(oldPath, current.htmlExt)
    requires forall j :: 0 <= j < |oldPath| - |current.htmlExt| ==> !At(oldPath, j, current.htmlExt)
    ensures NewPathAsWritten(oldPath, current, target) == NewPath(oldPath, current, target)
  {
    var x, y := current.htmlExt, target.htmlExt;
    var p := NewPathAsWritten(oldPath, current, target);
    var i: nat :| At(oldPath, i, x) && (forall k :: 0 <= k < i ==> !At(oldPath, k, x))
                  && p == oldPath[..i] + y + oldPath[i + |x|..];
    assert i == |oldPath| - |x|;
    assert oldPath[i + |x|..] == [];
  }

  /** The document the command writes: its path and its converted text. */
  datatype NewDocument = NewDocument(path: string, text: string)

  /**
   * The "switch language" command without its file I/O: the converted text,
   * under the intended file-name rule, so a `.thtml` document becomes a
   * document with the target's HTML extension and the same folder and stem.
   */
  function ConvertDocument(oldPath: string, code: string, current: Language, target: Language,
                           source: Dict, targetDict: Dict): (r: NewDocument)
    ensures r.text == Converted(code, source, targetDict)
    ensures EndsWith(oldPath, current.htmlExt) ==>
      EndsWith(r.path, target.htmlExt) && r.path[..|r.path| - |target.htmlExt|] == oldPath[..|oldPath| - |current.htmlExt|]
  {
    NewDocument(NewPath(oldPath, current, target), Converted(code, source, targetDict))
  }
}
