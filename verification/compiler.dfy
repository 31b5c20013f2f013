/**
 * The dictionary-driven compiler of `src/compiler.ts`: `compileCSS` and the
 * three-stage `compile` router. The two dictionaries, `htmlMap` and `cssMap`,
 * are parameters rather than module constants.
 */
module Compiler {
  import opened Wrappers
  import opened Strings
  import opened Dictionary

  const Doctype: string := "<!DOCTYPE html>\n"
  /** The native and the canonical spelling of the style attribute and element. */
  const StyleNative: string := "பாணி"
  const StyleCanonical: string := "style"

  // ---------------------------------------------------------------------
  // Substitution engine

  /** Replaces every key by its value, one entry after the other, in the order given. */
  function ApplyEntries(s: string, es: Dict): string
    decreases |es|
  {
    if es == [] then s else ApplyEntries(ReplaceAll(s, es[0].key, es[0].value), es[1..])
  }

  /** No key of `es` occurs in `s`. */
  predicate NoKeyIn(s: string, es: Dict) {
    forall e :: e in es ==> !Contains(s, e.key)
  }

  /** Keys that do not occur leave the text unchanged. */
  lemma {:induction false} ApplyAbsent(s: string, es: Dict)
    requires NoKeyIn(s, es)
    ensures ApplyEntries(s, es) == s
    decreases |es|
  {
    if es != [] {
      assert es[0] in es;
      ReplaceAllAbsent(s, es[0].key, es[0].value);
      assert forall e :: e in es[1..] ==> e in es;
      ApplyAbsent(s, es[1..]);
    }
  }

  /** Applying `a + b` is applying `a`, then `b`. */
  lemma {:induction false} ApplyAppend(s: string, a: Dict, b: Dict)
    ensures ApplyEntries(s, a + b) == ApplyEntries(ApplyEntries(s, a), b)
    decreases |a|
  {
    if a == [] {
      assert a + b == b;
    } else {
      assert (a + b)[1..] == a[1..] + b;
      ApplyAppend(ReplaceAll(s, a[0].key, a[0].value), a[1..], b);
    }
  }

  /** `for (const k of sortedKeys) text = text.split(k).join(map[k])` over keys sorted longest first. */
  method Substitute(text: string, d: Dict) returns (r: string)
    ensures r == ApplyEntries(text, SortByLength(d))
  {
    var sorted := SortByLength(d);
    r := text;
    for i := 0 to |sorted|
      invariant ApplyEntries(r, sorted[i..]) == ApplyEntries(text, sorted)
    {
      var k, v := sorted[i].key, sorted[i].value;
      SplitJoinIsReplaceAll(r, k, v);
      assert sorted[i..][1..] == sorted[i + 1..];
      r := Join(Split(r, k), v);
    }
  }

  lemma LongKeyAbsent(s: string, k: string)
    requires |k| >= |s| && k != s
    ensures !Contains(s, k)
  {
    forall i: nat | i <= |s| ensures !At(s, i, k) {
      if i + |k| <= |s| {
        assert i == 0 && s[i..i + |k|] == s;
      }
    }
  }

  lemma ReplaceWhole(k: string, v: string)
    requires k != []
    ensures ReplaceAll(k, k, v) == v
  {
    assert At(k, 0, k);
    assert ReplaceFrom(k, k, v, |k|) == [];
  }

  /** Keys sorted before a key, other than itself, cannot occur inside it. */
  lemma EarlierKeysAbsent(es: Dict, p: nat)
    requires LongerFirst(es) && DistinctKeys(es) && p < |es|
    ensures NoKeyIn(es[p].key, es[..p])
  {
    forall e | e in es[..p] ensures !Contains(es[p].key, e.key) {
      var j :| 0 <= j < p && es[..p][j] == e;
      assert es[j] == e;
      LongKeyAbsent(es[p].key, e.key);
    }
  }

  /**
   * With keys applied longest first, a text that is exactly one key becomes
   * that key's value: shorter keys it contains never pre-empt it.
   */
  lemma ExactKeyResolves(es: Dict, p: nat)
    requires LongerFirst(es) && DistinctKeys(es)
    requires p < |es| && es[p].key != []
    requires NoKeyIn(es[p].value, es[p + 1..])
    ensures ApplyEntries(es[p].key, es) == es[p].value
  {
    var k, v := es[p].key, es[p].value;
    SplitAt(es, p);
    ApplyAppend(k, es[..p], es[p..]);
    EarlierKeysAbsent(es, p);
    ApplyAbsent(k, es[..p]);
    ApplyCons(k, es[p..]);
    ReplaceWhole(k, v);
    ApplyAbsent(v, es[p + 1..]);
  }

  // Proof step: cutting an entry list at `p`.
  lemma SplitAt(es: Dict, p: nat)
    requires p < |es|
    ensures es == es[..p] + es[p..] && es[p..][0] == es[p] && es[p..][1..] == es[p + 1..]
  {
  }

  // Proof step: one unfolding of the substitution loop.
  lemma ApplyCons(s: string, es: Dict)
    requires es != []
    ensures ApplyEntries(s, es) == ApplyEntries(ReplaceAll(s, es[0].key, es[0].value), es[1..])
  {
  }

  /**
   * Longest-key precedence over a whole dictionary: a key's text compiles to
   * its own value, whatever shorter keys it contains.
   */
  lemma LongestKeyWins(d: Dict, p: nat)
    requires DistinctKeys(d) && p < |d| && d[p].key != []
    requires NoKeyIn(d[p].value, d)
    ensures ApplyEntries(d[p].key, SortByLength(d)) == d[p].value
  {
    var sorted := SortByLength(d);
    SortLongerFirst(d);
    SortDistinct(d);
    assert d[p] in multiset(sorted);
    var q :| 0 <= q < |sorted| && sorted[q] == d[p];
    forall e | e in sorted[q + 1..] ensures !Contains(d[p].value, e.key) {
      assert e in multiset(d);
    }
    ExactKeyResolves(sorted, q);
  }

  // ---------------------------------------------------------------------
  // compileCSS

  /** What `compileCSS` computes: every `cssMap` key, longest first, then every `htmlMap` key. */
  function StyleText(code: string, html: Dict, css: Dict): string {
    ApplyEntries(ApplyEntries(code, SortByLength(css)), SortByLength(html))
  }

  method CompileCSS(code: string, html: Dict, css: Dict) returns (r: string)
    ensures r == StyleText(code, html, css)
  {
    r := Substitute(code, css);
    r := Substitute(r, html);
  }

  /**
   * Inside style text the style dictionary wins: a token that is a `cssMap` key
   * becomes its style value even when `htmlMap` has the same key.
   */
  lemma StyleDictionaryWins(html: Dict, css: Dict, p: nat)
    requires DistinctKeys(css) && p < |css| && css[p].key != []
    requires NoKeyIn(css[p].value, css) && NoKeyIn(css[p].value, html)
    ensures StyleText(css[p].key, html, css) == css[p].value
  {
    LongestKeyWins(css, p);
    forall e | e in SortByLength(html) ensures !Contains(css[p].value, e.key) {
      assert e in multiset(html);
    }
    ApplyAbsent(css[p].value, SortByLength(html));
  }

  // A key in context

  /** No character of `t` occurs in any key of `d`. */
  predicate KeyFree(t: string, d: Dict) {
    forall e :: e in d ==> Apart(t, e.key)
  }

  /**
   * The longest-key rule in running text: the key `d[p].key` between parts
   * that share no character with any key (the inner parts non-empty), with
   * a value that shares none with the other keys, becomes the value at every
   * occurrence and the parts stay as they are, although shorter keys may be
   * prefixes of it and are substituted later.
   */
  lemma KeyInContext(d: Dict, p: nat, parts: seq<string>)
    requires DistinctKeys(d) && p < |d|
    requires forall e :: e in d ==> e.key != []
    requires forall m :: 0 <= m < |parts| ==> KeyFree(parts[m], d)
    requires forall m :: 0 < m < |parts| - 1 ==> parts[m] != []
    requires forall e :: e in d && e.key != d[p].key ==> Apart(d[p].value, e.key)
    ensures ApplyEntries(Join(parts, d[p].key), SortByLength(d)) == Join(parts, d[p].value)
  {
    var k, v := d[p].key, d[p].value;
    var sorted := SortByLength(d);
    SortLongerFirst(d);
    SortDistinct(d);
    assert d[p] in multiset(sorted);
    var q :| 0 <= q < |sorted| && sorted[q] == d[p];
    var s := Join(parts, k);
    EarlierKeysNotInText(d, q, parts);
    ApplyAbsent(s, sorted[..q]);
    SplitAt(sorted, q);
    ApplyAppend(s, sorted[..q], sorted[q..]);
    ApplyCons(s, sorted[q..]);
    assert d[p] in d;
    ReplaceJoin(parts, k, v);
    LaterKeysNotInText(d, q, parts);
    ApplyAbsent(Join(parts, v), sorted[q + 1..]);
  }

  /** The keys substituted before `k` are longer or as long, and none of them occurs. */
  lemma EarlierKeysNotInText(d: Dict, q: nat, parts: seq<string>)
    requires q < |d| && LongerFirst(SortByLength(d)) && DistinctKeys(SortByLength(d))
    requires forall e :: e in d ==> e.key != []
    requires forall m :: 0 <= m < |parts| ==> KeyFree(parts[m], d)
    requires forall m :: 0 < m < |parts| - 1 ==> parts[m] != []
    ensures NoKeyIn(Join(parts, SortByLength(d)[q].key), SortByLength(d)[..q])
  {
    var sorted := SortByLength(d);
    var k := sorted[q].key;
    forall e | e in sorted[..q] ensures !Contains(Join(parts, k), e.key) {
      var j :| 0 <= j < q && sorted[..q][j] == e;
      EarlierKeyNotInText(d, sorted, q, j, parts);
    }
  }

  /** The key at index `j` before `q` in the sorted dictionary is absent from the text. */
  lemma EarlierKeyNotInText(d: Dict, sorted: Dict, q: nat, j: nat, parts: seq<string>)
    requires sorted == SortByLength(d) && j < q < |sorted|
    requires LongerFirst(sorted) && DistinctKeys(sorted)
    requires forall e :: e in d ==> e.key != []
    requires forall m :: 0 <= m < |parts| ==> KeyFree(parts[m], d)
    requires forall m :: 0 < m < |parts| - 1 ==> parts[m] != []
    ensures !Contains(Join(parts, sorted[q].key), sorted[..q][j].key)
  {
    assert sorted[..q][j] == sorted[j];
    assert sorted[j] in multiset(sorted);
    KeyNotInText(d, sorted[j], sorted[q].key, parts);
  }

  /** One key of `d`, at least as long as `k` and different from it, is absent from the text. */
  lemma KeyNotInText(d: Dict, e: Entry, k: string, parts: seq<string>)
    requires e in multiset(SortByLength(d)) && |e.key| >= |k| && e.key != k
    requires forall e :: e in d ==> e.key != []
    requires forall m :: 0 <= m < |parts| ==> KeyFree(parts[m], d)
    requires forall m :: 0 < m < |parts| - 1 ==> parts[m] != []
    ensures !Contains(Join(parts, k), e.key)
  {
    assert e in d;
    forall m | 0 <= m < |parts| ensures Apart(parts[m], e.key) {
      assert KeyFree(parts[m], d);
    }
    LongerKeyAbsent(parts, k, e.key);
  }

  /** The keys substituted after `k` occur neither in the parts nor in its value. */
  lemma LaterKeysNotInText(d: Dict, q: nat, parts: seq<string>)
    requires q < |d| && DistinctKeys(SortByLength(d))
    requires forall e :: e in d ==> e.key != []
    requires forall m :: 0 <= m < |parts| ==> KeyFree(parts[m], d)
    requires forall e :: e in d && e.key != SortByLength(d)[q].key ==> Apart(SortByLength(d)[q].value, e.key)
    ensures NoKeyIn(Join(parts, SortByLength(d)[q].value), SortByLength(d)[q + 1..])
  {
    var sorted := SortByLength(d);
    var v := sorted[q].value;
    forall e | e in sorted[q + 1..] ensures !Contains(Join(parts, v), e.key) {
      var j :| 0 <= j < |sorted| - q - 1 && sorted[q + 1..][j] == e;
      LaterKeyNotInText(d, sorted, q, j, parts);
    }
  }

  /** The key at index `j` after `q` in the sorted dictionary is absent from the text. */
  lemma LaterKeyNotInText(d: Dict, sorted: Dict, q: nat, j: nat, parts: seq<string>)
    requires sorted == SortByLength(d) && q + 1 + j < |sorted| && DistinctKeys(sorted)
    requires forall e :: e in d ==> e.key != []
    requires forall m :: 0 <= m < |parts| ==> KeyFree(parts[m], d)
    requires forall e :: e in d && e.key != sorted[q].key ==> Apart(sorted[q].value, e.key)
    ensures !Contains(Join(parts, sorted[q].value), sorted[q + 1..][j].key)
  {
    var e := sorted[q + 1 + j];
    assert sorted[q + 1..][j] == e;
    assert e in d by {
      assert e in multiset(sorted);
    }
    assert e.key != sorted[q].key;
    ValueTextKeyFree(e, sorted[q].value, parts, d);
  }

  lemma ValueTextKeyFree(e: Entry, v: string, parts: seq<string>, d: Dict)
    requires e in d && e.key != [] && Apart(v, e.key)
    requires forall m :: 0 <= m < |parts| ==> KeyFree(parts[m], d)
    ensures !Contains(Join(parts, v), e.key)
  {
    forall m | 0 <= m < |parts| ensures Apart(parts[m], e.key) {
      assert KeyFree(parts[m], d);
    }
    ApartJoin(parts, v, e.key);
    ApartAbsent(Join(parts, v), e.key);
  }

  /**
   * The same rule for style text: a style key between key-free parts becomes
   * its CSS value everywhere, and the HTML pass that follows leaves the
   * result alone when the value and the parts share no character with the
   * HTML keys.
   */
  lemma StyleTokenInContext(html: Dict, css: Dict, p: nat, parts: seq<string>)
    requires DistinctKeys(css) && p < |css|
    requires forall e :: e in css ==> e.key != []
    requires forall e :: e in html ==> e.key != []
    requires forall m :: 0 <= m < |parts| ==> KeyFree(parts[m], css) && KeyFree(parts[m], html)
    requires forall m :: 0 < m < |parts| - 1 ==> parts[m] != []
    requires forall e :: e in css && e.key != css[p].key ==> Apart(css[p].value, e.key)
    requires KeyFree(css[p].value, html)
    ensures StyleText(Join(parts, css[p].key), html, css) == Join(parts, css[p].value)
  {
    KeyInContext(css, p, parts);
    var t := Join(parts, css[p].value);
    forall e | e in SortByLength(html) ensures !Contains(t, e.key) {
      assert e in multiset(html);
      forall m | 0 <= m < |parts| ensures Apart(parts[m], e.key) {
        assert KeyFree(parts[m], html);
      }
      ApartJoin(parts, css[p].value, e.key);
      ApartAbsent(t, e.key);
    }
    ApplyAbsent(t, SortByLength(html));
  }

  // ---------------------------------------------------------------------
  // Structural router: the text cut into pieces the passes leave alone
  // (`Lit`) and regions whose body a pass rewrites (`Region`).

  datatype Piece = Lit(c: char) | Region(open: string, body: string, close: string)

  /** A regular-expression match found at some index: what it covers and where it ends. */
  datatype Found = Found(piece: Piece, end: nat)

  function RawPiece(p: Piece): string {
    match p
    case Lit(c) => [c]
    case Region(o, b, c) => o + b + c
  }

  function RenderPiece(p: Piece, es: Dict): string {
    match p
    case Lit(c) => [c]
    case Region(o, b, c) => o + ApplyEntries(b, es) + c
  }

  /** The text the pieces were cut from. */
  function Raw(ps: seq<Piece>): string {
    if ps == [] then [] else RawPiece(ps[0]) + Raw(ps[1..])
  }

  /** The pieces with each region's body rewritten through `es`. */
  function Render(ps: seq<Piece>, es: Dict): string {
    if ps == [] then [] else RenderPiece(ps[0], es) + Render(ps[1..], es)
  }

  predicate AllLit(ps: seq<Piece>) {
    forall p :: p in ps ==> p.Lit?
  }

  /** Text with no region is emitted as it is. */
  lemma {:induction false} RenderAllLit(ps: seq<Piece>, es: Dict)
    requires AllLit(ps)
    ensures Render(ps, es) == Raw(ps)
  {
    if ps != [] {
      assert ps[0] in ps;
      assert forall p :: p in ps[1..] ==> p in ps;
      RenderAllLit(ps[1..], es);
    }
  }

  // Stage 1: `(பாணி|style)="([^"]*)"`

  /** The match of `(பாணி|style)="([^"]*)"` starting at index `i`, if any. */
  function AttrAt(s: string, i: nat): (m: Option<Found>)
    requires i <= |s|
    ensures m.Some? ==> i < m.value.end <= |s| && RawPiece(m.value.piece) == s[i..m.value.end]
    ensures m.Some? ==> m.value.piece.Region?
  {
    var name := if At(s, i, StyleNative + "=\"") then StyleNative else StyleCanonical;
    if !At(s, i, name + "=\"") then None
    else
      var start := i + |name| + 2;
      match IndexFrom(s, "\"", start)
      case None => None
      case Some(q) =>
        assert s[i..q + 1] == s[i..start] + s[start..q] + s[q..q + 1];
        Some(Found(Region(name + "=\"", s[start..q], "\""), q + 1))
  }

  /** The pieces `html.replace(/(பாणி|style)="([^"]*)"/g, ...)` cuts `s[i..]` into. */
  function AttrPieces(s: string, i: nat): seq<Piece>
    requires i <= |s|
    decreases |s| - i
  {
    if i == |s| then []
    else
      match AttrAt(s, i)
      case Some(f) => [f.piece] + AttrPieces(s, f.end)
      case None => [Lit(s[i])] + AttrPieces(s, i + 1)
  }

  /** Stage 1 of `compile`: only the quoted attribute values go through `cssMap`. */
  function AttrPass(s: string, css: Dict): string {
    Render(AttrPieces(s, 0), SortByLength(css))
  }

  lemma RawCons(p: Piece, ps: seq<Piece>)
    ensures Raw([p] + ps) == RawPiece(p) + Raw(ps)
  {
    assert ([p] + ps)[1..] == ps;
  }

  lemma RenderCons(p: Piece, ps: seq<Piece>, es: Dict)
    ensures Render([p] + ps, es) == RenderPiece(p, es) + Render(ps, es)
  {
    assert ([p] + ps)[1..] == ps;
  }

  /** The pieces of stage 1 are exactly the input, cut up. */
  lemma {:induction false} AttrPiecesRaw(s: string, i: nat)
    requires i <= |s|
    ensures Raw(AttrPieces(s, i)) == s[i..]
    decreases |s| - i
  {
    if i < |s| {
      var m := AttrAt(s, i);
      var next := if m.Some? then m.value.end else i + 1;
      var head := if m.Some? then m.value.piece else Lit(s[i]);
      assert AttrPieces(s, i) == [head] + AttrPieces(s, next);
      assert RawPiece(head) == s[i..next];
      AttrPiecesRaw(s, next);
      RawCons(head, AttrPieces(s, next));
      assert s[i..next] + s[next..] == s[i..];
    }
  }

  /**
   * Every region stage 1 rewrites is an attribute name (`பாணி` or `style`)
   * with `="`, a value holding no quote, and the closing quote: the name and
   * both quotes are emitted unchanged around the rewritten value.
   */
  lemma {:induction false} AttrRegionShape(s: string, i: nat, p: Piece)
    requires i <= |s| && p in AttrPieces(s, i) && p.Region?
    ensures p.open == StyleNative + "=\"" || p.open == StyleCanonical + "=\""
    ensures p.close == "\"" && '"' !in p.body
    decreases |s| - i
  {
    if i < |s| {
      match AttrAt(s, i)
      case Some(f) =>
        if p != f.piece {
          AttrRegionShape(s, f.end, p);
        } else {
          var name := if At(s, i, StyleNative + "=\"") then StyleNative else StyleCanonical;
          var start := i + |name| + 2;
          var q := IndexFrom(s, "\"", start).value;
          forall j | start <= j < q ensures s[j] != '"' {
            assert !At(s, j, "\"");
          }
        }
      case None =>
        AttrRegionShape(s, i + 1, p);
    }
  }

  /** No index of `s` starts a quoted style attribute. */
  predicate NoStyleAttribute(s: string) {
    forall i: nat | i <= |s| :: AttrAt(s, i).None?
  }

  lemma {:induction false} AttrPiecesNoMatch(s: string, i: nat)
    requires i <= |s| && NoStyleAttribute(s)
    ensures AllLit(AttrPieces(s, i))
    decreases |s| - i
  {
    if i < |s| {
      assert AttrAt(s, i).None?;
      AttrPiecesNoMatch(s, i + 1);
    }
  }

  /** Where no quoted style attribute occurs, stage 1 changes nothing. */
  lemma AttrPassNoMatch(s: string, css: Dict)
    requires NoStyleAttribute(s)
    ensures AttrPass(s, css) == s
  {
    AttrPiecesNoMatch(s, 0);
    RenderAllLit(AttrPieces(s, 0), SortByLength(css));
    AttrPiecesRaw(s, 0);
  }

  /**
   * An attribute `பாணி="` or `style="` at `i` whose closing quote never comes
   * is no match: stage 1 copies its first character and moves on.
   */
  lemma UnterminatedAttribute(s: string, i: nat, name: string)
    requires i <= |s| && (name == StyleNative || name == StyleCanonical) && At(s, i, name + "=\"")
    requires forall j :: i + |name| + 2 <= j < |s| ==> s[j] != '"'
    ensures AttrAt(s, i).None?
    ensures AttrPieces(s, i) == [Lit(s[i])] + AttrPieces(s, i + 1)
  {
    assert s[i] == (name + "=\"")[0];
    forall j: nat | i + |name| + 2 <= j ensures !At(s, j, "\"") {
      if j + 1 <= |s| {
        assert s[j..j + 1] == [s[j]];
      }
    }
  }

  /** One step of the stage 1 scan: a literal character, or a whole attribute. */
  lemma AttrRenderStep(s: string, i: nat, es: Dict)
    requires i < |s|
    ensures AttrAt(s, i).None? ==>
      Render(AttrPieces(s, i), es) == [s[i]] + Render(AttrPieces(s, i + 1), es)
    ensures AttrAt(s, i).Some? ==>
      var f := AttrAt(s, i).value;
      Render(AttrPieces(s, i), es) ==
        f.piece.open + ApplyEntries(f.piece.body, es) + f.piece.close + Render(AttrPieces(s, f.end), es)
  {
    var m := AttrAt(s, i);
    if m.None? {
      RenderCons(Lit(s[i]), AttrPieces(s, i + 1), es);
    } else {
      RenderCons(m.value.piece, AttrPieces(s, m.value.end), es);
    }
  }

  /** One round of the stage 1 `replace`: copy a character, or rewrite one attribute value. */
  method RewriteAttrAt(code: string, i: nat, css: Dict) returns (out: string, next: nat)
    requires i < |code|
    ensures i < next <= |code|
    ensures out + Render(AttrPieces(code, next), SortByLength(css)) == Render(AttrPieces(code, i), SortByLength(css))
  {
    var m := AttrAt(code, i);
    AttrRenderStep(code, i, SortByLength(css));
    if m.None? {
      out, next := [code[i]], i + 1;
    } else {
      var f := m.value;
      var value := Substitute(f.piece.body, css);
      out, next := f.piece.open + value + f.piece.close, f.end;
    }
  }

  /** The `replace` loop of stage 1, running the callback's own `cssMap` loop on each value. */
  method RewriteStyleAttributes(code: string, css: Dict) returns (r: string)
    ensures r == AttrPass(code, css)
  {
    r := [];
    var i := 0;
    while i < |code|
      invariant i <= |code|
      invariant r + Render(AttrPieces(code, i), SortByLength(css)) == AttrPass(code, css)
      decreases |code| - i
    {
      var out, next := RewriteAttrAt(code, i, css);
      r, i := r + out, next;
    }
  }

  // Stage 2: `<(பாணி|style)([^>]*)>([\s\S]*?)<\/(பாணி|style)>`

  predicate CloseTagAt(s: string, j: nat) {
    At(s, j, "</" + StyleNative + ">") || At(s, j, "</" + StyleCanonical + ">")
  }

  datatype Close = Close(index: nat, tag: string)

  /** The first closing style tag at or after `j`: where the lazy `[\s\S]*?` stops. */
  function CloseTagFrom(s: string, j: nat): (c: Option<Close>)
    requires j <= |s|
    decreases |s| - j
    ensures c.Some? ==> j <= c.value.index && At(s, c.value.index, "</" + c.value.tag + ">")
    ensures c.Some? ==> c.value.tag == StyleNative || c.value.tag == StyleCanonical
    ensures c.Some? ==> forall m: nat :: j <= m < c.value.index ==> !CloseTagAt(s, m)
    ensures c.None? ==> forall m: nat :: j <= m ==> !CloseTagAt(s, m)
  {
    if At(s, j, "</" + StyleNative + ">") then Some(Close(j, StyleNative))
    else if At(s, j, "</" + StyleCanonical + ">") then Some(Close(j, StyleCanonical))
    else if j == |s| then None
    else CloseTagFrom(s, j + 1)
  }

  lemma {:induction false} CloseTagFromNone(s: string, j: nat)
    requires j <= |s| && forall m: nat :: j <= m ==> !CloseTagAt(s, m)
    ensures CloseTagFrom(s, j).None?
    decreases |s| - j
  {
    assert !CloseTagAt(s, j);
    if j < |s| { CloseTagFromNone(s, j + 1); }
  }

  datatype OpenTag = OpenTag(tag: string, gt: nat)

  /** The `<(பாணி|style)([^>]*)>` part of a style block starting at index `i`, if any. */
  function OpenTagAt(s: string, i: nat): (o: Option<OpenTag>)
    requires i <= |s|
    ensures o.Some? ==> o.value.tag == StyleNative || o.value.tag == StyleCanonical
    ensures o.Some? ==> At(s, i, "<" + o.value.tag) && i + 1 + |o.value.tag| <= o.value.gt < |s|
    ensures o.Some? ==> At(s, o.value.gt, ">")
    ensures o.Some? ==> forall j: nat :: i + 1 + |o.value.tag| <= j < o.value.gt ==> !At(s, j, ">")
  {
    var tag := if At(s, i, "<" + StyleNative) then StyleNative else StyleCanonical;
    if !At(s, i, "<" + tag) then None
    else
      var a := i + 1 + |tag|;
      match IndexFrom(s, ">", a)
      case None => None
      case Some(gt) => Some(OpenTag(tag, gt))
  }

  /** The match of the style-block pattern starting at index `i`, if any. */
  function BlockAt(s: string, i: nat): (m: Option<Found>)
    requires i <= |s|
    ensures m.Some? ==> i < m.value.end <= |s| && m.value.piece.Region?
    ensures m.Some? ==> RawPiece(m.value.piece) == s[i..m.value.end]
    ensures m.Some? ==> StyleBlockShape(m.value.piece)
  {
    match OpenTagAt(s, i)
    case None => None
    case Some(o) =>
      match CloseTagFrom(s, o.gt + 1)
      case None => None
      case Some(c) => Some(BlockFound(s, i, o, c))
  }

  /** The style block whose open tag `o` starts at `i` and whose first closing tag is `c`. */
  function BlockFound(s: string, i: nat, o: OpenTag, c: Close): (f: Found)
    requires i <= |s| && OpenTagAt(s, i) == Some(o) && CloseTagFrom(s, o.gt + 1) == Some(c)
    ensures i < f.end <= |s| && f.piece.Region?
    ensures RawPiece(f.piece) == s[i..f.end]
    ensures StyleBlockShape(f.piece)
  {
    var a := i + 1 + |o.tag|;
    BlockFacts(s, i, a, o.gt, c.index, o.tag, c.tag);
    Found(Region("<" + o.tag + s[a..o.gt] + ">", s[o.gt + 1..c.index], "</" + c.tag + ">"), c.index + |c.tag| + 3)
  }

  /** A block's text is its open tag, its attribute text, `>`, its body and its close tag, in that order. */
  lemma BlockSlices(s: string, i: nat, a: nat, g: nat, ci: nat, e: nat, t: string, ct: string)
    requires i <= a <= g && g + 1 <= ci <= e <= |s|
    requires s[i..a] == "<" + t && s[g..g + 1] == ">" && s[ci..e] == "</" + ct + ">"
    ensures s[i..e] == ("<" + t + s[a..g] + ">") + s[g + 1..ci] + ("</" + ct + ">")
  {
    SliceSplit(s, i, a, g);
    SliceSplit(s, i, g, g + 1);
    SliceSplit(s, i, g + 1, ci);
    SliceSplit(s, i, ci, e);
  }

  /** The pieces the style-block `replace` cuts `s[i..]` into. */
  function BlockPieces(s: string, i: nat): seq<Piece>
    requires i <= |s|
    decreases |s| - i
  {
    if i == |s| then []
    else
      match BlockAt(s, i)
      case Some(f) => [f.piece] + BlockPieces(s, f.end)
      case None => [Lit(s[i])] + BlockPieces(s, i + 1)
  }

  /** Stage 2 of `compile`: each style block's body goes through `compileCSS`. */
  function BlockPass(s: string, html: Dict, css: Dict): string {
    Render(BlockPieces(s, 0), SortByLength(css) + SortByLength(html))
  }

  /** The pieces of stage 2 are exactly the input, cut up. */
  lemma {:induction false} BlockPiecesRaw(s: string, i: nat)
    requires i <= |s|
    ensures Raw(BlockPieces(s, i)) == s[i..]
    decreases |s| - i
  {
    if i < |s| {
      var head, next := BlockStep(s, i);
      BlockPiecesRaw(s, next);
      RawCons(head, BlockPieces(s, next));
      DropSplit(s, i, next);
    }
  }

  /** The first piece of stage 2 at `i`, the index after it, and the text it covers. */
  lemma BlockStep(s: string, i: nat) returns (head: Piece, next: nat)
    requires i < |s|
    ensures i < next <= |s| && BlockPieces(s, i) == [head] + BlockPieces(s, next)
    ensures RawPiece(head) == s[i..next]
  {
    var m := BlockAt(s, i);
    if m.Some? {
      head, next := m.value.piece, m.value.end;
    } else {
      head, next := Lit(s[i]), i + 1;
    }
  }

  lemma AtSlice(s: string, lo: nat, hi: nat, m: nat, p: string)
    requires lo <= hi <= |s| && At(s[lo..hi], m, p)
    ensures At(s, lo + m, p) && lo + m + |p| <= hi
  {
    var t := s[lo..hi];
    var a := t[m..m + |p|];
    var b := s[lo + m..lo + m + |p|];
    forall k | 0 <= k < |a| ensures a[k] == b[k] {
      assert a[k] == t[m + k];
      assert t[m + k] == s[lo + m + k];
    }
    assert a == b;
  }

  /**
   * Every region stage 2 rewrites is a style open tag `<பாணி...>` or
   * `<style...>` whose attribute text holds no `>`, a body holding no closing
   * style tag (the first one ends the block), and a closing `</பாணி>` or
   * `</style>`; the tags and attribute text are emitted unchanged.
   */
  lemma {:induction false} BlockRegionShape(s: string, i: nat, p: Piece)
    requires i <= |s| && p in BlockPieces(s, i) && p.Region?
    ensures StyleBlockShape(p)
    decreases |s| - i
  {
    if i < |s| {
      var m := BlockAt(s, i);
      var next := if m.Some? then m.value.end else i + 1;
      assert BlockPieces(s, i)[1..] == BlockPieces(s, next);
      if p in BlockPieces(s, next) {
        BlockRegionShape(s, next, p);
      }
    }
  }

  /** A style block as stage 2 cuts it out: open tag with `>`-free attribute text, body without a closing style tag, closing tag. */
  ghost predicate StyleBlockShape(p: Piece)
    requires p.Region?
  {
    && (exists tag, attrs :: (tag == StyleNative || tag == StyleCanonical) && '>' !in attrs &&
                             p.open == "<" + tag + attrs + ">")
    && (p.close == "</" + StyleNative + ">" || p.close == "</" + StyleCanonical + ">")
    && forall m: nat :: !CloseTagAt(p.body, m)
  }

  lemma RegionHasShape(tag: string, attrs: string, body: string, closeTag: string)
    requires (tag == StyleNative || tag == StyleCanonical) && '>' !in attrs
    requires closeTag == StyleNative || closeTag == StyleCanonical
    requires forall m: nat :: !CloseTagAt(body, m)
    ensures StyleBlockShape(Region("<" + tag + attrs + ">", body, "</" + closeTag + ">"))
  {
  }

  /** The text a style block found at `i` is cut into, and its shape. */
  lemma BlockFacts(s: string, i: nat, a: nat, g: nat, ci: nat, tag: string, closeTag: string)
    requires a == i + 1 + |tag| && a <= g && g + 1 <= ci && ci + |closeTag| + 3 <= |s|
    requires tag == StyleNative || tag == StyleCanonical
    requires closeTag == StyleNative || closeTag == StyleCanonical
    requires At(s, i, "<" + tag) && At(s, g, ">") && At(s, ci, "</" + closeTag + ">")
    requires forall j: nat :: a <= j < g ==> !At(s, j, ">")
    requires forall m: nat :: g + 1 <= m < ci ==> !CloseTagAt(s, m)
    ensures RawPiece(Region("<" + tag + s[a..g] + ">", s[g + 1..ci], "</" + closeTag + ">")) == s[i..ci + |closeTag| + 3]
    ensures StyleBlockShape(Region("<" + tag + s[a..g] + ">", s[g + 1..ci], "</" + closeTag + ">"))
  {
    BlockSlices(s, i, a, g, ci, ci + |closeTag| + 3, tag, closeTag);
    AttrsHaveNoGt(s, a, g);
    BodyHasNoCloseTag(s, g + 1, ci);
    RegionHasShape(tag, s[a..g], s[g + 1..ci], closeTag);
  }

  lemma AttrsHaveNoGt(s: string, a: nat, g: nat)
    requires a <= g <= |s| && forall j: nat :: a <= j < g ==> !At(s, j, ">")
    ensures '>' !in s[a..g]
  {
    forall j | a <= j < g ensures s[j] != '>' {
      assert !At(s, j, ">");
      assert s[j..j + 1] == [s[j]];
    }
  }

  lemma BodyHasNoCloseTag(s: string, lo: nat, hi: nat)
    requires lo <= hi <= |s|
    requires forall m: nat :: lo <= m < hi ==> !CloseTagAt(s, m)
    ensures forall m: nat :: !CloseTagAt(s[lo..hi], m)
  {
    forall m: nat ensures !CloseTagAt(s[lo..hi], m) {
      if At(s[lo..hi], m, "</" + StyleNative + ">") {
        AtSlice(s, lo, hi, m, "</" + StyleNative + ">");
        assert CloseTagAt(s, lo + m);
      }
      if At(s[lo..hi], m, "</" + StyleCanonical + ">") {
        AtSlice(s, lo, hi, m, "</" + StyleCanonical + ">");
        assert CloseTagAt(s, lo + m);
      }
    }
  }

  /** No index of `s` starts a closed style block. */
  predicate NoStyleBlock(s: string) {
    forall i: nat | i <= |s| :: BlockAt(s, i).None?
  }

  lemma {:induction false} BlockPiecesNoMatch(s: string, i: nat)
    requires i <= |s| && NoStyleBlock(s)
    ensures AllLit(BlockPieces(s, i))
    decreases |s| - i
  {
    if i < |s| {
      assert BlockAt(s, i).None?;
      BlockPiecesNoMatch(s, i + 1);
    }
  }

  /** Where no closed style block occurs, stage 2 changes nothing. */
  lemma BlockPassNoMatch(s: string, html: Dict, css: Dict)
    requires NoStyleBlock(s)
    ensures BlockPass(s, html, css) == s
  {
    BlockPiecesNoMatch(s, 0);
    RenderAllLit(BlockPieces(s, 0), SortByLength(css) + SortByLength(html));
    BlockPiecesRaw(s, 0);
  }

  /** Without a closing style tag anywhere there is no style block at all. */
  lemma UnclosedHasNoStyleBlock(s: string)
    requires forall m: nat :: !CloseTagAt(s, m)
    ensures NoStyleBlock(s)
  {
    forall i: nat | i <= |s| ensures BlockAt(s, i).None? {
      UnclosedBlock(s, i);
    }
  }

  /**
   * A style block opened at `i` with no closing style tag after it is no
   * match: stage 2 copies that index's character and moves on.
   */
  lemma UnclosedBlock(s: string, i: nat)
    requires i <= |s| && forall m: nat :: i <= m ==> !CloseTagAt(s, m)
    ensures BlockAt(s, i).None?
    ensures i < |s| ==> BlockPieces(s, i) == [Lit(s[i])] + BlockPieces(s, i + 1)
  {
    match OpenTagAt(s, i)
    case None =>
    case Some(o) => CloseTagFromNone(s, o.gt + 1);
  }

  /** One step of the stage 2 scan: a literal character, or a whole style block. */
  lemma BlockRenderStep(s: string, i: nat, es: Dict)
    requires i < |s|
    ensures BlockAt(s, i).None? ==>
      Render(BlockPieces(s, i), es) == [s[i]] + Render(BlockPieces(s, i + 1), es)
    ensures BlockAt(s, i).Some? ==>
      var f := BlockAt(s, i).value;
      Render(BlockPieces(s, i), es) ==
        f.piece.open + ApplyEntries(f.piece.body, es) + f.piece.close + Render(BlockPieces(s, f.end), es)
  {
    var m := BlockAt(s, i);
    if m.None? {
      RenderCons(Lit(s[i]), BlockPieces(s, i + 1), es);
    } else {
      RenderCons(m.value.piece, BlockPieces(s, m.value.end), es);
    }
  }

  /** One round of the stage 2 `replace`: copy a character, or compile one style block's body. */
  method RewriteBlockAt(code: string, i: nat, html: Dict, css: Dict) returns (out: string, next: nat)
    requires i < |code|
    ensures i < next <= |code|
    ensures out + Render(BlockPieces(code, next), SortByLength(css) + SortByLength(html)) ==
            Render(BlockPieces(code, i), SortByLength(css) + SortByLength(html))
  {
    var m := BlockAt(code, i);
    BlockRenderStep(code, i, SortByLength(css) + SortByLength(html));
    if m.None? {
      out, next := [code[i]], i + 1;
    } else {
      var f := m.value;
      var body := CompileCSS(f.piece.body, html, css);
      ApplyAppend(f.piece.body, SortByLength(css), SortByLength(html));
      out, next := f.piece.open + body + f.piece.close, f.end;
    }
  }

  /** The `replace` loop of stage 2, running `compileCSS` on each block body. */
  method RewriteStyleBlocks(code: string, html: Dict, css: Dict) returns (r: string)
    ensures r == BlockPass(code, html, css)
  {
    r := [];
    var i := 0;
    while i < |code|
      invariant i <= |code|
      invariant r + Render(BlockPieces(code, i), SortByLength(css) + SortByLength(html)) == BlockPass(code, html, css)
      decreases |code| - i
    {
      var out, next := RewriteBlockAt(code, i, html, css);
      r, i := r + out, next;
    }
  }

  // ---------------------------------------------------------------------
  // compile

  /** What `compile` returns: the doctype line, then stages 1, 2 and 3 applied in order. */
  function Compiled(code: string, html: Dict, css: Dict): string {
    Doctype + ApplyEntries(BlockPass(AttrPass(code, css), html, css), SortByLength(html))
  }

  method Compile(code: string, html: Dict, css: Dict) returns (r: string)
    ensures r == Compiled(code, html, css)
    ensures StartsWith(r, Doctype)
  {
    var text := RewriteStyleAttributes(code, css);
    text := RewriteStyleBlocks(text, html, css);
    text := Substitute(text, html);
    r := Doctype + text;
    assert r[..|Doctype|] == Doctype;
  }

  /**
   * Text with no quoted style attribute, no closed style block and no
   * `htmlMap` key compiles to the doctype line followed by the text unchanged.
   */
  lemma CompileUntouched(code: string, html: Dict, css: Dict)
    requires NoStyleAttribute(code) && NoStyleBlock(code) && NoKeyIn(code, html)
    ensures Compiled(code, html, css) == Doctype + code
  {
    AttrPassNoMatch(code, css);
    BlockPassNoMatch(code, html, css);
    forall e | e in SortByLength(html) ensures !Contains(code, e.key) {
      assert e in multiset(html);
    }
    ApplyAbsent(code, SortByLength(html));
  }
  /** A text holding no double quote has no quoted style attribute. */
  lemma QuoteFreeHasNoStyleAttribute(s: string)
    requires '"' !in s
    ensures NoStyleAttribute(s)
  {
    AbsentChar(s, StyleNative + "=\"", '"');
    AbsentChar(s, StyleCanonical + "=\"", '"');
  }

  /** The heading entries of `htmlMap`: each shorter key is a prefix of the longer ones. */
  const Headings: Dict := [Entry("தலை", "head"), Entry("தலைப்பு", "title"), Entry("தலைப்பு1", "h1")]

  /**
   * With the heading entries, a first-level heading compiles to `<h1>…</h1>`
   * and not to `<head>…` or `<title>…`.
   */
  lemma HeadingExample(css: Dict)
    ensures Compiled("<தலைப்பு1>x</தலைப்பு1>", Headings, css) == "<!DOCTYPE html>\n<h1>x</h1>"
  {
    var code := "<தலைப்பு1>x</தலைப்பு1>";
    HeadingStagesPass(code, css);
    HeadingSubstituted(code, Headings);
    assert Compiled(code, Headings, css) == Doctype + "<h1>x</h1>";
    HeadingPage();
  }

  lemma HeadingPage()
    ensures Doctype + "<h1>x</h1>" == "<!DOCTYPE html>\n<h1>x</h1>"
  {
  }

  lemma HeadingStagesPass(code: string, css: Dict)
    requires code == "<தலைப்பு1>x</தலைப்பு1>"
    ensures BlockPass(AttrPass(code, css), Headings, css) == code
  {
    HeadingChars(code);
    AbsentChar(code, "</" + StyleNative + ">", 'ா');
    AbsentChar(code, "</" + StyleCanonical + ">", 'y');
    PlainStagesPass(code, Headings, css);
  }

  lemma HeadingChars(code: string)
    requires code == "<தலைப்பு1>x</தலைப்பு1>"
    ensures '"' !in code && 'ா' !in code && 'y' !in code
    ensures 'ா' in "</" + StyleNative + ">" && 'y' in "</" + StyleCanonical + ">"
  {
  }

  /** Text without a double quote or a closing style tag passes stages 1 and 2 unchanged. */
  lemma PlainStagesPass(code: string, html: Dict, css: Dict)
    requires '"' !in code && forall m: nat :: !CloseTagAt(code, m)
    ensures BlockPass(AttrPass(code, css), html, css) == code
  {
    QuoteFreeHasNoStyleAttribute(code);
    AttrPassNoMatch(code, css);
    UnclosedHasNoStyleBlock(code);
    BlockPassNoMatch(code, html, css);
  }

  lemma HeadingSubstituted(code: string, d: Dict)
    requires code == "<தலைப்பு1>x</தலைப்பு1>" && d == Headings
    ensures ApplyEntries(code, SortByLength(d)) == "<h1>x</h1>"
  {
    var parts := ["<", ">x</", ">"];
    HeadingJoins(parts);
    HeadingPartsApart();
    HeadingsShape();
    HeadingsKeyFree(parts[0]);
    HeadingsKeyFree(parts[1]);
    HeadingsKeyFree(parts[2]);
    KeyInContext(d, 2, parts);
  }

  lemma HeadingJoins(parts: seq<string>)
    requires parts == ["<", ">x</", ">"]
    ensures Join(parts, "தலைப்பு1") == "<தலைப்பு1>x</தலைப்பு1>"
    ensures Join(parts, "h1") == "<h1>x</h1>"
  {
    JoinThree(parts, "தலைப்பு1");
    JoinThree(parts, "h1");
  }

  lemma HeadingPartsApart()
    ensures Apart("<", "தலைப்பு1") && Apart(">x</", "தலைப்பு1") && Apart(">", "தலைப்பு1")
  {
  }

  lemma HeadingsShape()
    ensures DistinctKeys(Headings) && forall e :: e in Headings ==> e.key != []
    ensures Headings[2] == Entry("தலைப்பு1", "h1")
    ensures forall e :: e in Headings && e.key != "தலைப்பு1" ==> Apart("h1", e.key)
  {
    assert Apart("h1", "தலை") && Apart("h1", "தலைப்பு");
  }

  lemma JoinThree(parts: seq<string>, sep: string)
    requires |parts| == 3
    ensures Join(parts, sep) == parts[0] + sep + parts[1] + sep + parts[2]
  {
    JoinCons(parts, sep);
    JoinCons(parts[1..], sep);
  }

  /** A text apart from the longest heading key is apart from all of them. */
  lemma HeadingsKeyFree(t: string)
    requires Apart(t, "தலைப்பு1")
    ensures KeyFree(t, Headings)
  {
    ApartPrefix(t, "தலை", "தலைப்பு1");
    ApartPrefix(t, "தலைப்பு", "தலைப்பு1");
  }
}
