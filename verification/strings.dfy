/**
 * The JavaScript string primitives the extension relies on, written out over
 * `seq<char>`: `startsWith`, `endsWith`, `includes`, `indexOf`, `split`,
 * `join`, `replace` with a string pattern, `trim`, `trimEnd` and `repeat`.
 */
module Strings {
  import opened Wrappers

  /** `p` occurs in `s` at index `i`. */
  predicate At(s: string, i: nat, p: string) {
    i + |p| <= |s| && s[i..i + |p|] == p
  }

  predicate StartsWith(s: string, p: string) {
    At(s, 0, p)
  }

  predicate EndsWith(s: string, p: string) {
    |p| <= |s| && s[|s| - |p|..] == p
  }

  /** `s.includes(p)` */
  predicate Contains(s: string, p: string) {
    exists i: nat | i <= |s| :: At(s, i, p)
  }

  /** `s.indexOf(p, from)`: the first index at or after `from` where `p` occurs. */
  function IndexFrom(s: string, p: string, from: nat): (r: Option<nat>)
    decreases |s| - from
    ensures r.Some? ==> from <= r.value && At(s, r.value, p)
    ensures r.Some? ==> forall j: nat :: from <= j < r.value ==> !At(s, j, p)
    ensures r.None? ==> forall j: nat :: from <= j ==> !At(s, j, p)
  {
    if from + |p| > |s| then None
    else if At(s, from, p) then Some(from)
    else IndexFrom(s, p, from + 1)
  }

  lemma IndexOfContains(s: string, p: string)
    ensures IndexFrom(s, p, 0).Some? <==> Contains(s, p)
  {
    if IndexFrom(s, p, 0).Some? {
      assert At(s, IndexFrom(s, p, 0).value, p);
    }
  }

  /** `" ".repeat(n)` */
  function Spaces(n: nat): (r: string)
    ensures |r| == n && forall i :: 0 <= i < n ==> r[i] == ' '
  {
    seq(n, _ => ' ')
  }

  /** The characters JavaScript's `trim` removes and `\s` matches. */
  predicate IsSpace(c: char) {
    || c == '\t' || c == '\n' || c == '\U{000B}' || c == '\U{000C}' || c == '\r' || c == ' '
    || c == '\U{00A0}' || c == '\U{1680}' || ('\U{2000}' <= c <= '\U{200A}')
    || c == '\U{2028}' || c == '\U{2029}' || c == '\U{202F}' || c == '\U{205F}'
    || c == '\U{3000}' || c == '\U{FEFF}'
  }

  /** The characters of the regular-expression class `\w`. */
  predicate IsWordChar(c: char) {
    ('a' <= c <= 'z') || ('A' <= c <= 'Z') || ('0' <= c <= '9') || c == '_'
  }

  /** `s.trimStart()` */
  function TrimStart(s: string): (r: string)
    ensures |r| <= |s| && r == s[|s| - |r|..]
    ensures r == [] || !IsSpace(r[0])
    ensures forall i :: 0 <= i < |s| - |r| ==> IsSpace(s[i])
  {
    if s != [] && IsSpace(s[0]) then TrimStart(s[1..]) else s
  }

  /** `s.trimEnd()` */
  function TrimEnd(s: string): (r: string)
    ensures |r| <= |s| && r == s[..|r|]
    ensures r == [] || !IsSpace(r[|r| - 1])
    ensures forall i :: |r| <= i < |s| ==> IsSpace(s[i])
  {
    if s != [] && IsSpace(s[|s| - 1]) then TrimEnd(s[..|s| - 1]) else s
  }

  /** `s.trim()` */
  function Trim(s: string): (r: string)
    ensures r == [] || (!IsSpace(r[0]) && !IsSpace(r[|r| - 1]))
  {
    TrimEnd(TrimStart(s))
  }

  /**
   * `Trim` keeps one contiguous slice of `s`, drops only white space on
   * either side of it, and drops all of it: the slice neither starts nor
   * ends with white space.
   */
  lemma TrimBounds(s: string) returns (a: nat, b: nat)
    ensures a <= b <= |s| && Trim(s) == s[a..b]
    ensures forall i :: 0 <= i < a ==> IsSpace(s[i])
    ensures forall i :: b <= i < |s| ==> IsSpace(s[i])
    ensures a < b ==> !IsSpace(s[a]) && !IsSpace(s[b - 1])
  {
    a, b := TrimSlice(s);
    var r := Trim(s);
    if a < b {
      assert s[a] == r[0] && s[b - 1] == r[|r| - 1];
    }
  }

  // Proof step: the slice `Trim` keeps, with white space on either side.
  lemma TrimSlice(s: string) returns (a: nat, b: nat)
    ensures a <= b <= |s| && Trim(s) == s[a..b]
    ensures forall i :: 0 <= i < a ==> IsSpace(s[i])
    ensures forall i :: b <= i < |s| ==> IsSpace(s[i])
  {
    var t := TrimStart(s);
    a := |s| - |t|;
    var u := TrimEnd(t);
    b := a + |u|;
    assert u == s[a..b] by {
      assert t == s[a..] && u == t[..|u|];
    }
    forall i | b <= i < |s| ensures IsSpace(s[i]) {
      assert s[i] == t[i - a];
    }
  }

  /** What `trim` keeps is a piece of the original text. */
  lemma TrimWithin(s: string) returns (i: nat)
    ensures At(s, i, Trim(s))
  {
    var t := TrimStart(s);
    i := |s| - |t|;
    assert s[i..] == t;
  }

  /** `o` is `s` with its first occurrence of `p` replaced by `r`. */
  ghost predicate ReplacedFirst(s: string, p: string, r: string, o: string) {
    exists i: nat ::
      && At(s, i, p) && (forall k :: 0 <= k < i ==> !At(s, k, p))
      && o == s[..i] + r + s[i + |p|..]
  }

  /** `s.replace(p, r)` with a string pattern: only the first occurrence is replaced. */
  function ReplaceFirst(s: string, p: string, r: string): (o: string)
    ensures !Contains(s, p) ==> o == s
    ensures Contains(s, p) ==> ReplacedFirst(s, p, r, o)
  {
    IndexOfContains(s, p);
    match IndexFrom(s, p, 0)
    case None => s
    case Some(i) => s[..i] + r + s[i + |p|..]
  }

  /** `s.split(sep)`. An empty separator splits into single characters. */
  function Split(s: string, sep: string): (parts: seq<string>)
    ensures sep != [] ==> |parts| >= 1
  {
    if sep == [] then Chars(s, 0) else SplitFrom(s, sep, 0)
  }

  function Chars(s: string, from: nat): (parts: seq<string>)
    requires from <= |s|
    decreases |s| - from
  {
    if from == |s| then [] else [[s[from]]] + Chars(s, from + 1)
  }

  /** The pieces of `s[from..]` between successive occurrences of `sep`, found by `indexOf`. */
  function SplitFrom(s: string, sep: string, from: nat): (parts: seq<string>)
    requires sep != [] && from <= |s|
    ensures |parts| >= 1
    decreases |s| - from
  {
    match IndexFrom(s, sep, from)
    case None => [s[from..]]
    case Some(i) => [s[from..i]] + SplitFrom(s, sep, i + |sep|)
  }

  /** `parts.join(sep)` */
  function Join(parts: seq<string>, sep: string): string {
    if parts == [] then []
    else if |parts| == 1 then parts[0]
    else parts[0] + sep + Join(parts[1..], sep)
  }

  /**
   * Literal replacement of every occurrence of `k` by `v`, scanning left to
   * right and resuming after each replaced occurrence (so occurrences never
   * overlap). An empty `k` matches between every two characters.
   */
  function ReplaceAll(s: string, k: string, v: string): string {
    ReplaceFrom(s, k, v, 0)
  }

  function ReplaceFrom(s: string, k: string, v: string, i: nat): string
    requires i <= |s|
    decreases |s| - i
  {
    if k == [] then
      if |s| - i <= 1 then s[i..] else [s[i]] + v + ReplaceFrom(s, k, v, i + 1)
    else if i == |s| then []
    else if At(s, i, k) then v + ReplaceFrom(s, k, v, i + |k|)
    else [s[i]] + ReplaceFrom(s, k, v, i + 1)
  }

  lemma Assoc(a: string, b: string, c: string)
    ensures (a + b) + c == a + (b + c)
  {
  }

  lemma ConsSlice(s: string, i: nat, n: nat)
    requires i < n <= |s|
    ensures [s[i]] + s[i + 1..n] == s[i..n]
  {
  }

  lemma ReplaceMiss(s: string, k: string, v: string, i: nat)
    requires k != [] && i < |s| && !At(s, i, k)
    ensures ReplaceFrom(s, k, v, i) == [s[i]] + ReplaceFrom(s, k, v, i + 1)
  {
  }

  /** Where `k` does not occur in `s[i..n]`, those characters are copied unchanged. */
  lemma {:induction false} ReplaceSkip(s: string, k: string, v: string, i: nat, n: nat)
    requires k != [] && i <= n <= |s|
    requires forall j: nat :: i <= j < n ==> !At(s, j, k)
    ensures ReplaceFrom(s, k, v, i) == s[i..n] + ReplaceFrom(s, k, v, n)
    decreases n - i
  {
    if i < n {
      ReplaceSkip(s, k, v, i + 1, n);
      ReplaceMiss(s, k, v, i);
      Assoc([s[i]], s[i + 1..n], ReplaceFrom(s, k, v, n));
      ConsSlice(s, i, n);
    } else {
      assert s[i..n] == [];
    }
  }

  /** Identity when the key does not occur (`split` then yields the whole text). */
  lemma ReplaceAllAbsent(s: string, k: string, v: string)
    requires !Contains(s, k)
    ensures ReplaceAll(s, k, v) == s
  {
    assert At(s, 0, []);
    ReplaceSkip(s, k, v, 0, |s|);
    assert s[0..|s|] == s;
  }

  /** Replacing a key by itself changes nothing. */
  lemma ReplaceSelf(s: string, k: string, i: nat)
    requires i <= |s|
    ensures ReplaceFrom(s, k, k, i) == s[i..]
  {
    if k == [] { ReplaceSelfEmpty(s, i); } else { ReplaceSelfKey(s, k, i); }
  }

  lemma {:induction false} ReplaceSelfEmpty(s: string, i: nat)
    requires i <= |s|
    ensures ReplaceFrom(s, [], [], i) == s[i..]
    decreases |s| - i
  {
    if |s| - i > 1 {
      ReplaceSelfEmpty(s, i + 1);
      ReplaceEmptyStep(s, [], i);
      DropSplit(s, i, i + 1);
      assert s[i..i + 1] == [s[i]];
    }
  }

  lemma {:induction false} ReplaceSelfKey(s: string, k: string, i: nat)
    requires k != [] && i <= |s|
    ensures ReplaceFrom(s, k, k, i) == s[i..]
    decreases |s| - i
  {
    if i < |s| {
      var j := if At(s, i, k) then i + |k| else i + 1;
      ReplaceSelfKey(s, k, j);
      ReplaceSelfStep(s, k, i, j);
    }
  }

  lemma ReplaceSelfStep(s: string, k: string, i: nat, j: nat)
    requires k != [] && i < |s| && j == (if At(s, i, k) then i + |k| else i + 1)
    requires ReplaceFrom(s, k, k, j) == s[j..]
    ensures ReplaceFrom(s, k, k, i) == s[i..]
  {
    DropSplit(s, i, j);
    if At(s, i, k) {
      ReplaceHit(s, k, k, i);
    } else {
      ReplaceMiss(s, k, k, i);
      assert s[i..j] == [s[i]];
    }
  }

  lemma ReplaceEmptyStep(s: string, k: string, i: nat)
    requires k == [] && i + 1 < |s|
    ensures ReplaceFrom(s, k, k, i) == [s[i]] + ReplaceFrom(s, k, k, i + 1)
  {
    assert [s[i]] + k == [s[i]];
  }

  lemma DropSplit(s: string, a: nat, b: nat)
    requires a <= b <= |s|
    ensures s[a..] == s[a..b] + s[b..]
  {
  }

  lemma SliceSplit(s: string, a: nat, b: nat, c: nat)
    requires a <= b <= c <= |s|
    ensures s[a..c] == s[a..b] + s[b..c]
  {
  }

  lemma {:induction false} CharsJoin(s: string, v: string, i: nat)
    requires i <= |s|
    ensures Join(Chars(s, i), v) == ReplaceFrom(s, [], v, i)
    decreases |s| - i
  {
    if |s| - i > 1 {
      CharsJoin(s, v, i + 1);
      assert Chars(s, i)[1..] == Chars(s, i + 1);
    } else if |s| - i == 1 {
      assert Chars(s, i) == [[s[i]]];
      assert s[i..] == [s[i]];
    }
  }

  lemma ReplaceHit(s: string, k: string, v: string, i: nat)
    requires k != [] && i <= |s| && At(s, i, k)
    ensures ReplaceFrom(s, k, v, i) == v + ReplaceFrom(s, k, v, i + |k|)
  {
  }

  lemma SplitFromJoin(s: string, k: string, v: string, from: nat)
    requires k != [] && from <= |s|
    ensures Join(SplitFrom(s, k, from), v) == ReplaceFrom(s, k, v, from)
  {
    JoinsFrom(s, k, v, from);
  }

  /** Splitting the tail from `from` on `k` and joining with `v` replaces every `k` in it. */
  predicate JoinsTo(s: string, k: string, v: string, from: nat)
    requires k != [] && from <= |s|
  {
    Join(SplitFrom(s, k, from), v) == ReplaceFrom(s, k, v, from)
  }

  lemma {:induction false} JoinsFrom(s: string, k: string, v: string, from: nat)
    requires k != [] && from <= |s|
    ensures JoinsTo(s, k, v, from)
    decreases |s| - from
  {
    var r := IndexFrom(s, k, from);
    if r.None? {
      SplitFromJoinLast(s, k, v, from);
    } else {
      JoinsFrom(s, k, v, r.value + |k|);
      SplitFromJoinStep(s, k, v, from, r.value);
    }
  }

  lemma SplitFromJoinLast(s: string, k: string, v: string, from: nat)
    requires k != [] && from <= |s| && IndexFrom(s, k, from).None?
    ensures JoinsTo(s, k, v, from)
  {
    assert SplitFrom(s, k, from) == [s[from..]];
    ReplaceSkip(s, k, v, from, |s|);
    assert ReplaceFrom(s, k, v, |s|) == [];
    assert s[from..|s|] == s[from..];
  }

  lemma SplitFromJoinStep(s: string, k: string, v: string, from: nat, i: nat)
    requires k != [] && from <= |s| && IndexFrom(s, k, from) == Some(i)
    requires JoinsTo(s, k, v, i + |k|)
    ensures JoinsTo(s, k, v, from)
  {
    var rest := SplitFrom(s, k, i + |k|);
    SplitFromHit(s, k, from, i);
    JoinPrepend(s[from..i], rest, v);
    ReplaceSkip(s, k, v, from, i);
    ReplaceHit(s, k, v, i);
    Assoc(s[from..i], v, ReplaceFrom(s, k, v, i + |k|));
  }

  lemma JoinPrepend(a: string, rest: seq<string>, sep: string)
    requires rest != []
    ensures Join([a] + rest, sep) == a + sep + Join(rest, sep)
  {
    assert ([a] + rest)[1..] == rest;
  }

  /** `s.split(k).join(v)` is the left-to-right literal replacement of `k` by `v`. */
  lemma SplitJoinIsReplaceAll(s: string, k: string, v: string)
    ensures Join(Split(s, k), v) == ReplaceAll(s, k, v)
  {
    if k == [] { CharsJoin(s, v, 0); } else { SplitFromJoin(s, k, v, 0); }
  }

  /** `s.split(k).join(k)` gives back `s`. */
  lemma SplitJoinRoundTrip(s: string, k: string)
    ensures Join(Split(s, k), k) == s
  {
    SplitJoinIsReplaceAll(s, k, k);
    ReplaceSelf(s, k, 0);
  }

  /** The first occurrence at or after `from` is the one with none before it. */
  lemma IndexFromIs(s: string, p: string, from: nat, k: nat)
    requires from <= k && At(s, k, p)
    requires forall j: nat :: from <= j < k ==> !At(s, j, p)
    ensures IndexFrom(s, p, from) == Some(k)
  {
    var r := IndexFrom(s, p, from);
    assert r.Some?;
    assert !(r.value < k) && !(k < r.value);
  }

  /** A single-character separator that does not occur in the parts splits their join back into them. */
  lemma {:induction false} SplitFromJoined(s: string, c: char, from: nat, parts: seq<string>)
    requires from <= |s| && |parts| >= 1 && s[from..] == Join(parts, [c])
    requires forall k :: 0 <= k < |parts| ==> c !in parts[k]
    ensures SplitFrom(s, [c], from) == parts
    decreases |parts|
  {
    if |parts| == 1 {
      SplitFromJoinedLast(s, c, from, parts[0]);
    } else {
      var p, rest := parts[0], parts[1..];
      JoinedTail(s, c, from, parts);
      SplitFromJoined(s, c, from + |p| + 1, rest);
      SplitFromJoinedStep(s, c, from, p, rest);
      HeadTail(parts);
    }
  }

  lemma JoinCons(parts: seq<string>, sep: string)
    requires |parts| >= 2
    ensures Join(parts, sep) == parts[0] + sep + Join(parts[1..], sep)
  {
  }

  /** A text joined from two or more parts: its first part, the separator, then the join of the rest. */
  lemma JoinedTail(s: string, c: char, from: nat, parts: seq<string>)
    requires from <= |s| && |parts| >= 2 && s[from..] == Join(parts, [c])
    requires forall k :: 0 <= k < |parts| ==> c !in parts[k]
    ensures from + |parts[0]| + 1 <= |s|
    ensures s[from..from + |parts[0]|] == parts[0] && s[from + |parts[0]|] == c
    ensures s[from + |parts[0]| + 1..] == Join(parts[1..], [c])
    ensures forall k :: 0 <= k < |parts[1..]| ==> c !in parts[1..][k]
  {
    JoinCons(parts, [c]);
    DropCons(s, from, parts[0], c, Join(parts[1..], [c]));
  }

  lemma SplitFromJoinedStep(s: string, c: char, from: nat, p: string, rest: seq<string>)
    requires from + |p| + 1 <= |s| && s[from..from + |p|] == p && s[from + |p|] == c && c !in p
    requires SplitFrom(s, [c], from + |p| + 1) == rest
    ensures SplitFrom(s, [c], from) == [p] + rest
  {
    NoSepIn(s, c, from, p);
    assert At(s, from + |p|, [c]);
    IndexFromIs(s, [c], from, from + |p|);
    SplitFromHit(s, [c], from, from + |p|);
  }

  lemma SplitFromHit(s: string, sep: string, from: nat, i: nat)
    requires sep != [] && from <= |s| && IndexFrom(s, sep, from) == Some(i)
    ensures SplitFrom(s, sep, from) == [s[from..i]] + SplitFrom(s, sep, i + |sep|)
  {
  }

  lemma HeadTail<T>(xs: seq<T>)
    requires xs != []
    ensures [xs[0]] + xs[1..] == xs
  {
  }

  /** The pieces of a text that is `p`, then `c`, then `tail`. */
  lemma DropCons(s: string, from: nat, p: string, c: char, tail: string)
    requires from <= |s| && s[from..] == p + [c] + tail
    ensures from + |p| + 1 <= |s| && s[from..from + |p|] == p && s[from + |p|] == c && s[from + |p| + 1..] == tail
  {
    assert s[from..][..|p|] == p;
    assert s[from..][|p|] == c;
    assert s[from..][|p| + 1..] == tail;
  }

  /** No occurrence of `[c]` starts inside a copy of a `c`-free text. */
  lemma NoSepIn(s: string, c: char, lo: nat, p: string)
    requires lo + |p| <= |s| && s[lo..lo + |p|] == p && c !in p
    ensures forall j: nat :: lo <= j < lo + |p| ==> !At(s, j, [c])
  {
    forall j: nat | lo <= j < lo + |p| ensures !At(s, j, [c]) {
      assert s[j] == p[j - lo];
      assert s[j..j + 1][0] == s[j];
    }
  }

  lemma SplitFromJoinedLast(s: string, c: char, from: nat, p: string)
    requires from <= |s| && s[from..] == p && c !in p
    ensures SplitFrom(s, [c], from) == [p]
  {
    NoSepIn(s, c, from, p);
    forall j: nat | from <= j ensures !At(s, j, [c]) {
    }
    assert IndexFrom(s, [c], from).None?;
  }

  /** No part `split(c)` returns contains `c`. */
  lemma {:induction false} SplitFromParts(s: string, c: char, from: nat)
    requires from <= |s|
    ensures forall k :: 0 <= k < |SplitFrom(s, [c], from)| ==> c !in SplitFrom(s, [c], from)[k]
    decreases |s| - from
  {
    var parts := SplitFrom(s, [c], from);
    match IndexFrom(s, [c], from)
    case None =>
      forall j | from <= j < |s| ensures s[j] != c {
        assert !At(s, j, [c]);
        assert s[j..j + 1] == [s[j]];
      }
    case Some(i) =>
      forall j | from <= j < i ensures s[j] != c {
        assert !At(s, j, [c]);
        assert s[j..j + 1] == [s[j]];
      }
      SplitFromParts(s, c, i + 1);
      assert parts == [s[from..i]] + SplitFrom(s, [c], i + 1);
  }

  /** Trailing white space is all `trimEnd` removes. */
  lemma TrimEndAppend(a: string, b: string)
    requires a != [] && !IsSpace(a[|a| - 1])
    requires forall k :: 0 <= k < |b| ==> IsSpace(b[k])
    ensures TrimEnd(a + b) == a
    decreases |b|
  {
    if b != [] {
      assert (a + b)[..|a + b| - 1] == a + b[..|b| - 1];
      TrimEndAppend(a, b[..|b| - 1]);
    } else {
      assert a + b == a;
    }
  }

  /** Leading spaces before a trimmed text are all `trim` removes. */
  lemma TrimIndented(n: nat, t: string)
    requires t != [] && !IsSpace(t[0]) && !IsSpace(t[|t| - 1])
    ensures Trim(Spaces(n) + t) == t
  {
    TrimStartIndented(n, t);
  }

  lemma {:induction false} TrimStartIndented(n: nat, t: string)
    requires t != [] && !IsSpace(t[0])
    ensures TrimStart(Spaces(n) + t) == t
    decreases n
  {
    if n == 0 {
      assert Spaces(n) + t == t;
    } else {
      assert (Spaces(n) + t)[1..] == Spaces(n - 1) + t;
      TrimStartIndented(n - 1, t);
    }
  }

  /** Equal neighbours from `i` to `j` make the ends equal. */
  lemma {:induction false} Chain<T>(f: nat -> T, i: nat, j: nat)
    requires i <= j && forall k :: i <= k < j ==> f(k) == f(k + 1)
    ensures f(i) == f(j)
    decreases j - i
  {
    if i < j {
      Chain(f, i + 1, j);
    }
  }
  // Texts made of parts that share no character with a key, joined by the key

  /** No character of `t` occurs in `p`. */
  predicate Apart(t: string, p: string) {
    forall i :: 0 <= i < |t| ==> t[i] !in p
  }

  lemma NotAtApart(s: string, i: nat, p: string)
    requires p != [] && i < |s| && s[i] !in p
    ensures !At(s, i, p)
  {
    if i + |p| <= |s| {
      assert s[i..i + |p|][0] == s[i];
    }
  }

  /** A non-empty `p` cannot occur in a text that shares no character with it. */
  lemma ApartAbsent(t: string, p: string)
    requires p != [] && Apart(t, p)
    ensures !Contains(t, p)
  {
    forall i: nat | i <= |t| ensures !At(t, i, p) {
      if i < |t| {
        NotAtApart(t, i, p);
      }
    }
  }

  lemma ApartPrefix(t: string, p: string, q: string)
    requires Apart(t, q) && |p| <= |q| && q[..|p|] == p
    ensures Apart(t, p)
  {
    forall i | 0 <= i < |t| ensures t[i] !in p {
      forall j | 0 <= j < |p| ensures p[j] != t[i] {
        assert p[j] == q[j];
      }
    }
  }

  lemma ApartConcat(a: string, b: string, p: string)
    requires Apart(a, p) && Apart(b, p)
    ensures Apart(a + b, p)
  {
    forall i | 0 <= i < |a + b| ensures (a + b)[i] !in p {
      if i >= |a| {
        assert (a + b)[i] == b[i - |a|];
      }
    }
  }

  lemma {:induction false} ApartJoin(parts: seq<string>, sep: string, p: string)
    requires Apart(sep, p)
    requires forall m :: 0 <= m < |parts| ==> Apart(parts[m], p)
    ensures Apart(Join(parts, sep), p)
    decreases |parts|
  {
    if |parts| >= 2 {
      ApartJoin(parts[1..], sep, p);
      ApartConcat(parts[0], sep, p);
      ApartConcat(parts[0] + sep, Join(parts[1..], sep), p);
    }
  }

  /** Whether `p` occurs at a position depends only on the text from there on. */
  lemma AtShift(a: string, b: string, j: nat, p: string)
    requires j <= |b|
    ensures At(a + b, |a| + j, p) <==> At(b, j, p)
  {
    if j + |p| <= |b| {
      assert (a + b)[|a| + j..|a| + j + |p|] == b[j..j + |p|];
    }
  }

  /**
   * Replacing a key in parts that share no character with it, joined by the
   * key, rejoins the same parts with the replacement.
   */
  lemma ReplaceJoin(parts: seq<string>, k: string, v: string)
    requires k != []
    requires forall m :: 0 <= m < |parts| ==> Apart(parts[m], k)
    ensures ReplaceAll(Join(parts, k), k, v) == Join(parts, v)
  {
    var s := Join(parts, k);
    assert s[0..] == s;
    ReplaceJoinFrom(s, parts, k, v, 0);
  }

  /** The scan of a text from offset `o`, where the key-joined parts begin. */
  lemma {:induction false} ReplaceJoinFrom(s: string, parts: seq<string>, k: string, v: string, o: nat)
    requires k != [] && o <= |s| && s[o..] == Join(parts, k)
    requires forall m :: 0 <= m < |parts| ==> Apart(parts[m], k)
    ensures ReplaceFrom(s, k, v, o) == Join(parts, v)
    decreases |parts|
  {
    if |parts| == 1 {
      ReplaceApartFrom(s, parts[0], k, v, o, |s|);
      assert s[o..|s|] == parts[0];
    } else if |parts| >= 2 {
      var head := parts[0];
      var n := o + |head|;
      JoinCons(parts, k);
      JoinedSlices(s, o, head, k, Join(parts[1..], k));
      ReplaceJoinFrom(s, parts[1..], k, v, n + |k|);
      ReplacePartThenKey(s, k, v, o, head, Join(parts[1..], v));
      JoinCons(parts, v);
      Assoc(head, v, Join(parts[1..], v));
    } else {
      assert o == |s|;
    }
  }

  /** The scan copies one part, then replaces the key that follows it. */
  lemma ReplacePartThenKey(s: string, k: string, v: string, o: nat, head: string, tail: string)
    requires k != [] && o + |head| + |k| <= |s| && s[o..o + |head|] == head && Apart(head, k)
    requires At(s, o + |head|, k) && ReplaceFrom(s, k, v, o + |head| + |k|) == tail
    ensures ReplaceFrom(s, k, v, o) == head + (v + tail)
  {
    ReplaceApartFrom(s, head, k, v, o, o + |head|);
    ReplaceHitThen(s, k, v, o + |head|, tail);
  }

  lemma ReplaceHitThen(s: string, k: string, v: string, n: nat, tail: string)
    requires k != [] && n <= |s| && At(s, n, k) && ReplaceFrom(s, k, v, n + |k|) == tail
    ensures ReplaceFrom(s, k, v, n) == v + tail
  {
  }

  /** The scan copies a stretch of text that shares no character with the key. */
  lemma ReplaceApartFrom(s: string, head: string, k: string, v: string, o: nat, n: nat)
    requires k != [] && o <= n <= |s| && s[o..n] == head && Apart(head, k)
    ensures ReplaceFrom(s, k, v, o) == head + ReplaceFrom(s, k, v, n)
  {
    forall j: nat | o <= j < n ensures !At(s, j, k) {
      assert s[j] == head[j - o];
      NotAtApart(s, j, k);
    }
    ReplaceSkip(s, k, v, o, n);
  }

  lemma JoinedSlices(s: string, o: nat, head: string, k: string, rest: string)
    requires o <= |s| && s[o..] == head + k + rest
    ensures o + |head| + |k| <= |s|
    ensures s[o..o + |head|] == head && At(s, o + |head|, k)
    ensures s[o + |head| + |k|..] == rest
  {
    var t := s[o..];
    var a, b := |head|, |head| + |k|;
    assert t[..a] == head && t[a..b] == k && t[b..] == rest;
    assert s[o..o + a] == t[..a];
    assert s[o + a..o + b] == t[a..b];
    assert s[o + b..] == t[b..];
  }

  /** A non-empty joined part starts the joined text. */
  lemma JoinHead(parts: seq<string>, sep: string)
    requires parts != [] && parts[0] != []
    ensures Join(parts, sep) != [] && Join(parts, sep)[0] == parts[0][0]
  {
  }

  /**
   * A key at least as long as `k` and different from it, sharing no character
   * with the parts, occurs nowhere in the parts joined by `k` (inner parts
   * being non-empty, every stretch of the text without a part character is a
   * single `k`).
   */
  lemma {:induction false} LongerKeyNotAt(parts: seq<string>, k: string, p: string, i: nat)
    requires p != [] && |p| >= |k| && p != k
    requires forall m :: 0 <= m < |parts| ==> Apart(parts[m], p)
    requires forall m :: 0 < m < |parts| - 1 ==> parts[m] != []
    ensures !At(Join(parts, k), i, p)
    decreases |parts|
  {
    if |parts| == 1 {
      if i < |parts[0]| {
        NotAtApart(parts[0], i, p);
      }
    } else if |parts| >= 2 {
      var head, rest := parts[0], Join(parts[1..], k);
      JoinCons(parts, k);
      var e := |head| + |k|;
      if i < |head| {
        assert Join(parts, k)[i] == head[i];
        NotAtApart(Join(parts, k), i, p);
      } else if i < e {
        assert |parts| >= 3 ==> parts[1..][0] == parts[1] != [];
        LongerKeyInsideKey(head, k, rest, p, i, parts[1..]);
      } else if i <= e + |rest| {
        AtShift(head + k, rest, i - e, p);
        LongerKeyNotAt(parts[1..], k, p, i - e);
      }
    }
  }

  lemma LongerKeyAbsent(parts: seq<string>, k: string, p: string)
    requires p != [] && |p| >= |k| && p != k
    requires forall m :: 0 <= m < |parts| ==> Apart(parts[m], p)
    requires forall m :: 0 < m < |parts| - 1 ==> parts[m] != []
    ensures !Contains(Join(parts, k), p)
  {
    forall i: nat | i <= |Join(parts, k)| ensures !At(Join(parts, k), i, p) {
      LongerKeyNotAt(parts, k, p, i);
    }
  }

  /** A pattern holding a character that the text lacks occurs nowhere in it. */
  lemma AbsentChar(s: string, p: string, c: char)
    requires c in p && c !in s
    ensures forall i: nat :: !At(s, i, p)
  {
    var j :| 0 <= j < |p| && p[j] == c;
    forall i: nat ensures !At(s, i, p) {
      if i + |p| <= |s| {
        assert s[i..i + |p|][j] == s[i + j];
      }
    }
  }

  lemma LongerKeyInsideKey(head: string, k: string, rest: string, p: string, i: nat, tail: seq<string>)
    requires p != [] && |p| >= |k| && p != k
    requires |head| <= i < |head| + |k|
    requires rest == Join(tail, k) && tail != []
    requires forall m :: 0 <= m < |tail| ==> Apart(tail[m], p)
    requires |tail| >= 2 ==> tail[0] != []
    ensures !At(head + k + rest, i, p)
  {
    var s := head + k + rest;
    var e := |head| + |k|;
    if i + |p| <= e {
      assert i == |head| && |p| == |k|;
      assert s[i..i + |p|] == k;
    } else if i + |p| <= |s| {
      assert rest != [];
      JoinHead(tail, k);
      assert s[e] == tail[0][0];
      assert s[i..i + |p|][e - i] !in p;
    }
  }
}
