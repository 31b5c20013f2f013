/**
 * A locale dictionary: the entries of a `Record<string, string>` object
 * literal (native token → canonical token) in insertion order, which is the
 * order `Object.keys` and `Object.entries` report them in. Native keys are
 * unique within one dictionary; canonical values may repeat.
 */
module Dictionary {
  datatype Entry = Entry(key: string, value: string)

  type Dict = seq<Entry>

  /** `Object.keys(d)` */
  function Keys(d: Dict): (ks: seq<string>)
    ensures |ks| == |d| && forall i :: 0 <= i < |d| ==> ks[i] == d[i].key
  {
    seq(|d|, i requires 0 <= i < |d| => d[i].key)
  }

  /** No native key is listed twice (an object literal cannot hold a key twice). */
  predicate DistinctKeys(d: Dict) {
    forall i, j :: 0 <= i < j < |d| ==> d[i].key != d[j].key
  }

  /** Keys in non-increasing length: the order `sort((a, b) => b.length - a.length)` produces. */
  predicate LongerFirst(d: Dict) {
    forall i, j :: 0 <= i < j < |d| ==> |d[i].key| >= |d[j].key|
  }

  /** The entries whose key has exactly `n` characters, in their original order. */
  function OfLength(d: Dict, n: nat): Dict {
    if d == [] then []
    else if |d[0].key| == n then [d[0]] + OfLength(d[1..], n)
    else OfLength(d[1..], n)
  }

  /** Places `x` before the first entry whose key is not longer than its own. */
  function Insert(x: Entry, t: Dict): (r: Dict)
    ensures |r| == |t| + 1
    ensures multiset(r) == multiset(t) + multiset{x}
  {
    if t == [] || |x.key| >= |t[0].key| then [x] + t
    else
      assert t == [t[0]] + t[1..];
      [t[0]] + Insert(x, t[1..])
  }

  /**
   * The stable sort by descending key length that JavaScript's `Array.prototype.sort`
   * performs with the comparator `(a, b) => b.length - a.length`.
   */
  function SortByLength(d: Dict): (r: Dict)
    ensures |r| == |d|
    ensures multiset(r) == multiset(d)
  {
    if d == [] then []
    else
      assert d == [d[0]] + d[1..];
      Insert(d[0], SortByLength(d[1..]))
  }

  lemma {:induction false} InsertLongerFirst(x: Entry, t: Dict)
    requires LongerFirst(t)
    ensures LongerFirst(Insert(x, t))
    decreases |t|
  {
    if t == [] || |x.key| >= |t[0].key| {
    } else {
      InsertLongerFirst(x, t[1..]);
      InsertedShorter(x, t);
      ConsLonger(t[0], Insert(x, t[1..]));
    }
  }

  /** After inserting a shorter entry into the rest, no key there is longer than the first one. */
  lemma InsertedShorter(x: Entry, t: Dict)
    requires t != [] && LongerFirst(t) && |x.key| < |t[0].key|
    ensures forall e :: e in Insert(x, t[1..]) ==> |e.key| <= |t[0].key|
  {
    forall e | e in Insert(x, t[1..]) ensures |e.key| <= |t[0].key| {
      assert e in multiset(Insert(x, t[1..]));
      assert e in multiset(t[1..]) + multiset{x};
      if e != x {
        var m :| 0 <= m < |t[1..]| && t[1..][m] == e;
        assert t[m + 1] == e;
      }
    }
  }

  /** An entry at least as long as every entry of an ordered `r`, put in front, keeps it ordered. */
  lemma ConsLonger(y: Entry, r: Dict)
    requires LongerFirst(r) && forall e :: e in r ==> |e.key| <= |y.key|
    ensures LongerFirst([y] + r)
  {
    var c := [y] + r;
    forall i, j | 0 <= i < j < |c| ensures |c[i].key| >= |c[j].key| {
      if i > 0 { assert c[i] == r[i - 1] && c[j] == r[j - 1]; }
      else { assert c[j] in r; }
    }
  }

  /** The sorted keys are in non-increasing length. */
  lemma {:induction false} SortLongerFirst(d: Dict)
    ensures LongerFirst(SortByLength(d))
  {
    if d != [] {
      SortLongerFirst(d[1..]);
      InsertLongerFirst(d[0], SortByLength(d[1..]));
    }
  }

  lemma {:induction false} InsertOfLength(x: Entry, t: Dict, n: nat)
    ensures OfLength(Insert(x, t), n) ==
            if |x.key| == n then [x] + OfLength(t, n) else OfLength(t, n)
    decreases |t|
  {
    if t == [] || |x.key| >= |t[0].key| {
      assert ([x] + t)[1..] == t;
    } else {
      InsertOfLength(x, t[1..], n);
      assert ([t[0]] + Insert(x, t[1..]))[1..] == Insert(x, t[1..]);
    }
  }

  /** The sort is stable: keys of equal length keep their dictionary order. */
  lemma {:induction false} SortStable(d: Dict, n: nat)
    ensures OfLength(SortByLength(d), n) == OfLength(d, n)
  {
    if d != [] {
      SortStable(d[1..], n);
      InsertOfLength(d[0], SortByLength(d[1..]), n);
    }
  }

  lemma {:induction false} InsertDistinct(x: Entry, t: Dict)
    requires DistinctKeys(t)
    requires forall e :: e in t ==> e.key != x.key
    ensures DistinctKeys(Insert(x, t))
    decreases |t|
  {
    if t == [] || |x.key| >= |t[0].key| {
      ConsDistinct(x, t);
    } else {
      InsertDistinct(x, t[1..]);
      InsertedKeys(x, t);
      ConsDistinct(t[0], Insert(x, t[1..]));
    }
  }

  /** An entry whose key no entry of `t` has, put in front of `t`, keeps the keys distinct. */
  lemma ConsDistinct(x: Entry, t: Dict)
    requires DistinctKeys(t) && forall e :: e in t ==> e.key != x.key
    ensures DistinctKeys([x] + t)
  {
    var r := [x] + t;
    forall i, j | 0 <= i < j < |r| ensures r[i].key != r[j].key {
      if i > 0 { assert r[i] == t[i - 1] && r[j] == t[j - 1]; }
      else { assert r[j] in t; }
    }
  }

  /** The first entry's key is none of the keys left after inserting into the rest. */
  lemma InsertedKeys(x: Entry, t: Dict)
    requires t != [] && DistinctKeys(t) && t[0].key != x.key
    ensures forall e :: e in Insert(x, t[1..]) ==> e.key != t[0].key
  {
    forall e | e in Insert(x, t[1..]) ensures e.key != t[0].key {
      assert e in multiset(Insert(x, t[1..]));
      assert e in multiset(t[1..]) + multiset{x};
      if e != x {
        var m :| 0 <= m < |t[1..]| && t[1..][m] == e;
        assert t[m + 1] == e;
      }
    }
  }


  /** Sorting neither adds nor drops a key, so distinct keys stay distinct. */
  lemma {:induction false} SortDistinct(d: Dict)
    requires DistinctKeys(d)
    ensures DistinctKeys(SortByLength(d))
  {
    if d != [] {
      SortDistinct(d[1..]);
      forall e | e in SortByLength(d[1..]) ensures e.key != d[0].key {
        assert e in multiset(d[1..]);
        var m :| 0 <= m < |d[1..]| && d[1..][m] == e;
        assert d[m + 1] == e;
      }
      InsertDistinct(d[0], SortByLength(d[1..]));
    }
  }

  /** A key strictly longer than another is processed before it. */
  lemma LongerKeyFirst(d: Dict, a: Entry, b: Entry)
    requires a in d && b in d && |a.key| < |b.key|
    ensures exists i, j :: 0 <= i < j < |SortByLength(d)| &&
                           SortByLength(d)[i] == b && SortByLength(d)[j] == a
  {
    var r := SortByLength(d);
    SortLongerFirst(d);
    var j := Position(r, a);
    var i := Position(r, b);
    assert i < j;
  }

  /** An entry of the sorted list sits at some index of it. */
  lemma Position(r: Dict, e: Entry) returns (i: nat)
    requires e in multiset(r)
    ensures i < |r| && r[i] == e
  {
    i :| 0 <= i < |r| && r[i] == e;
  }

  /**
   * The reverse map built by `for (const [native, eng] of Object.entries(d))
   * reverse[eng] = native`: a later entry overwrites an earlier one.
   */
  function Reverse(d: Dict): map<string, string>
    decreases |d|
  {
    if d == [] then map[]
    else Reverse(d[..|d| - 1])[d[|d| - 1].value := d[|d| - 1].key]
  }

  /** Every canonical value of the dictionary, and only those, has a reverse entry. */
  lemma {:induction false} ReverseDomain(d: Dict, c: string)
    ensures c in Reverse(d) <==> exists i :: 0 <= i < |d| && d[i].value == c
    decreases |d|
  {
    if d != [] {
      var p := d[..|d| - 1];
      ReverseDomain(p, c);
      if exists i :: 0 <= i < |d| && d[i].value == c {
        var i :| 0 <= i < |d| && d[i].value == c;
        if i < |d| - 1 { assert p[i].value == c; }
      }
      if exists i :: 0 <= i < |p| && p[i].value == c {
        var i :| 0 <= i < |p| && p[i].value == c;
        assert d[i].value == c;
      }
    }
  }

  /** Last write wins: the reverse entry of a value is the last key that maps to it. */
  lemma {:induction false} ReverseLastWins(d: Dict, i: nat)
    requires i < |d|
    requires forall j :: i < j < |d| ==> d[j].value != d[i].value
    ensures d[i].value in Reverse(d) && Reverse(d)[d[i].value] == d[i].key
    decreases |d|
  {
    if i < |d| - 1 {
      var p := d[..|d| - 1];
      ReverseLastWins(p, i);
    }
  }

  /** `reverse` as the source builds it, entry by entry. */
  method BuildReverse(d: Dict) returns (m: map<string, string>)
    ensures m == Reverse(d)
  {
    m := map[];
    for i := 0 to |d|
      invariant m == Reverse(d[..i])
    {
      assert d[..i + 1][..i] == d[..i];
      m := m[d[i].value := d[i].key];
    }
    assert d[..|d|] == d;
  }
}
