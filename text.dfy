/** The handful of Python string operations the grading scripts rely on:
    `str.strip()`, `str.rsplit(sep, 1)`, `str.lower()` and the ordering
    `sorted` uses on strings. */
module Text {

  import opened Maybe

  /** `c.isspace()`: the characters Python's `str.strip()` removes when it
      is called without an argument. */
  predicate IsSpace(c: char) {
    var n := c as int;
    n == 0x20 || 0x09 <= n <= 0x0D || 0x1C <= n <= 0x1F || n == 0x85 || n == 0xA0 ||
    n == 0x1680 || 0x2000 <= n <= 0x200A || n == 0x2028 || n == 0x2029 ||
    n == 0x202F || n == 0x205F || n == 0x3000
  }

  /** Drops leading whitespace. */
  function StripLeft(s: string): (r: string)
    ensures |r| <= |s|
  {
    if s != [] && IsSpace(s[0]) then StripLeft(s[1..]) else s
  }

  /** What remains is a suffix that does not start with whitespace, and
      everything dropped was whitespace. */
  lemma {:induction false} StripLeftSpec(s: string)
    ensures var r := StripLeft(s);
            && r == s[|s| - |r|..]
            && (r == [] || !IsSpace(r[0]))
            && (forall i :: 0 <= i < |s| - |r| ==> IsSpace(s[i]))
  {
    if s != [] && IsSpace(s[0]) {
      StripLeftSpec(s[1..]);
    }
  }

  /** Drops trailing whitespace. */
  function StripRight(s: string): (r: string)
    ensures |r| <= |s|
  {
    if s != [] && IsSpace(s[|s| - 1]) then StripRight(s[..|s| - 1]) else s
  }

  /** What remains is a prefix that does not end with whitespace, and
      everything dropped was whitespace. */
  lemma {:induction false} StripRightSpec(s: string)
    ensures var r := StripRight(s);
            && r == s[..|r|]
            && (r == [] || !IsSpace(r[|r| - 1]))
            && (forall i :: |r| <= i < |s| ==> IsSpace(s[i]))
  {
    if s != [] && IsSpace(s[|s| - 1]) {
      StripRightSpec(s[..|s| - 1]);
    }
  }

  /** `s.strip()`: whitespace removed from both ends. */
  function Strip(s: string): (r: string)
    ensures |r| <= |s|
  {
    StripRight(StripLeft(s))
  }

  /** The strip is the slice of `s` that neither starts nor ends with
      whitespace, everything around it being whitespace. */
  lemma StripSpec(s: string)
    ensures exists i, j :: 0 <= i <= j <= |s| && Strip(s) == s[i..j] &&
                           (forall k :: 0 <= k < i ==> IsSpace(s[k])) &&
                           (forall k :: j <= k < |s| ==> IsSpace(s[k]))
    ensures Strip(s) == [] || (!IsSpace(Strip(s)[0]) && !IsSpace(Strip(s)[|Strip(s)| - 1]))
  {
    var left := StripLeft(s);
    StripLeftSpec(s);
    StripRightSpec(left);
    var r := StripRight(left);
    var i := |s| - |left|;
    var j := i + |r|;
    assert r == s[i..j];
    forall k | j <= k < |s| ensures IsSpace(s[k]) {
      assert s[k] == left[k - i];
    }
    if r != [] {
      assert r[0] == left[0];
    }
    assert 0 <= i <= j <= |s| && Strip(s) == s[i..j];
  }

  /** A string that starts and ends with a non-space is its own strip. */
  lemma StripUnchanged(s: string)
    requires s != [] && !IsSpace(s[0]) && !IsSpace(s[|s| - 1])
    ensures Strip(s) == s
  {
    assert StripLeft(s) == s;
    assert StripRight(s) == s;
  }

  /** `len(s.strip())`. */
  function TrimmedLength(s: string): nat {
    |Strip(s)|
  }

  /** `sep` occurs in `s` starting at position `i`. */
  predicate OccursAt(s: string, sep: string, i: int) {
    0 <= i && i + |sep| <= |s| && s[i..i + |sep|] == sep
  }

  /** The start of the right-most occurrence of `sep` among positions `< n`
      (the search `str.rsplit` performs). */
  function LastOccurrenceBefore(s: string, sep: string, n: nat): (r: Option<nat>)
    ensures r.Some? ==> r.value < n && OccursAt(s, sep, r.value)
  {
    if n == 0 then None
    else if OccursAt(s, sep, n - 1) then Some(n - 1)
    else LastOccurrenceBefore(s, sep, n - 1)
  }

  /** The occurrence found has none after it below `n`; when none is
      found there is none below `n`. */
  lemma {:induction false} LastOccurrenceBeforeSpec(s: string, sep: string, n: nat)
    ensures var r := LastOccurrenceBefore(s, sep, n);
            && (r.Some? ==> forall j :: r.value < j < n ==> !OccursAt(s, sep, j))
            && (r.None? ==> forall j :: 0 <= j < n ==> !OccursAt(s, sep, j))
  {
    if n > 0 && !OccursAt(s, sep, n - 1) {
      LastOccurrenceBeforeSpec(s, sep, n - 1);
    }
  }

  /** `s.rsplit(sep, 1)` when `sep in s`: the text before and after the
      right-most occurrence; `None` when `sep` does not occur. */
  function RSplitOnce(s: string, sep: string): (r: Option<(string, string)>)
    requires sep != []
  {
    match LastOccurrenceBefore(s, sep, |s|)
    case None => None
    case Some(i) => Some((s[..i], s[i + |sep|..]))
  }

  /** Splitting succeeds exactly when the separator occurs; when it does,
      the parts glue back together around it and no occurrence starts in
      the right part or overlaps it from the separator. */
  lemma RSplitOnceSpec(s: string, sep: string)
    requires sep != []
    ensures RSplitOnce(s, sep).None? <==> forall j :: 0 <= j < |s| ==> !OccursAt(s, sep, j)
    ensures RSplitOnce(s, sep).Some? ==>
              var (left, right) := RSplitOnce(s, sep).value;
              s == left + sep + right &&
              forall j :: |left| < j < |s| ==> !OccursAt(s, sep, j)
  {
    var o := LastOccurrenceBefore(s, sep, |s|);
    LastOccurrenceBeforeSpec(s, sep, |s|);
    if o.Some? {
      var i := o.value;
      assert s == s[..i] + s[i..i + |sep|] + s[i + |sep|..];
    }
  }

  /** When `sep` occurs right after `left` and nowhere later, that is where
      `rsplit` cuts. */
  lemma RSplitOnceUnique(s: string, sep: string, left: string, right: string)
    requires sep != [] && s == left + sep + right
    requires forall j :: |left| < j < |s| ==> !OccursAt(s, sep, j)
    ensures RSplitOnce(s, sep) == Some((left, right))
  {
    assert s[|left|..|left| + |sep|] == sep;
    assert OccursAt(s, sep, |left|);
    var o := LastOccurrenceBefore(s, sep, |s|);
    LastOccurrenceBeforeSpec(s, sep, |s|);
    assert o.Some? && o.value == |left|;
    assert s[..|left|] == left && s[|left| + |sep|..] == right;
  }

  /** `c.lower()` for the ASCII letters. */
  function LowerChar(c: char): char {
    if 'A' <= c <= 'Z' then (c as int + 32) as char else c
  }

  /** `s.lower()`, ASCII letters only (see README). */
  function Lower(s: string): (r: string)
    ensures |r| == |s|
    ensures forall i :: 0 <= i < |s| ==> r[i] == LowerChar(s[i])
  {
    seq(|s|, i requires 0 <= i < |s| => LowerChar(s[i]))
  }

  /** Python's ordering of `str` values: lexicographic by code point, a
      proper prefix first. */
  predicate StrLe(a: string, b: string)
    decreases |a|
  {
    a == [] || (b != [] && (a[0] < b[0] || (a[0] == b[0] && StrLe(a[1..], b[1..]))))
  }

  lemma {:induction false} StrLeTotal(a: string, b: string)
    ensures StrLe(a, b) || StrLe(b, a)
    decreases |a|
  {
    if a != [] && b != [] && a[0] == b[0] {
      StrLeTotal(a[1..], b[1..]);
    }
  }

  lemma {:induction false} StrLeTrans(a: string, b: string, c: string)
    requires StrLe(a, b) && StrLe(b, c)
    ensures StrLe(a, c)
    decreases |a|
  {
    if a != [] && a[0] == b[0] && b[0] == c[0] {
      StrLeTrans(a[1..], b[1..], c[1..]);
    }
  }

  /** `xs` is in non-decreasing order of `key`. */
  predicate SortedBy<T>(xs: seq<T>, key: T -> string) {
    forall i :: 0 <= i < |xs| - 1 ==> StrLe(key(xs[i]), key(xs[i + 1]))
  }

  /** Sorted by neighbours means sorted pairwise. */
  lemma {:induction false} SortedByPairs<T>(xs: seq<T>, key: T -> string, i: int, j: int)
    requires SortedBy(xs, key) && 0 <= i <= j < |xs|
    ensures StrLe(key(xs[i]), key(xs[j]))
    decreases j - i
  {
    if i == j {
      StrLeRefl(key(xs[i]));
    } else {
      SortedByPairs(xs, key, i + 1, j);
      StrLeTrans(key(xs[i]), key(xs[i + 1]), key(xs[j]));
    }
  }

  lemma {:induction false} StrLeRefl(a: string)
    ensures StrLe(a, a)
    decreases |a|
  {
    if a != [] {
      StrLeRefl(a[1..]);
    }
  }

  /** Inserts `x` before the first element whose key is not below its own. */
  function InsertBy<T>(x: T, xs: seq<T>, key: T -> string): (r: seq<T>)
    requires SortedBy(xs, key)
    ensures SortedBy(r, key)
    ensures multiset(r) == multiset(xs) + multiset{x}
    ensures r != [] && (r[0] == x || (xs != [] && r[0] == xs[0]))
  {
    if xs == [] then [x]
    else if StrLe(key(x), key(xs[0])) then [x] + xs
    else
      StrLeTotal(key(x), key(xs[0]));
      var rest := InsertBy(x, xs[1..], key);
      assert xs == [xs[0]] + xs[1..];
      [xs[0]] + rest
  }

  /** `sorted(xs, key=key)`: the same elements, in non-decreasing order of
      their keys. */
  function SortBy<T>(xs: seq<T>, key: T -> string): (r: seq<T>)
    ensures SortedBy(r, key)
    ensures multiset(r) == multiset(xs)
  {
    if xs == [] then []
    else
      assert xs == [xs[0]] + xs[1..];
      InsertBy(xs[0], SortBy(xs[1..], key), key)
  }

  /** The elements of `xs` whose key is `k`, in their order in `xs`. */
  function WithKey<T>(xs: seq<T>, key: T -> string, k: string): seq<T> {
    if xs == [] then [] else (if key(xs[0]) == k then [xs[0]] else []) + WithKey(xs[1..], key, k)
  }

  /** Inserting `x` puts it ahead of every element with the same key. */
  lemma {:induction false} InsertByWithKey<T>(x: T, xs: seq<T>, key: T -> string, k: string)
    requires SortedBy(xs, key)
    ensures WithKey(InsertBy(x, xs, key), key, k) == (if key(x) == k then [x] else []) + WithKey(xs, key, k)
  {
    if xs == [] {
      assert InsertBy(x, xs, key) == [x] + [];
      WithKeyCons(x, [], key, k);
    } else if StrLe(key(x), key(xs[0])) {
      assert InsertBy(x, xs, key) == [x] + xs;
      WithKeyCons(x, xs, key, k);
    } else {
      InsertByWithKey(x, xs[1..], key, k);
      InsertPastWithKey(x, xs, key, k);
    }
  }

  /** The step of `InsertByWithKey` where `x` moves past `xs[0]`, whose key
      is below its own and so differs from it. */
  lemma InsertPastWithKey<T>(x: T, xs: seq<T>, key: T -> string, k: string)
    requires SortedBy(xs, key) && xs != [] && !StrLe(key(x), key(xs[0]))
    requires WithKey(InsertBy(x, xs[1..], key), key, k) == (if key(x) == k then [x] else []) + WithKey(xs[1..], key, k)
    ensures WithKey(InsertBy(x, xs, key), key, k) == (if key(x) == k then [x] else []) + WithKey(xs, key, k)
  {
    StrLeRefl(key(x));
    var rest := InsertBy(x, xs[1..], key);
    assert InsertBy(x, xs, key) == [xs[0]] + rest;
    WithKeyCons(xs[0], rest, key, k);
    SwapDisjoint(if key(xs[0]) == k then [xs[0]] else [], if key(x) == k then [x] else [], WithKey(xs[1..], key, k));
  }

  lemma SwapDisjoint<T>(a: seq<T>, b: seq<T>, c: seq<T>)
    requires a == [] || b == []
    ensures a + (b + c) == b + (a + c)
  {
  }

  lemma WithKeyCons<T>(y: T, ys: seq<T>, key: T -> string, k: string)
    ensures WithKey([y] + ys, key, k) == (if key(y) == k then [y] else []) + WithKey(ys, key, k)
  {
    assert ([y] + ys)[1..] == ys;
  }

  /** `sorted` is stable: the elements sharing a key keep their input
      order. */
  lemma {:induction false} SortByStable<T>(xs: seq<T>, key: T -> string, k: string)
    ensures WithKey(SortBy(xs, key), key, k) == WithKey(xs, key, k)
  {
    if xs != [] {
      SortByStable(xs[1..], key, k);
      InsertByWithKey(xs[0], SortBy(xs[1..], key), key, k);
    }
  }
}
